# Linked lists, polynomials and sparse adjacency maps

This project models three small in-memory data structures, each taken from a
teaching program, and proves facts about them in Dafny.

- **Club member list** (`club.dfy`, module `Clubs`): the C++ `Member` node and
  the `Club` class of `03.cpp`. A member is a PRN, a name and an academic
  year. A club keeps `head` and `tail` references into a singly linked list of
  nodes. It supports:
  - `addMember`: append at the tail;
  - `deleteMember`: remove the first node with a PRN;
  - `totalMembers`: count the nodes;
  - `concatenate`: move all nodes of another club to the end and empty the
    other club;
  - `updateMember`: rewrite name and year of the first node with a PRN.

  `Club` is a Dafny class.
  - Its `head` and `tail` fields are the real references, and each `Member` has
    a real `next` field.
  - The ghost field `nodes` lists the reachable nodes in order, `members`
    lists their records, and `Repr` is the footprint.
  - `Valid()` ties `head`, `tail` and every `next` link to `nodes`. It ties
    `members` to the node fields.
  - The tail is only bound while the head is non-null. Deleting the sole
    member through the head branch leaves `tail` pointing at the removed node.
    Every later use of `tail` is guarded by a test of `head`, so this is safe.
    `DeleteMember` states the stale tail explicitly.

  The list operations are specified by functions on records:
  - `RemoveFirst` and `UpdateFirst` give the result sequences;
  - `FirstIndex` gives the position of the first match.

  Lemmas relate these functions to splicing and to point update. They also
  count occurrences and prove idempotence.

- **Polynomials** (`polynomial.dfy`, module `Polynomials`): the `Polynomial`
  class of `02.cpp`. It keeps a coefficient vector indexed by exponent and
  supports:
  - a zero-filled constructor;
  - a bounds-checked `setCoefficient`;
  - `operator+`, term by term, padded to the longer operand;
  - `evaluate`, using a running power of `x`.

  The vector is a `seq<int>` field. `Sum` and `Eval` are the reference
  definitions. The methods are proved against them, and `EvalOfSum` shows
  that evaluation distributes over addition.

- **Sparse adjacency maps** (`sparse.dfy`, module `Sparse`): `SparseMatrix`
  and `RoadMap` of `01.cpp`. Both are a map of rows, each row a map from
  column to value, written in both directions.
  - `Connect` models the two writes.
  - `Touch` models the empty row that C++ `operator[]` inserts when a query
    reads a missing row.
  - `Symmetric` and `SymmetricValues` are the invariants an insertion
    preserves.
  - The distance is modelled as `real`.

Each demo `main` becomes a scenario method. The method runs the same calls
and states its results in its postconditions.

## Model

| member | source | states |
|---|---|---|
| Clubs.Member.constructor | 03.cpp:17-22 | a new node holds the given PRN, name and academic year, and its `next` is null |
| Clubs.Club.constructor | 03.cpp:31-34 | a new club is valid, empty, with null head and tail |
| Clubs.Club.AddMember | 03.cpp:37-47 | the records become the old ones plus the new record at the end, with no PRN check; the new node is the tail and the only object added to the footprint; the head changes only when the list was empty; the invariant is kept |
| Clubs.Club.DeleteMember | 03.cpp:50-85 | the records become `RemoveFirst(old, prn)`; with no match, an empty list included, the nodes, footprint, head and tail are unchanged; a match at the head drops the first node from nodes and footprint, moves `head` to its successor and keeps `tail`; a later match splices that node out of nodes and footprint, keeps `head`, and moves `tail` to the predecessor exactly when the last node was removed; deleting the sole member leaves `head` null and `tail` at the removed node, outside the footprint; the invariant is kept |
| Clubs.Club.UnlinkHead | 03.cpp:57-62 | the first node and its record are dropped and leave the footprint; `head` moves to its successor and `tail` is left as it was; the invariant is kept |
| Clubs.Club.Unlink | 03.cpp:79-81 | bypassing the node after `prev` removes exactly that node and its record and keeps the head; `tail` becomes `prev` when the removed node was the last one and is unchanged otherwise; the invariant is kept |
| Clubs.Club.TotalMembers | 03.cpp:88-96 | the count of nodes reachable from `head` equals the number of records; nothing changes |
| Clubs.Club.Concatenate | 03.cpp:115-125 | for disjoint clubs, this club's records become its old records followed by the other's; the other ends empty with null head; an empty other is a no-op; an empty receiver takes over the other's head and tail; both invariants are kept |
| Clubs.Club.UpdateMember | 03.cpp:128-140 | the records become `UpdateFirst(old, prn, name, ay)`, rewritten in place; head, tail and footprint are unchanged; the invariant is kept |
| Clubs.FirstIndex | 03.cpp:66-75 | the index returned is the first record with the PRN, or the length when there is none |
| Clubs.RemoveFirstSplit | 03.cpp:50-85 | deleting removes exactly the first match and keeps the order of the rest; without a match the sequence is unchanged |
| Clubs.UpdateFirstSplit | 03.cpp:128-140 | updating replaces name and year of the first match only; without a match the sequence is unchanged |
| Clubs.UpdateFirstShape | 03.cpp:129-136 | an update keeps the length and every PRN, and leaves every record except the first match unchanged |
| Clubs.FirstIndexFound | 03.cpp:68-76 | the search finds a node exactly when the PRN occurs in the list |
| Clubs.RemoveFirstOccurrences | 03.cpp:57-83 | a delete removes one occurrence of its PRN when there is one, and leaves the count of every other PRN unchanged |
| Clubs.RemoveTwice | 03.cpp:50-85 | a second delete of the same PRN changes nothing exactly when the PRN occurred at most once |
| Clubs.UpdateIdempotent | 03.cpp:128-140 | repeating an update gives the same list |
| Clubs.NewDivision | 03.cpp:155-163 | a new club after two `addMember` calls is valid and holds exactly those two records in order |
| Clubs.DemoEdits | 03.cpp:176-183 | in the demo list, renaming 102 changes only the second record, and deleting 201 then drops the third |
| Clubs.ClubScenario | 03.cpp:154-189 | the demo ends with 101 Alice, 102 Bobby 2024-25 and 202 David, and a total of 3 |
| Polynomials.Polynomial.constructor | 02.cpp:35-37 | `degree + 1` coefficients, all zero |
| Polynomials.Polynomial.SetCoefficient | 02.cpp:40-44 | an exponent inside the vector overwrites that coefficient alone; any other exponent, including a negative one, leaves the vector unchanged |
| Polynomials.Polynomial.Add | 02.cpp:60-70 | a fresh result whose length is the larger length, with each coefficient the sum of the operands' coefficients, where a missing coefficient counts as zero |
| Polynomials.Polynomial.Evaluate | 02.cpp:73-81 | the result is the sum of `coeff[i] * x^i` over the vector, kept by the invariant `power == x^i` |
| Polynomials.SumAt | 02.cpp:61-67 | the sum has the larger length, and each entry adds the zero-padded coefficients |
| Polynomials.SumCommutes | 02.cpp:60-70 | addition is commutative |
| Polynomials.SeriesOfSum | 02.cpp:60-81 | any prefix of the series of a sum is the sum of the two prefixes |
| Polynomials.EvalOfSum | 02.cpp:60-81 | evaluating a sum gives the sum of the evaluations |
| Polynomials.DocumentedValueIsWrong | 02.cpp:131-153 | the sum polynomial at x = 2 is 32 + 12 + 4 + 6, which is not the documented 62 |
| Polynomials.PolynomialScenario | 02.cpp:84-109 | the demo sum has coefficients [6, 2, 3, 4], and its value at x = 2 is 54 |
| Sparse.Touch | 01.cpp:32 | reading `data[a]` adds `a` as a key with an empty row when it is missing, and changes no existing row |
| Sparse.Put | 01.cpp:27 | one write sets entry (a, b) and keeps every other entry and value |
| Sparse.Connect | 01.cpp:26-29 | after the two writes, both directions are present and hold the value |
| Sparse.ConnectLinks | 01.cpp:26-29 | the only entries a connection adds are (a, b) and (b, a), and none is removed |
| Sparse.ConnectPreservesSymmetry | 01.cpp:27-28 | a symmetric matrix stays symmetric after a connection |
| Sparse.ConnectPreservesSymmetricValues | 01.cpp:77-78 | a matrix that is symmetric in its values stays so after a road is added |
| Sparse.ConnectIdempotent | 01.cpp:26-29 | a second identical connection leaves the matrix unchanged |
| Sparse.TouchKeepsLinks | 01.cpp:31-33 | the inserted empty row changes no connectivity answer and no stored value |
| Sparse.TouchPreservesSymmetry | 01.cpp:31-33 | the inserted empty row keeps both symmetry invariants |
| Sparse.SparseMatrix.constructor | 01.cpp:24 | a new network has an empty map of rows |
| Sparse.SparseMatrix.AddConnection | 01.cpp:26-29 | both directions become connected, and symmetry is preserved |
| Sparse.SparseMatrix.IsConnected | 01.cpp:31-33 | the answer is whether `user2` is a key of row `user1`; the map gains at most an empty row, which changes no answer and keeps symmetry |
| Sparse.RoadMap.constructor | 01.cpp:74 | a new road map has an empty map of rows |
| Sparse.RoadMap.AddRoad | 01.cpp:76-79 | the distance is stored in both directions, overwriting any earlier value; symmetry of values is preserved |
| Sparse.RoadMap.GetDistance | 01.cpp:81-86 | the stored distance or -1; the map gains at most an empty row, which changes no answer |
| Sparse.NetworkScenario | 01.cpp:36-45 | after connecting (1, 2) and (2, 3), users 1 and 3 are not connected |
| Sparse.RoadScenario | 01.cpp:89-98 | the distance from 1 to 2 is 10.5, and from 1 to 3 is -1 |

## Left out

- The JavaScript copy of the club list in `03.cpp`: it behaves like the C++ version.
- `displayMembers` and `Polynomial::display`: output only.
- Every printed message, including "deleted", "updated" and "not found": the outcome is stated on the record sequence instead.
- Input and output of the demo programs: the scenario methods make the same calls but print nothing.
- The `Club` destructor and every `delete`: memory is not released explicitly. A freed node simply leaves the footprint `Repr`.
- `Repr` is not pinned down by `Valid()`: the invariant only asks that it hold the club and every reachable node, and does not exclude other objects. The contracts of the operations say which nodes join or leave `Repr`, not that it equals the club plus its nodes.
- Clubs.Club.Concatenate: requires the two clubs' footprints to be disjoint. This rules out concatenating a club with itself, which in C++ first makes a cycle and then empties the list.
- Polynomials.Polynomial.constructor: requires `degree >= -1`. A lower degree makes `resize` fail in C++.
- Polynomials.Polynomial.Add: does not model fixed-width `int` overflow. Coefficients are unbounded integers.
- Polynomials.Polynomial.Evaluate: does not model fixed-width `int` overflow. Coefficients are unbounded integers.
- Sparse.RoadMap.AddRoad: the C++ `double` distance is modelled as an exact `real` value. No arithmetic is done on distances.
- The constant-time claims for map access: performance is not modelled.
- `unordered_map` internals: each map is a Dafny `map`.
- Clubs.Club.UpdateMember: the search and the write are one loop in C++ and two steps here, the search loop followed by the in-place write. The effect is the same.
- Clubs.Club.UnlinkHead, Clubs.Club.Unlink and Clubs.NewDivision are helpers of this model, not operations of the source. The first two are the two unlinking branches of `deleteMember`.

## Findings

| source | as written | input that shows it | evidently intended | confidence | as-written member | corrected member |
|---|---|---|---|---|---|---|
| 02.cpp:136, 02.cpp:150-153 | the sample output and the worked example give 62 for the sum polynomial evaluated at x = 2 | (3x^2 + 5) + (4x^3 + 2x + 1) at x = 2: the listed terms 32 + 12 + 4 + 6 add up to 54 | 54, which is the value `evaluate` computes | not executed | Polynomials.DocumentedValueIsWrong | Polynomials.PolynomialScenario |
