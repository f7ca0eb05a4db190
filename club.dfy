/** Club member records kept in a singly linked list with head and tail
    references (03.cpp:10-151). Keyed operations act on the first record with
    the given PRN; PRNs are not required to be unique. */
module Clubs {

  /** The data a `Member` node carries (03.cpp:10-14). */
  datatype Record = Record(prn: int, name: string, ay: string)

  /** Index of the first record with this PRN, or |s| when there is none. */
  function FirstIndex(s: seq<Record>, prn: int): (k: nat)
    ensures k <= |s|
    ensures k < |s| ==> s[k].prn == prn
    ensures forall j :: 0 <= j < k ==> s[j].prn != prn
  {
    if s == [] then 0
    else if s[0].prn == prn then 0
    else 1 + FirstIndex(s[1..], prn)
  }

  /** How many records carry this PRN. */
  function Occurrences(s: seq<Record>, prn: int): nat {
    if s == [] then 0
    else (if s[0].prn == prn then 1 else 0) + Occurrences(s[1..], prn)
  }

  /** The list after `deleteMember(prn)`: the first match is dropped. */
  function RemoveFirst(s: seq<Record>, prn: int): seq<Record> {
    if s == [] then []
    else if s[0].prn == prn then s[1..]
    else [s[0]] + RemoveFirst(s[1..], prn)
  }

  /** The list after `updateMember(prn, name, ay)`: the first match gets the
      new name and academic year. */
  function UpdateFirst(s: seq<Record>, prn: int, name: string, ay: string): seq<Record> {
    if s == [] then []
    else if s[0].prn == prn then [s[0].(name := name, ay := ay)] + s[1..]
    else [s[0]] + UpdateFirst(s[1..], prn, name, ay)
  }

  /** Deleting splices out exactly the first match and keeps the order of the
      rest; without a match nothing changes (03.cpp:51-83). */
  lemma {:induction false} RemoveFirstSplit(s: seq<Record>, prn: int)
    ensures var k := FirstIndex(s, prn);
            RemoveFirst(s, prn) == if k < |s| then s[..k] + s[k + 1..] else s
  {
    if s != [] && s[0].prn != prn {
      RemoveFirstSplit(s[1..], prn);
      var k := FirstIndex(s[1..], prn);
      assert FirstIndex(s, prn) == k + 1;
      assert RemoveFirst(s, prn) == [s[0]] + RemoveFirst(s[1..], prn);
      if k < |s[1..]| {
        assert s[..k + 1] == [s[0]] + s[1..][..k];
        assert s[k + 2..] == s[1..][k + 1..];
      } else {
        assert s == [s[0]] + s[1..];
      }
    }
  }

  /** Updating rewrites name and year of the first match only; length, order
      and every PRN stay as they were (03.cpp:128-140). */
  lemma {:induction false} UpdateFirstSplit(s: seq<Record>, prn: int, name: string, ay: string)
    ensures var k := FirstIndex(s, prn);
            UpdateFirst(s, prn, name, ay) ==
              if k < |s| then s[k := s[k].(name := name, ay := ay)] else s
  {
    if s != [] && s[0].prn != prn {
      UpdateFirstSplit(s[1..], prn, name, ay);
      var k := FirstIndex(s[1..], prn);
      if k < |s[1..]| {
        assert [s[0]] + s[1..][k := s[1..][k].(name := name, ay := ay)] ==
               s[k + 1 := s[k + 1].(name := name, ay := ay)];
      } else {
        assert s == [s[0]] + s[1..];
      }
    }
  }

  /** An update keeps the length and every PRN, and changes no record other
      than the first match (03.cpp:129-136). */
  lemma UpdateFirstShape(s: seq<Record>, prn: int, name: string, ay: string)
    ensures |UpdateFirst(s, prn, name, ay)| == |s|
    ensures forall i :: 0 <= i < |s| ==>
              UpdateFirst(s, prn, name, ay)[i].prn == s[i].prn &&
              (i != FirstIndex(s, prn) ==> UpdateFirst(s, prn, name, ay)[i] == s[i])
  {
    UpdateFirstSplit(s, prn, name, ay);
  }

  /** There is a match exactly when the PRN occurs. */
  lemma {:induction false} FirstIndexFound(s: seq<Record>, prn: int)
    ensures FirstIndex(s, prn) < |s| <==> Occurrences(s, prn) > 0
  {
    if s != [] {
      FirstIndexFound(s[1..], prn);
    }
  }

  /** A delete removes one occurrence of its PRN and none of any other. */
  lemma {:induction false} RemoveFirstOccurrences(s: seq<Record>, prn: int, other: int)
    ensures Occurrences(RemoveFirst(s, prn), prn) ==
              if Occurrences(s, prn) == 0 then 0 else Occurrences(s, prn) - 1
    ensures other != prn ==> Occurrences(RemoveFirst(s, prn), other) == Occurrences(s, other)
  {
    if s != [] && s[0].prn != prn {
      RemoveFirstOccurrences(s[1..], prn, other);
      var r := RemoveFirst(s[1..], prn);
      assert ([s[0]] + r)[1..] == r;
    }
  }

  /** Deleting the same PRN twice: the second delete finds nothing, unless the
      PRN occurred more than once. */
  lemma {:induction false} RemoveTwice(s: seq<Record>, prn: int)
    ensures RemoveFirst(RemoveFirst(s, prn), prn) == RemoveFirst(s, prn) <==>
            Occurrences(s, prn) <= 1
  {
    var r := RemoveFirst(s, prn);
    RemoveFirstOccurrences(s, prn, prn);
    RemoveFirstOccurrences(r, prn, prn);
    RemoveFirstSplit(r, prn);
    FirstIndexFound(r, prn);
    if Occurrences(s, prn) > 1 {
      assert |RemoveFirst(r, prn)| == |r| - 1;
    }
  }

  /** Repeating an update changes nothing more. */
  lemma {:induction false} UpdateIdempotent(s: seq<Record>, prn: int, name: string, ay: string)
    ensures UpdateFirst(UpdateFirst(s, prn, name, ay), prn, name, ay) == UpdateFirst(s, prn, name, ay)
  {
    if s != [] && s[0].prn != prn {
      UpdateIdempotent(s[1..], prn, name, ay);
      var u := UpdateFirst(s[1..], prn, name, ay);
      assert ([s[0]] + u)[1..] == u;
    } else if s != [] {
      assert ([s[0].(name := name, ay := ay)] + s[1..])[1..] == s[1..];
    }
  }

  /** A list node (03.cpp:10-23). */
  class Member {
    var prn: int
    var name: string
    var ay: string
    var next: Member?

    constructor (p: int, n: string, year: string)
      ensures prn == p && name == n && ay == year && next == null
    {
      prn := p;
      name := n;
      ay := year;
      next := null;
    }
  }

  /** No node occurs twice. */
  ghost predicate Distinct(ns: seq<Member>) {
    forall i, j :: 0 <= i < j < |ns| ==> ns[i] != ns[j]
  }

  /** Each node's `next` is its successor in `ns`, and the last one's is null. */
  ghost predicate Chained(ns: seq<Member>)
    reads ns
  {
    (forall i, j {:trigger ns[i], ns[j]} :: 0 <= i && j == i + 1 && j < |ns| ==> ns[i].next == ns[j]) &&
    (ns != [] ==> ns[|ns| - 1].next == null)
  }

  /** The records are the data of the nodes, in order. */
  ghost predicate Carries(ns: seq<Member>, ms: seq<Record>)
    reads ns
  {
    |ns| == |ms| &&
    forall i {:trigger ns[i]} :: 0 <= i < |ns| ==>
      ms[i] == Record(ns[i].prn, ns[i].name, ns[i].ay)
  }

  lemma DistinctSplice(ns: seq<Member>, i: nat)
    requires Distinct(ns) && i < |ns|
    ensures Distinct(ns[..i] + ns[i + 1..])
  {
    var r := ns[..i] + ns[i + 1..];
    forall a, b | 0 <= a < b < |r| ensures r[a] != r[b] {
      var a', b' := if a < i then a else a + 1, if b < i then b else b + 1;
      assert r[a] == ns[a'] && r[b] == ns[b'];
    }
  }

  /** Dropping the first node keeps the rest chained. */
  lemma ChainedDrop(ns: seq<Member>)
    requires Chained(ns) && ns != []
    ensures Chained(ns[1..])
  {
    forall a, b | 0 <= a && b == a + 1 && b < |ns| - 1 ensures ns[1..][a].next == ns[1..][b] {
      assert ns[1..][a] == ns[a + 1] && ns[1..][b] == ns[b + 1];
    }
  }

  /** Dropping the first node and its record keeps the rest matched. */
  lemma CarriesDrop(ns: seq<Member>, ms: seq<Record>)
    requires Carries(ns, ms) && ns != []
    ensures Carries(ns[1..], ms[1..])
  {
    forall j | 0 <= j < |ns| - 1
      ensures ms[1..][j] == Record(ns[1..][j].prn, ns[1..][j].name, ns[1..][j].ay)
    {
      assert ns[1..][j] == ns[j + 1];
    }
  }

  /** The list of a club (03.cpp:25-151). `nodes` are the nodes reachable from
      `head`, in order, and `members` their records. The invariant ties `tail`
      to the last node only while `head` is non-null: deleting the sole member
      through the head leaves `tail` at the removed node, and no operation
      follows `tail` without first finding `head` non-null. */
  class Club {
    var head: Member?
    var tail: Member?
    ghost var members: seq<Record>
    ghost var nodes: seq<Member>
    ghost var Repr: set<object>

    ghost predicate Valid()
      reads this, Repr
    {
      this in Repr &&
      (forall i {:trigger nodes[i]} :: 0 <= i < |nodes| ==> nodes[i] in Repr) &&
      Distinct(nodes) && Chained(nodes) && Carries(nodes, members) &&
      head == (if nodes == [] then null else nodes[0]) &&
      (head != null ==> tail == nodes[|nodes| - 1])
    }

    /** 03.cpp:31-34. */
    constructor ()
      ensures Valid() && fresh(Repr)
      ensures members == [] && head == null && tail == null
    {
      head := null;
      tail := null;
      members := [];
      nodes := [];
      Repr := {this};
    }

    /** 03.cpp:37-47: append a fresh node; it becomes the tail, and also the
        head when the list was empty. No PRN check is made. */
    method AddMember(prn: int, name: string, ay: string)
      requires Valid()
      modifies Repr
      ensures Valid() && Repr == old(Repr) + {tail}
      ensures members == old(members) + [Record(prn, name, ay)]
      ensures fresh(tail) && tail == nodes[|nodes| - 1]
      ensures head == if old(head) == null then tail else old(head)
    {
      ghost var ns, ms := nodes, members;
      var m := new Member(prn, name, ay);
      if head == null {
        head, tail := m, m;
      } else {
        tail.next := m;
        tail := m;
      }
      nodes := nodes + [m];
      members := members + [Record(prn, name, ay)];
      Repr := Repr + {m};
      forall a, b | 0 <= a && b == a + 1 && b < |nodes| ensures nodes[a].next == nodes[b] {
        if b < |ns| {
          assert nodes[a] == ns[a] && nodes[b] == ns[b] && ns[a] != ns[|ns| - 1];
          assert old(ns[a].next) == ns[b];
        }
      }
      forall j | 0 <= j < |nodes|
        ensures members[j] == Record(nodes[j].prn, nodes[j].name, nodes[j].ay)
      {
        if j < |ns| {
          assert nodes[j] == ns[j] && members[j] == ms[j];
          assert old(ms[j] == Record(ns[j].prn, ns[j].name, ns[j].ay));
        }
      }
    }

    /** 03.cpp:50-85: unlink the first node with this PRN. */
    method DeleteMember(prn: int)
      requires Valid()
      modifies Repr
      ensures Valid()
      ensures members == RemoveFirst(old(members), prn)
      ensures FirstIndex(old(members), prn) == |old(members)| ==>
                nodes == old(nodes) && Repr == old(Repr) && head == old(head) && tail == old(tail)
      ensures FirstIndex(old(members), prn) == 0 < |old(nodes)| ==>
                nodes == old(nodes[1..]) && Repr == old(Repr) - {old(nodes)[0]} &&
                head == old(head.next) && tail == old(tail)
      ensures var k := FirstIndex(old(members), prn);
              0 < k < |old(nodes)| ==>
                nodes == old(nodes[..k] + nodes[k + 1..]) && Repr == old(Repr) - {old(nodes)[k]} &&
                head == old(head) && tail == (if k == |old(nodes)| - 1 then old(nodes)[k - 1] else old(tail))
      ensures |old(members)| == 1 && old(members)[0].prn == prn ==>
                head == null && tail == old(tail) && tail !in Repr
    {
      RemoveFirstSplit(members, prn);
      if head == null {
        return;
      }
      if head.prn == prn {
        UnlinkHead();
        return;
      }
      var current := head;
      var prev: Member? := null;
      ghost var i := 0;
      while current != null && current.prn != prn
        invariant 0 <= i <= |nodes|
        invariant current == if i < |nodes| then nodes[i] else null
        invariant prev == if i == 0 then null else nodes[i - 1]
        invariant forall j :: 0 <= j < i ==> members[j].prn != prn
        decreases |nodes| - i
      {
        prev := current;
        current := current.next;
        i := i + 1;
      }
      if current == null {
        assert FirstIndex(members, prn) == |members|;
        return;
      }
      assert FirstIndex(members, prn) == i;
      Unlink(prev, i);
    }

    /** The head branch of `deleteMember` (03.cpp:57-62): `head` moves to its
        successor and `tail` is left as it was, even when it is the node
        removed. */
    method UnlinkHead()
      requires Valid() && head != null
      modifies this
      ensures Valid() && Repr == old(Repr) - {old(head)}
      ensures nodes == old(nodes[1..]) && members == old(members[1..])
      ensures head == old(head.next) && tail == old(tail)
    {
      ghost var ns, ms := nodes, members;
      head := head.next;
      nodes := nodes[1..];
      members := members[1..];
      Repr := Repr - {ns[0]};
      DroppedValid(Site(this, ns, ms, 0));
    }

    /** The unlinking step of `deleteMember` (03.cpp:79-81): the successor
        of `prev` is bypassed, and `tail` moves back to `prev` when that
        successor was the tail. */
    method Unlink(prev: Member, ghost i: nat)
      requires Valid() && 0 < i < |nodes| && prev == nodes[i - 1]
      modifies Repr
      ensures Valid() && Repr == old(Repr) - {old(nodes[i])}
      ensures nodes == old(nodes[..i] + nodes[i + 1..]) && members == old(members[..i] + members[i + 1..])
      ensures head == old(head) && tail == if i == |old(nodes)| - 1 then prev else old(tail)
    {
      ghost var ns, ms := nodes, members;
      var current := prev.next;
      assert current == ns[i] by {
        assert ns[i - 1].next == ns[i];
      }
      prev.next := current.next;
      if current == tail {
        tail := prev;
      }
      nodes := nodes[..i] + nodes[i + 1..];
      members := members[..i] + members[i + 1..];
      Repr := Repr - {current};
      UnlinkedValid(Site(this, ns, ms, i));
    }

    /** 03.cpp:88-96: count the nodes reachable from `head`. */
    method TotalMembers() returns (count: int)
      requires Valid()
      ensures count == |members|
    {
      count := 0;
      var temp := head;
      while temp != null
        invariant 0 <= count <= |nodes|
        invariant temp == if count < |nodes| then nodes[count] else null
        decreases |nodes| - count
      {
        count := count + 1;
        temp := temp.next;
      }
    }

    /** 03.cpp:115-125: move every node of `other` to the end of this list
        and leave `other` empty. An empty `other` is left as it is. */
    method Concatenate(other: Club)
      requires Valid() && other.Valid()
      requires Repr !! other.Repr
      modifies Repr, other.Repr
      ensures Valid() && other.Valid()
      ensures members == old(members) + old(other.members)
      ensures other.members == [] && other.head == null
      ensures old(other.head) != null ==>
                Repr == old(Repr) + (old(other.Repr) - {other}) && other.Repr == {other}
      ensures old(other.head) == null ==> Repr == old(Repr) && other.Repr == old(other.Repr)
      ensures old(other.head) == null ==>
                head == old(head) && tail == old(tail) && other.tail == old(other.tail)
      ensures old(other.head) != null ==> tail == old(other.tail) && other.tail == null
      ensures old(other.head) != null && old(head) == null ==> head == old(other.head)
      ensures old(head) != null ==> head == old(head)
    {
      if other.head == null {
        return;
      }
      if head == null {
        head := other.head;
        tail := other.tail;
      } else {
        tail.next := other.head;
        tail := other.tail;
      }
      other.head, other.tail := null, null;
      nodes := nodes + other.nodes;
      members := members + other.members;
      Repr := Repr + (other.Repr - {other});
      other.nodes := [];
      other.members := [];
      other.Repr := {other};
      AppendedValid(Merge(this, other));
    }

    /** 03.cpp:128-140: overwrite name and academic year of the first node
        with this PRN, in place. */
    method UpdateMember(prn: int, newName: string, newAY: string)
      requires Valid()
      modifies Repr
      ensures Valid() && Repr == old(Repr)
      ensures members == UpdateFirst(old(members), prn, newName, newAY)
      ensures head == old(head) && tail == old(tail)
    {
      UpdateFirstSplit(members, prn, newName, newAY);
      var temp := head;
      ghost var i := 0;
      while temp != null && temp.prn != prn
        invariant 0 <= i <= |nodes|
        invariant temp == if i < |nodes| then nodes[i] else null
        invariant forall j :: 0 <= j < i ==> members[j].prn != prn
        decreases |nodes| - i
      {
        temp := temp.next;
        i := i + 1;
      }
      if temp != null {
        assert FirstIndex(members, prn) == i;
        ghost var ns, ms := nodes, members;
        temp.name := newName;
        temp.ay := newAY;
        members := members[i := Record(prn, newName, newAY)];
        forall k | 0 <= k < |ns| && k != i ensures ns[k] != temp {
        }
        RewrittenValid(Site(this, ns, ms, i));
      }
    }
  }

  /** A step on the list of a club: the club, its nodes and records before
      the step, and the position the step acts on. `Site` and `Merge` exist
      only so that each twostate lemma below takes a single parameter: Dafny
      4.11 fails on calls of twostate lemmas with several parameters when it
      checks for contradictory assumptions. */
  datatype Site = Site(club: Club, nodes: seq<Member>, members: seq<Record>, at: nat)

  /** Two clubs, the second being appended to the first. */
  datatype Merge = Merge(into: Club, from: Club)

  /** Nodes whose fields all kept their values still form the same chain
      and carry the same records. */
  twostate lemma NodesKept(ns: seq<Member>)
    requires forall k {:trigger ns[k]} :: 0 <= k < |ns| ==>
               ns[k].next == old(ns[k].next) && ns[k].prn == old(ns[k].prn) &&
               ns[k].name == old(ns[k].name) && ns[k].ay == old(ns[k].ay)
    ensures old(Chained(ns)) ==> Chained(ns)
    ensures forall ms {:trigger Carries(ns, ms)} :: old(Carries(ns, ms)) ==> Carries(ns, ms)
  {
    if old(Chained(ns)) {
      forall a, b | 0 <= a && b == a + 1 && b < |ns| ensures ns[a].next == ns[b] {
        assert old(ns[a].next) == ns[b];
      }
      assert ns != [] ==> old(ns[|ns| - 1].next) == null;
    }
    forall ms | old(Carries(ns, ms)) ensures Carries(ns, ms) {
      forall j | 0 <= j < |ns| ensures ms[j] == Record(ns[j].prn, ns[j].name, ns[j].ay) {
        assert old(ms[j] == Record(ns[j].prn, ns[j].name, ns[j].ay));
      }
    }
  }

  /** The club invariant holds once the list is the old one without its first
      node, the head is that node's successor and every other node stayed. */
  lemma DroppedKeepsValid(c: Club, ns: seq<Member>, ms: seq<Record>, R: set<object>)
    requires ns != [] && Distinct(ns) && Chained(ns) && Carries(ns, ms)
    requires forall k {:trigger ns[k]} :: 0 <= k < |ns| ==> ns[k] in R
    requires c.nodes == ns[1..] && c.members == ms[1..] && c.Repr == R - {ns[0]} && c in c.Repr
    requires c.head == ns[0].next && (|ns| > 1 ==> c.tail == ns[|ns| - 1])
    ensures c.Valid()
  {
    assert Chained(c.nodes) by {
      ChainedDrop(ns);
    }
    assert Carries(c.nodes, c.members) by {
      CarriesDrop(ns, ms);
    }
    assert Distinct(c.nodes) by {
      DistinctSplice(ns, 0);
      assert ns[..0] + ns[1..] == ns[1..];
    }
    assert forall j {:trigger c.nodes[j]} :: 0 <= j < |c.nodes| ==> c.nodes[j] in c.Repr by {
      forall j | 0 <= j < |c.nodes| ensures c.nodes[j] in c.Repr {
        assert c.nodes[j] == ns[j + 1] && ns[j + 1] != ns[0];
      }
    }
  }

  /** The club invariant after the head node is unlinked (03.cpp:57-63). */
  twostate lemma DroppedValid(site: Site)
    requires old(site.club.Valid()) && site.nodes == old(site.club.nodes) && site.members == old(site.club.members)
    requires site.nodes != []
    requires site.club.nodes == site.nodes[1..] && site.club.members == site.members[1..]
    requires site.club.Repr == old(site.club.Repr) - {site.nodes[0]}
    requires site.club.head == old(site.nodes[0].next) && site.club.tail == old(site.club.tail)
    requires forall k {:trigger site.nodes[k]} :: 0 <= k < |site.nodes| ==>
               site.nodes[k].next == old(site.nodes[k].next) && site.nodes[k].prn == old(site.nodes[k].prn) &&
               site.nodes[k].name == old(site.nodes[k].name) && site.nodes[k].ay == old(site.nodes[k].ay)
    ensures site.club.Valid()
  {
    var c, ns, ms := site.club, site.nodes, site.members;
    NodesKept(ns);
    DroppedKeepsValid(c, ns, ms, old(c.Repr));
  }

  /** The club invariant after node `at` > 0 is unlinked: its predecessor now
      points where it pointed, and the tail moves back when it was the tail
      (03.cpp:79-81). */
  twostate lemma UnlinkedValid(site: Site)
    requires old(site.club.Valid()) && site.nodes == old(site.club.nodes) && site.members == old(site.club.members)
    requires 0 < site.at < |site.nodes|
    requires site.club.nodes == site.nodes[..site.at] + site.nodes[site.at + 1..]
    requires site.club.members == site.members[..site.at] + site.members[site.at + 1..]
    requires site.club.Repr == old(site.club.Repr) - {site.nodes[site.at]} && site.club.head == old(site.club.head)
    requires site.club.tail ==
               if site.nodes[site.at] == old(site.club.tail) then site.nodes[site.at - 1] else old(site.club.tail)
    requires site.nodes[site.at - 1].next == old(site.nodes[site.at].next)
    requires forall k {:trigger site.nodes[k]} :: 0 <= k < |site.nodes| && site.nodes[k] != site.nodes[site.at - 1] ==>
               site.nodes[k].next == old(site.nodes[k].next)
    requires forall k {:trigger site.nodes[k]} :: 0 <= k < |site.nodes| ==>
               site.nodes[k].prn == old(site.nodes[k].prn) &&
               site.nodes[k].name == old(site.nodes[k].name) && site.nodes[k].ay == old(site.nodes[k].ay)
    ensures site.club.Valid()
  {
    var c, ns, ms, i := site.club, site.nodes, site.members, site.at;
    DistinctSplice(ns, i);
    forall k | 0 <= k < |ns| && k != i - 1 ensures ns[k] != ns[i - 1] {
    }
    var r, rs := c.nodes, c.members;
    forall j | 0 <= j < |r| ensures r[j] in c.Repr && rs[j] == Record(r[j].prn, r[j].name, r[j].ay) {
      var k := if j < i then j else j + 1;
      assert r[j] == ns[k] && rs[j] == ms[k] && ns[k] != ns[i];
      assert old(ns[k] in c.Repr && ms[k] == Record(ns[k].prn, ns[k].name, ns[k].ay));
    }
    forall a, b | 0 <= a && b == a + 1 && b < |r| ensures r[a].next == r[b] {
      if b < i {
        assert r[a] == ns[a] && r[b] == ns[b];
        assert old(ns[a].next) == ns[b];
      } else if b == i {
        assert r[a] == ns[i - 1] && r[b] == ns[i + 1];
        assert old(ns[i].next) == ns[i + 1];
      } else {
        assert r[a] == ns[a + 1] && r[b] == ns[b + 1];
        assert old(ns[a + 1].next) == ns[b + 1];
      }
    }
    assert r[0] == ns[0];
    var last := |ns| - 1;
    if i == last {
      assert r[|r| - 1] == ns[i - 1];
      assert old(ns[i].next) == null;
    } else {
      assert r[|r| - 1] == ns[last];
      assert old(ns[last].next) == null;
    }
  }

  /** The club invariant after name and year of node `at` are overwritten in
      place (03.cpp:132-133): the record there takes the node's new values. */
  twostate lemma RewrittenValid(site: Site)
    requires old(site.club.Valid()) && site.nodes == old(site.club.nodes) && site.members == old(site.club.members)
    requires site.at < |site.nodes| && site.club.nodes == site.nodes
    requires site.club.members == site.members[site.at := Record(site.members[site.at].prn,
                                                                  site.nodes[site.at].name, site.nodes[site.at].ay)]
    requires site.club.Repr == old(site.club.Repr)
    requires site.club.head == old(site.club.head) && site.club.tail == old(site.club.tail)
    requires forall k {:trigger site.nodes[k]} :: 0 <= k < |site.nodes| ==>
               site.nodes[k].next == old(site.nodes[k].next) && site.nodes[k].prn == old(site.nodes[k].prn)
    requires forall k {:trigger site.nodes[k]} :: 0 <= k < |site.nodes| && k != site.at ==>
               site.nodes[k].name == old(site.nodes[k].name) && site.nodes[k].ay == old(site.nodes[k].ay)
    ensures site.club.Valid()
  {
    var c, ns, ms := site.club, site.nodes, site.members;
    forall a, b | 0 <= a && b == a + 1 && b < |ns| ensures ns[a].next == ns[b] {
      assert old(ns[a].next) == ns[b];
    }
    assert old(ns[|ns| - 1].next) == null;
    forall j | 0 <= j < |ns| ensures ns[j] in c.Repr && c.members[j] == Record(ns[j].prn, ns[j].name, ns[j].ay) {
      assert old(ns[j] in c.Repr && ms[j] == Record(ns[j].prn, ns[j].name, ns[j].ay));
    }
  }

  /** The invariants of both clubs after the nodes of `from` are appended to
      `into` and `from` is emptied (03.cpp:118-123). */
  twostate lemma AppendedValid(merge: Merge)
    requires
      var c, d := merge.into, merge.from;
      var ns, ms, os, oms := old(c.nodes), old(c.members), old(d.nodes), old(d.members);
      old(c.Valid()) && old(d.Valid()) && old(c.Repr !! d.Repr) && old(d.head) != null &&
      c.nodes == ns + os && c.members == ms + oms && c.Repr == old(c.Repr) + (old(d.Repr) - {d}) &&
      c.head == (if old(c.head) == null then old(d.head) else old(c.head)) && c.tail == old(d.tail) &&
      (old(c.head) != null ==> old(c.tail).next == old(d.head)) &&
      (forall m: Member {:trigger m.next} :: old(allocated(m)) && (m != old(c.tail) || old(c.head) == null) ==>
         m.next == old(m.next)) &&
      (forall m: Member {:trigger m.prn} {:trigger m.name} {:trigger m.ay} :: old(allocated(m)) ==>
         m.prn == old(m.prn) && m.name == old(m.name) && m.ay == old(m.ay)) &&
      d.nodes == [] && d.members == [] && d.Repr == {d} && d.head == null
    ensures merge.into.Valid() && merge.from.Valid()
  {
    var c, d := merge.into, merge.from;
    var ns, ms, os, oms := old(c.nodes), old(c.members), old(d.nodes), old(d.members);
    var r, rs := c.nodes, c.members;
    assert Distinct(r) by {
      forall a, b | 0 <= a < |ns| && 0 <= b < |os| ensures ns[a] != os[b] {
        assert old(ns[a] in c.Repr && os[b] in d.Repr);
      }
      forall a, b | 0 <= a < b < |r| ensures r[a] != r[b] {
        if b < |ns| {
          assert r[a] == ns[a] && r[b] == ns[b];
        } else if a >= |ns| {
          assert r[a] == os[a - |ns|] && r[b] == os[b - |ns|];
        } else {
          assert r[a] == ns[a] && r[b] == os[b - |ns|];
        }
      }
    }
    assert (forall j {:trigger r[j]} :: 0 <= j < |r| ==> r[j] in c.Repr) && Carries(r, rs) by {
      forall j | 0 <= j < |r| ensures r[j] in c.Repr && rs[j] == Record(r[j].prn, r[j].name, r[j].ay) {
        if j < |ns| {
          assert r[j] == ns[j] && rs[j] == ms[j];
          assert old(ns[j] in c.Repr && ms[j] == Record(ns[j].prn, ns[j].name, ns[j].ay));
        } else {
          var k := j - |ns|;
          assert r[j] == os[k] && rs[j] == oms[k];
          assert old(os[k] in d.Repr && oms[k] == Record(os[k].prn, os[k].name, os[k].ay));
        }
      }
    }
    assert Chained(r) by {
      forall a, b | 0 <= a && b == a + 1 && b < |r| ensures r[a].next == r[b] {
        if b < |ns| {
          assert r[a] == ns[a] && r[b] == ns[b] && ns[a] != ns[|ns| - 1];
          assert old(ns[a].next) == ns[b];
        } else if b == |ns| {
          assert r[a] == ns[|ns| - 1] && r[b] == os[0];
        } else {
          var k := a - |ns|;
          assert r[a] == os[k] && r[b] == os[k + 1];
          assert ns != [] ==> old(ns[|ns| - 1] in c.Repr && os[k] in d.Repr);
          assert old(os[k].next) == os[k + 1];
        }
      }
      assert r[|r| - 1] == os[|os| - 1];
      assert ns != [] ==> old(ns[|ns| - 1] in c.Repr && os[|os| - 1] in d.Repr);
      assert old(os[|os| - 1].next) == null;
    }
    assert r[0] == c.head;
    assert r[|r| - 1] == os[|os| - 1];
  }

  /** A division of the demo: a new club with two members added
      (03.cpp:155-163). */
  method NewDivision(prn1: int, name1: string, ay1: string, prn2: int, name2: string, ay2: string)
    returns (division: Club)
    ensures division.Valid() && fresh(division.Repr)
    ensures division.members == [Record(prn1, name1, ay1), Record(prn2, name2, ay2)]
  {
    division := new Club();
    division.AddMember(prn1, name1, ay1);
    division.AddMember(prn2, name2, ay2);
  }

  /** The record edits of the demo: renaming 102 touches the second record
      only, and deleting 201 drops the third. */
  lemma DemoEdits(alice: Record, bob: Record, charlie: Record, david: Record, name: string, ay: string)
    requires alice.prn == 101 && bob.prn == 102 && charlie.prn == 201 && david.prn == 202
    ensures UpdateFirst([alice, bob, charlie, david], 102, name, ay) ==
              [alice, bob.(name := name, ay := ay), charlie, david]
    ensures FirstIndex([alice, bob.(name := name, ay := ay), charlie, david], 201) == 2
    ensures RemoveFirst([alice, bob.(name := name, ay := ay), charlie, david], 201) ==
              [alice, bob.(name := name, ay := ay), david]
  {
    var all := [alice, bob, charlie, david];
    var renamed := [alice, bob.(name := name, ay := ay), charlie, david];
    UpdateFirstSplit(all, 102, name, ay);
    assert FirstIndex(all, 102) == 1 by {
      assert all[0].prn != 102 && all[1].prn == 102;
    }
    RemoveFirstSplit(renamed, 201);
    assert FirstIndex(renamed, 201) == 2 by {
      assert renamed[0].prn != 201 && renamed[1].prn != 201 && renamed[2].prn == 201;
    }
    assert renamed[..2] + renamed[3..] == [alice, bob.(name := name, ay := ay), david];
  }

  /** The demo (03.cpp:154-189): two divisions are merged, 102 is renamed and
      201 deleted, leaving three members (03.cpp:236-243). */
  method ClubScenario() returns (division1: Club, total: int)
    ensures division1.Valid()
    ensures division1.members == [Record(101, "Alice", "2023-24"),
                                  Record(102, "Bobby", "2024-25"),
                                  Record(202, "David", "2023-24")]
    ensures total == 3
  {
    division1 := NewDivision(101, "Alice", "2023-24", 102, "Bob", "2023-24");
    var division2 := NewDivision(201, "Charlie", "2023-24", 202, "David", "2023-24");
    DemoEdits(Record(101, "Alice", "2023-24"), Record(102, "Bob", "2023-24"),
              Record(201, "Charlie", "2023-24"), Record(202, "David", "2023-24"), "Bobby", "2024-25");
    division1.Concatenate(division2);
    division1.UpdateMember(102, "Bobby", "2024-25");
    assert division1.members == [Record(101, "Alice", "2023-24"), Record(102, "Bobby", "2024-25"),
                                 Record(201, "Charlie", "2023-24"), Record(202, "David", "2023-24")];
    division1.DeleteMember(201);
    total := division1.TotalMembers();
  }
}
