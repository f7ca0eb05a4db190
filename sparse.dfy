/** Sparse adjacency matrices kept as a map of rows, each row a map from
    column to stored value (01.cpp). `SparseMatrix` stores the marker 1 for
    "connected"; `RoadMap` stores a distance. Both write every entry in both
    directions, and both read rows through C++'s `operator[]`, which inserts
    an empty row for a missing key. */
module Sparse {

  type Matrix<V> = map<int, map<int, V>>

  /** The row of `a`, empty when `a` has no row yet (what `operator[]` yields). */
  function Row<V>(m: Matrix<V>, a: int): map<int, V> {
    if a in m then m[a] else map[]
  }

  /** Column `b` is a key of row `a`: `data[a].count(b) > 0`. */
  predicate Linked<V>(m: Matrix<V>, a: int, b: int) {
    a in m && b in m[a]
  }

  /** Every stored entry has its mirror image. */
  ghost predicate Symmetric<V>(m: Matrix<V>) {
    forall a: int, b: int :: Linked(m, a, b) <==> Linked(m, b, a)
  }

  /** Every stored entry has a mirror image holding the same value. */
  ghost predicate SymmetricValues<V>(m: Matrix<V>) {
    forall a: int, b: int :: Linked(m, a, b) ==> Linked(m, b, a) && m[a][b] == m[b][a]
  }

  /** `data[a]` used as an lvalue or rvalue: inserts an empty row for `a` when
      there is none, and changes nothing else. */
  function Touch<V>(m: Matrix<V>, a: int): (r: Matrix<V>)
    ensures r.Keys == m.Keys + {a}
    ensures r[a] == Row(m, a)
    ensures forall k :: k in m ==> r[k] == m[k]
  {
    if a in m then m else m[a := map[]]
  }

  /** `data[a][b] = v`. */
  function Put<V>(m: Matrix<V>, a: int, b: int, v: V): (r: Matrix<V>)
    ensures Linked(r, a, b) && r[a][b] == v
    ensures forall x, y :: x != a || y != b ==>
              (Linked(r, x, y) <==> Linked(m, x, y))
    ensures forall x, y :: (x != a || y != b) && Linked(m, x, y) ==>
              Linked(r, x, y) && r[x][y] == m[x][y]
  {
    var t := Touch(m, a);
    t[a := t[a][b := v]]
  }

  /** The two writes of `addConnection` / `addRoad`. */
  function Connect<V>(m: Matrix<V>, a: int, b: int, v: V): (r: Matrix<V>)
    ensures Linked(r, a, b) && Linked(r, b, a)
    ensures r[a][b] == v && r[b][a] == v
  {
    Put(Put(m, a, b, v), b, a, v)
  }

  /** `data[a].count(b) ? data[a][b] : -1` (01.cpp:81-86). */
  function Distance(m: Matrix<real>, a: int, b: int): real {
    if Linked(m, a, b) then m[a][b] else -1.0
  }

  /** The only pairs `Connect` adds are (a, b) and (b, a); nothing is removed. */
  lemma {:induction false} ConnectLinks<V>(m: Matrix<V>, a: int, b: int, v: V, x: int, y: int)
    ensures Linked(Connect(m, a, b, v), x, y) <==>
            Linked(m, x, y) || (x == a && y == b) || (x == b && y == a)
  {
    var p := Put(m, a, b, v);
    assert Linked(p, x, y) <==> Linked(m, x, y) || (x == a && y == b);
  }

  /** The symmetry invariant is preserved by `addConnection` (01.cpp:27-28). */
  lemma {:induction false} ConnectPreservesSymmetry<V>(m: Matrix<V>, a: int, b: int, v: V)
    requires Symmetric(m)
    ensures Symmetric(Connect(m, a, b, v))
  {
    forall x: int, y: int ensures Linked(Connect(m, a, b, v), x, y) <==> Linked(Connect(m, a, b, v), y, x) {
      ConnectLinks(m, a, b, v, x, y);
      ConnectLinks(m, a, b, v, y, x);
    }
  }

  /** A road map stays symmetric in its distances, too (01.cpp:77-78). */
  lemma {:induction false} ConnectPreservesSymmetricValues<V>(m: Matrix<V>, a: int, b: int, v: V)
    requires SymmetricValues(m)
    ensures SymmetricValues(Connect(m, a, b, v))
  {
    var r := Connect(m, a, b, v);
    var p := Put(m, a, b, v);
    forall x: int, y: int | Linked(r, x, y) ensures Linked(r, y, x) && r[x][y] == r[y][x] {
      ConnectLinks(m, a, b, v, x, y);
      ConnectLinks(m, a, b, v, y, x);
      if (x == a && y == b) || (x == b && y == a) {
      } else {
        assert Linked(m, x, y);
        assert Linked(m, y, x);
        assert p[x][y] == m[x][y] && p[y][x] == m[y][x];
      }
    }
  }

  /** A second identical `addConnection` / `addRoad` changes nothing. */
  lemma {:induction false} ConnectIdempotent<V>(m: Matrix<V>, a: int, b: int, v: V)
    ensures Connect(Connect(m, a, b, v), a, b, v) == Connect(m, a, b, v)
  {
    var r := Connect(m, a, b, v);
    var rr := Connect(r, a, b, v);
    assert rr.Keys == r.Keys;
    forall k | k in r ensures rr[k] == r[k] {
      assert rr[k].Keys == r[k].Keys by {
        forall y ensures y in rr[k] <==> y in r[k] {
          ConnectLinks(r, a, b, v, k, y);
        }
      }
      forall y | y in r[k] ensures rr[k][y] == r[k][y] {
        if (k == a && y == b) || (k == b && y == a) {
        } else {
          var p := Put(r, a, b, v);
          assert Linked(r, k, y);
          assert Linked(p, k, y) && p[k][y] == r[k][y];
        }
      }
    }
  }

  /** Touching a row never changes the answer to a connectivity query. */
  lemma {:induction false} TouchKeepsLinks<V>(m: Matrix<V>, a: int, x: int, y: int)
    ensures Linked(Touch(m, a), x, y) <==> Linked(m, x, y)
    ensures Linked(m, x, y) ==> Touch(m, a)[x][y] == m[x][y]
  {
    if x != a {
      assert Row(Touch(m, a), x) == Row(m, x);
    }
  }

  /** Touching a row keeps symmetry. */
  lemma {:induction false} TouchPreservesSymmetry<V>(m: Matrix<V>, a: int)
    ensures Symmetric(m) ==> Symmetric(Touch(m, a))
    ensures SymmetricValues(m) ==> SymmetricValues(Touch(m, a))
  {
    forall x: int, y: int ensures (Linked(Touch(m, a), x, y) <==> Linked(m, x, y)) &&
                                  (Linked(m, x, y) ==> Touch(m, a)[x][y] == m[x][y]) {
      TouchKeepsLinks(m, a, x, y);
    }
  }

  /** A friend network (01.cpp:22-34). */
  class SparseMatrix {
    var data: Matrix<int>

    constructor ()
      ensures data == map[]
    {
      data := map[];
    }

    /** 01.cpp:26-29: mark both directions with 1. */
    method AddConnection(user1: int, user2: int)
      modifies this
      ensures data == Connect(old(data), user1, user2, 1)
      ensures Linked(data, user1, user2) && Linked(data, user2, user1)
      ensures Symmetric(old(data)) ==> Symmetric(data)
    {
      if Symmetric(data) {
        ConnectPreservesSymmetry(data, user1, user2, 1);
      }
      data := Put(data, user1, user2, 1);
      data := Put(data, user2, user1, 1);
    }

    /** 01.cpp:31-33: the answer is membership of `user2` in row `user1`;
        reading `data[user1]` may add an empty row, which affects no answer. */
    method IsConnected(user1: int, user2: int) returns (r: bool)
      modifies this
      ensures r <==> Linked(old(data), user1, user2)
      ensures data == Touch(old(data), user1)
      ensures forall x, y :: Linked(data, x, y) <==> Linked(old(data), x, y)
      ensures Symmetric(old(data)) ==> Symmetric(data)
    {
      forall x, y ensures Linked(Touch(data, user1), x, y) <==> Linked(data, x, y) {
        TouchKeepsLinks(data, user1, x, y);
      }
      TouchPreservesSymmetry(data, user1);
      data := Touch(data, user1);
      r := user2 in data[user1];
    }
  }

  /** A road network with distances (01.cpp:72-87). */
  class RoadMap {
    var data: Matrix<real>

    constructor ()
      ensures data == map[]
    {
      data := map[];
    }

    /** 01.cpp:76-79: store `distance` both ways, overwriting an older value. */
    method AddRoad(city1: int, city2: int, distance: real)
      modifies this
      ensures data == Connect(old(data), city1, city2, distance)
      ensures Distance(data, city1, city2) == distance && Distance(data, city2, city1) == distance
      ensures SymmetricValues(old(data)) ==> SymmetricValues(data)
    {
      if SymmetricValues(data) {
        ConnectPreservesSymmetricValues(data, city1, city2, distance);
      }
      data := Put(data, city1, city2, distance);
      data := Put(data, city2, city1, distance);
    }

    /** 01.cpp:81-86: the stored distance, or -1 when there is no direct road. */
    method GetDistance(city1: int, city2: int) returns (d: real)
      modifies this
      ensures d == Distance(old(data), city1, city2)
      ensures data == Touch(old(data), city1)
      ensures forall x, y :: Linked(data, x, y) <==> Linked(old(data), x, y)
      ensures SymmetricValues(old(data)) ==> SymmetricValues(data)
    {
      forall x, y ensures Linked(Touch(data, city1), x, y) <==> Linked(data, x, y) {
        TouchKeepsLinks(data, city1, x, y);
      }
      TouchPreservesSymmetry(data, city1);
      data := Touch(data, city1);
      if city2 in data[city1] {
        d := data[city1][city2];
      } else {
        d := -1.0;
      }
    }
  }

  /** The friend-network demo (01.cpp:36-45): connectivity is not transitive. */
  method NetworkScenario() returns (oneToThree: bool)
    ensures !oneToThree
  {
    var network := new SparseMatrix();
    network.AddConnection(1, 2);
    network.AddConnection(2, 3);
    oneToThree := network.IsConnected(1, 3);
  }

  /** The road-map demo (01.cpp:89-98). */
  method RoadScenario() returns (oneToTwo: real, oneToThree: real)
    ensures oneToTwo == 10.5 && oneToThree == -1.0
  {
    var roads := new RoadMap();
    roads.AddRoad(1, 2, 10.5);
    roads.AddRoad(2, 3, 5.8);
    oneToTwo := roads.GetDistance(1, 2);
    oneToThree := roads.GetDistance(1, 3);
  }
}
