/** How the model reads gorm's `First` (the matching row with the least
    primary key) and an unordered `Find` (rows in primary-key order). */
module Collections {

  predicate IsLeast(m: nat, s: set<nat>)
  {
    m in s && forall k :: k in s ==> m <= k
  }

  lemma {:induction false} LeastExists(s: set<nat>)
    requires s != {}
    ensures exists m :: IsLeast(m, s)
    decreases |s|
  {
    var x :| x in s;
    var rest := s - {x};
    if rest == {} {
      assert s == {x};
      assert IsLeast(x, s);
    } else {
      LeastExists(rest);
      var m :| IsLeast(m, rest);
      var least := if x < m then x else m;
      forall k | k in s ensures least <= k {
        if k != x {
          assert k in rest;
        }
      }
      assert IsLeast(least, s);
    }
  }

  /** The least key of a non-empty set of keys. */
  function Least(s: set<nat>): (m: nat)
    requires s != {}
    ensures m in s && forall k :: k in s ==> m <= k
  {
    LeastExists(s);
    var m :| IsLeast(m, s);
    m
  }

  predicate Increasing(r: seq<nat>)
  {
    forall i, j :: 0 <= i < j < |r| ==> r[i] < r[j]
  }

  /** The keys of a set in ascending order, each once. */
  function SortedKeys(s: set<nat>): (r: seq<nat>)
    ensures |r| == |s| && Increasing(r)
    ensures forall k :: k in r <==> k in s
    decreases |s|
  {
    if s == {} then []
    else
      var m := Least(s);
      [m] + SortedKeys(s - {m})
  }

  /** The rows stored under the given keys, in the order of the keys. */
  function RowsAt<T>(m: map<nat, T>, ks: seq<nat>): (r: seq<T>)
    requires forall k :: k in ks ==> k in m
    ensures |r| == |ks| && forall i :: 0 <= i < |ks| ==> r[i] == m[ks[i]]
  {
    seq(|ks|, i requires 0 <= i < |ks| => m[ks[i]])
  }

  /** Reading the rows under the sorted keys of a set yields exactly the
      rows of that set. */
  lemma RowsAtSortedKeys<T>(m: map<nat, T>, s: set<nat>)
    requires forall k :: k in s ==> k in m
    ensures forall x :: x in RowsAt(m, SortedKeys(s)) ==> exists k :: k in s && m[k] == x
    ensures forall k :: k in s ==> m[k] in RowsAt(m, SortedKeys(s))
  {
    var ks := SortedKeys(s);
    var r := RowsAt(m, ks);
    forall x | x in r ensures exists k :: k in s && m[k] == x {
      var i :| 0 <= i < |r| && r[i] == x;
      assert ks[i] in s && m[ks[i]] == x;
    }
    forall k | k in s ensures m[k] in r {
      var i :| 0 <= i < |ks| && ks[i] == k;
      assert r[i] == m[k];
    }
  }
}
