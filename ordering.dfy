/**
 `queryset.filter(...).order_by("-key")`: the matching rows, newest first.
 The ORM gives no order among rows with equal keys, so the contracts here
 promise only that keys never increase along the result.
 */
module Ordering {
  import opened Tables

  /** Every id names a row, and the rows' keys are non-increasing. */
  ghost predicate NewestFirst<T>(s: seq<Id>, rows: map<Id, T>, key: T -> nat)
  {
    && (forall i :: 0 <= i < |s| ==> s[i] in rows)
    && (forall i, j :: 0 <= i < j < |s| ==> key(rows[s[i]]) >= key(rows[s[j]]))
  }

  /** Inserts `x` into a list that is already newest first. */
  function Place<T>(x: Id, s: seq<Id>, rows: map<Id, T>, key: T -> nat): (r: seq<Id>)
    requires x in rows && forall i :: 0 <= i < |s| ==> s[i] in rows
    ensures multiset(r) == multiset(s) + multiset{x}
    ensures forall y :: y in r <==> y == x || y in s
  {
    if s == [] then [x]
    else if key(rows[s[0]]) >= key(rows[x]) then
      assert s == [s[0]] + s[1..];
      [s[0]] + Place(x, s[1..], rows, key)
    else
      [x] + s
  }

  lemma {:induction false} PlaceNewestFirst<T>(x: Id, s: seq<Id>, rows: map<Id, T>, key: T -> nat)
    requires x in rows && NewestFirst(s, rows, key)
    ensures NewestFirst(Place(x, s, rows, key), rows, key)
  {
    if s == [] {
    } else if key(rows[s[0]]) >= key(rows[x]) {
      var tail := Place(x, s[1..], rows, key);
      PlaceNewestFirst(x, s[1..], rows, key);
      forall y | y in tail ensures key(rows[s[0]]) >= key(rows[y]) {
        if y != x {
          var k :| 0 <= k < |s[1..]| && s[1..][k] == y;
          assert s[k + 1] == y;
        }
      }
      ConsNewestFirst(s[0], tail, rows, key);
    } else {
      forall y | y in s ensures key(rows[x]) >= key(rows[y]) {
        var k :| 0 <= k < |s| && s[k] == y;
        assert k == 0 || key(rows[s[0]]) >= key(rows[s[k]]);
      }
      ConsNewestFirst(x, s, rows, key);
    }
  }

  /** A newest-first list stays so when an element no older than all of it is put in front. */
  lemma ConsNewestFirst<T>(a: Id, t: seq<Id>, rows: map<Id, T>, key: T -> nat)
    requires a in rows && NewestFirst(t, rows, key)
    requires forall y :: y in t ==> key(rows[a]) >= key(rows[y])
    ensures NewestFirst([a] + t, rows, key)
  {
  }

  lemma {:induction false} PlaceDistinct<T>(x: Id, s: seq<Id>, rows: map<Id, T>, key: T -> nat)
    requires x in rows && forall i :: 0 <= i < |s| ==> s[i] in rows
    requires x !in s && Distinct(s)
    ensures Distinct(Place(x, s, rows, key))
  {
    if s != [] && key(rows[s[0]]) >= key(rows[x]) {
      PlaceDistinct(x, s[1..], rows, key);
      var tail := Place(x, s[1..], rows, key);
      assert s[0] !in tail;
    }
  }

  /** Insertion sort on the key, newest first. */
  function SortNewestFirst<T>(s: seq<Id>, rows: map<Id, T>, key: T -> nat): (r: seq<Id>)
    requires forall i :: 0 <= i < |s| ==> s[i] in rows
    ensures multiset(r) == multiset(s)
    ensures NewestFirst(r, rows, key)
    ensures Distinct(s) ==> Distinct(r)
  {
    if s == [] then []
    else
      var rest := SortNewestFirst(s[1..], rows, key);
      assert s == [s[0]] + s[1..];
      PlaceNewestFirst(s[0], rest, rows, key);
      if s[0] !in s[1..] && Distinct(s[1..]) then
        assert s[0] !in multiset(rest);
        PlaceDistinct(s[0], rest, rows, key);
        Place(s[0], rest, rows, key)
      else
        Place(s[0], rest, rows, key)
  }

  /** The rows of `t` that satisfy `keep`, each once, ordered by `-key`. */
  function FilterNewestFirst<T>(t: Table<T>, keep: T -> bool, key: T -> nat): (r: seq<Id>)
    requires t.Valid()
    ensures Distinct(r) && NewestFirst(r, t.rows, key)
    ensures forall id :: id in r <==> id in t.rows && keep(t.rows[id])
    ensures |r| == Count(t, keep)
  {
    var ids := Where(t, keep);
    var r := SortNewestFirst(ids, t.rows, key);
    assert forall id :: id in r <==> id in ids by {
      forall id ensures id in r <==> id in ids {
        assert id in r <==> id in multiset(r);
      }
    }
    assert |r| == |multiset(r)| == |ids|;
    r
  }

  /** `[:n]` on a newest-first list: the `n` newest, no older than any element left out. */
  function Newest<T>(s: seq<Id>, n: nat, rows: map<Id, T>, key: T -> nat): (p: seq<Id>)
    requires Distinct(s) && NewestFirst(s, rows, key)
    ensures |p| == if |s| <= n then |s| else n
    ensures Distinct(p) && NewestFirst(p, rows, key)
    ensures forall id :: id in p ==> id in s
    ensures forall id, i :: id in s && id !in p && 0 <= i < |p| ==> key(rows[p[i]]) >= key(rows[id])
  {
    var p := if |s| <= n then s else s[..n];
    assert forall id, i :: id in s && id !in p && 0 <= i < |p| ==> key(rows[p[i]]) >= key(rows[id]) by {
      forall id, i | id in s && id !in p && 0 <= i < |p| ensures key(rows[p[i]]) >= key(rows[id]) {
        var k :| 0 <= k < |s| && s[k] == id;
        assert p[i] == s[i];
      }
    }
    p
  }
}
