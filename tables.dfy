/**
 A database table with an auto-incrementing primary key, as the ORM keeps it:
 rows indexed by id, and the next id to hand out. Ids are never reused, so
 every stored id is below `next`, which lets queries enumerate the table.
 */
module Tables {

  type Id = nat

  datatype Option<T> = None | Some(value: T)

  datatype Table<T> = Table(rows: map<Id, T>, next: Id)
  {
    /** Every stored id was handed out earlier. */
    ghost predicate Valid()
    {
      forall id :: id in rows ==> id < next
    }

    /** INSERT: the row gets the next id, which no stored row has. */
    function Insert(r: T): (t: Table<T>)
      requires Valid()
      ensures t.Valid()
      ensures next !in rows && t.rows.Keys == rows.Keys + {next}
      ensures t.rows[next] == r
      ensures forall id :: id in rows ==> t.rows[id] == rows[id]
    {
      Table(rows[next := r], next + 1)
    }

    /** DELETE ... WHERE drop(row). */
    function Remove(drop: T -> bool): (t: Table<T>)
      requires Valid()
      ensures t.Valid() && t.next == next
      ensures forall id :: id in t.rows <==> id in rows && !drop(rows[id])
      ensures forall id :: id in t.rows ==> t.rows[id] == rows[id]
    {
      Table(map id | id in rows && !drop(rows[id]) :: rows[id], next)
    }

    /** DELETE of one row by primary key. */
    function Without(id: Id): (t: Table<T>)
      requires Valid()
      ensures t.Valid() && t.next == next && t.rows.Keys == rows.Keys - {id}
      ensures forall k :: k in t.rows ==> t.rows[k] == rows[k]
    {
      Table(rows - {id}, next)
    }

    /** UPDATE: every row is replaced by f(row); no row appears or disappears. */
    function Update(f: T -> T): (t: Table<T>)
      requires Valid()
      ensures t.Valid() && t.next == next && t.rows.Keys == rows.Keys
      ensures forall id :: id in rows ==> t.rows[id] == f(rows[id])
    {
      Table(map id | id in rows :: f(rows[id]), next)
    }
  }

  /** Strictly increasing sequences of ids (the ORM's default pk order). */
  ghost predicate Increasing(s: seq<Id>)
  {
    forall i, j :: 0 <= i < j < |s| ==> s[i] < s[j]
  }

  predicate Distinct<X(==)>(s: seq<X>)
  {
    forall i, j :: 0 <= i < j < |s| ==> s[i] != s[j]
  }

  /** The ids below `n` whose rows satisfy `keep`, in increasing order. */
  function WhereBelow<T>(rows: map<Id, T>, n: nat, keep: T -> bool): (ids: seq<Id>)
    ensures Increasing(ids)
    ensures forall i :: 0 <= i < |ids| ==> ids[i] < n
    ensures forall id :: id in ids <==> id < n && id in rows && keep(rows[id])
  {
    if n == 0 then []
    else
      var front := WhereBelow(rows, n - 1, keep);
      if n - 1 in rows && keep(rows[n - 1]) then front + [n - 1] else front
  }

  /** SELECT id ... WHERE keep(row): each matching row exactly once. */
  function Where<T>(t: Table<T>, keep: T -> bool): (ids: seq<Id>)
    requires t.Valid()
    ensures Increasing(ids) && Distinct(ids)
    ensures forall id :: id in ids <==> id in t.rows && keep(t.rows[id])
  {
    WhereBelow(t.rows, t.next, keep)
  }

  /** The ids of the rows that satisfy `keep`. */
  ghost function Matching<T>(t: Table<T>, keep: T -> bool): (s: set<Id>)
    ensures forall id :: id in s <==> id in t.rows && keep(t.rows[id])
  {
    set id | id in t.rows && keep(t.rows[id])
  }

  /** SELECT COUNT(*) ... WHERE keep(row): the number of matching rows. */
  function Count<T>(t: Table<T>, keep: T -> bool): (n: nat)
    requires t.Valid()
    ensures n == |Matching(t, keep)| == |Where(t, keep)|
  {
    var ids := Where(t, keep);
    DistinctCard(ids);
    assert Elements(ids) == Matching(t, keep);
    |ids|
  }

  function Elements<X>(s: seq<X>): set<X>
  {
    set x | x in s
  }

  /** A sequence without repetitions has as many elements as its set. */
  lemma {:induction false} DistinctCard<X>(s: seq<X>)
    requires Distinct(s)
    ensures |Elements(s)| == |s|
  {
    if s != [] {
      assert Distinct(s[1..]);
      DistinctCard(s[1..]);
      assert Elements(s) == {s[0]} + Elements(s[1..]);
      assert s[0] !in Elements(s[1..]);
    }
  }

  /** The set of images of a sequence's elements. */
  ghost function Image<X, Y>(s: seq<X>, f: X -> Y): (r: set<Y>)
    ensures forall i :: 0 <= i < |s| ==> f(s[i]) in r
    ensures forall y :: y in r ==> exists i :: 0 <= i < |s| && f(s[i]) == y
  {
    set i | 0 <= i < |s| :: f(s[i])
  }

  /** A sequence whose elements have pairwise different images has as many images as elements. */
  lemma {:induction false} InjectiveImageCard<X, Y>(s: seq<X>, f: X -> Y)
    requires forall i, j :: 0 <= i < j < |s| ==> f(s[i]) != f(s[j])
    ensures |Image(s, f)| == |s|
  {
    var image := seq(|s|, i requires 0 <= i < |s| => f(s[i]));
    assert Distinct(image);
    DistinctCard(image);
    forall y | y in Image(s, f) ensures y in Elements(image) {
      var i :| 0 <= i < |s| && f(s[i]) == y;
      assert image[i] == y;
    }
    forall y | y in Elements(image) ensures y in Image(s, f) {
      var i :| 0 <= i < |image| && image[i] == y;
    }
    assert Elements(image) == Image(s, f);
  }
}
