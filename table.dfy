/** The tables of the store. Every table of the schema is an Exposed `IntIdTable`: an
    auto-generated integer primary key `id` plus the table's own columns. A table is
    modelled as the sequence of its rows in insertion order, which is the order in
    which `all()` and `find { … }` return them. */
module Table {
  import opened Common

  datatype Row<T> = Row(id: int, cols: T)

  predicate HasId<T(==)>(t: seq<Row<T>>, id: int) {
    exists r | r in t :: r.id == id
  }

  /** The primary key: two rows with the same id are the same row. */
  predicate UniqueIds<T(==)>(t: seq<Row<T>>) {
    forall a, b | a in t && b in t && a.id == b.id :: a == b
  }

  /** `findById`: the columns of the row with that id, or null. */
  function Find<T(==)>(t: seq<Row<T>>, id: int): (r: Option<T>)
    ensures r.Some? <==> HasId(t, id)
    ensures r.Some? ==> Row(id, r.value) in t
  {
    if t == [] then None
    else if t[0].id == id then Some(t[0].cols)
    else Find(t[1..], id)
  }

  /** Under the primary key, a row that is in the table is the one `Find` returns. */
  lemma FindRow<T>(t: seq<Row<T>>, r: Row<T>)
    requires UniqueIds(t) && r in t
    ensures Find(t, r.id) == Some(r.cols)
  {
  }

  /** Assigning new column values to the row with id `id` (an entity's fields set in place);
      every other row, and the order of the rows, stays as it was. */
  function Set<T(==,!new)>(t: seq<Row<T>>, id: int, c: T): (r: seq<Row<T>>)
    ensures forall x :: x in r <==> (x in t && x.id != id) || (x == Row(id, c) && HasId(t, id))
  {
    if t == [] then []
    else [if t[0].id == id then Row(id, c) else t[0]] + Set(t[1..], id, c)
  }

  /** The rows that satisfy `keep`, in their original order (`find { … }`, and what is left
      after a `deleteWhere` on the negated condition). */
  function Filter<T(==,!new)>(t: seq<Row<T>>, keep: Row<T> -> bool): (r: seq<Row<T>>)
    ensures forall x :: x in r <==> x in t && keep(x)
    ensures |r| <= |t|
  {
    if t == [] then []
    else if keep(t[0]) then [t[0]] + Filter(t[1..], keep)
    else Filter(t[1..], keep)
  }

  /** Deleting the row with id `id`. */
  function Delete<T(==,!new)>(t: seq<Row<T>>, id: int): (r: seq<Row<T>>)
    ensures forall x :: x in r <==> x in t && x.id != id
  {
    Filter(t, (x: Row<T>) => x.id != id)
  }

  /** Filtering keeps the primary key. */
  lemma FilterUnique<T(!new)>(t: seq<Row<T>>, keep: Row<T> -> bool)
    requires UniqueIds(t)
    ensures UniqueIds(Filter(t, keep))
  {
  }

  /** Every id is positive and below `next`, the value the table's id sequence hands out next. */
  ghost predicate IdsBelow<T>(t: seq<Row<T>>, next: int) {
    1 <= next && forall r | r in t :: 1 <= r.id < next
  }

  /** Appending a row keeps every id that was there. */
  lemma HasIdAppend<T>(t: seq<Row<T>>, x: Row<T>, id: int)
    requires HasId(t, id)
    ensures HasId(t + [x], id)
  {
    var r :| r in t && r.id == id;
    assert r in t + [x];
  }

  /** Overwriting a row changes no id: the same ids are found before and after. */
  lemma SetHasId<T(!new)>(t: seq<Row<T>>, id: int, c: T, k: int)
    requires HasId(t, id)
    ensures HasId(Set(t, id, c), k) <==> HasId(t, k)
  {
    var r := Set(t, id, c);
    if HasId(t, k) {
      var x :| x in t && x.id == k;
      if k == id { assert Row(id, c) in r; } else { assert x in r; }
    }
    if HasId(r, k) {
      var x :| x in r && x.id == k;
      if k != id { assert x in t; }
    }
  }

  /** Overwriting a row keeps the ids unique. */
  lemma SetUnique<T(!new)>(t: seq<Row<T>>, id: int, c: T)
    requires UniqueIds(t)
    ensures UniqueIds(Set(t, id, c))
  {
  }

  /** The next value of a sequence is not in use. */
  lemma NextIdUnused<T>(t: seq<Row<T>>, next: int)
    requires IdsBelow(t, next)
    ensures !HasId(t, next)
  {
  }

  /** Appending a row with the next id and advancing the sequence keeps every id below it. */
  lemma IdsBelowAppend<T>(t: seq<Row<T>>, next: int, c: T)
    requires IdsBelow(t, next)
    ensures IdsBelow(t + [Row(next, c)], next + 1)
  {
  }

  lemma IdsBelowSet<T(!new)>(t: seq<Row<T>>, id: int, c: T, next: int)
    requires IdsBelow(t, next) && HasId(t, id)
    ensures IdsBelow(Set(t, id, c), next)
  {
  }

  /** Filtering drops a row exactly when some row fails the condition. */
  lemma {:induction false} FilterDropsSome<T(!new)>(t: seq<Row<T>>, keep: Row<T> -> bool)
    ensures |Filter(t, keep)| < |t| <==> exists x | x in t :: !keep(x)
  {
    if t != [] {
      FilterDropsSome(t[1..], keep);
      assert forall x | x in t[1..] :: x in t;
      assert forall x | x in t :: x == t[0] || x in t[1..];
    }
  }

  /** Every row converted by `f`, in table order (`.map { … }`). */
  function Map<T, U>(t: seq<Row<T>>, f: Row<T> -> U): (r: seq<U>)
    ensures |r| == |t| && forall i | 0 <= i < |t| :: r[i] == f(t[i])
  {
    seq(|t|, i requires 0 <= i < |t| => f(t[i]))
  }

  /** A value is among the converted rows exactly when some row converts to it. */
  lemma MapMembers<T, U>(t: seq<Row<T>>, f: Row<T> -> U)
    ensures forall x :: x in Map(t, f) <==> exists r | r in t :: f(r) == x
  {
    forall x | x in Map(t, f) ensures exists r | r in t :: f(r) == x {
      var i :| 0 <= i < |t| && Map(t, f)[i] == x;
      assert t[i] in t;
    }
    forall x | exists r | r in t :: f(r) == x ensures x in Map(t, f) {
      var r :| r in t && f(r) == x;
      var i :| 0 <= i < |t| && t[i] == r;
      assert Map(t, f)[i] == x;
    }
  }

  /** A sequence without members is empty. */
  lemma NoMembersEmpty<T>(s: seq<T>)
    ensures (forall x :: x !in s) ==> s == []
  {
    if s != [] {
      assert s[0] in s;
    }
  }
}
