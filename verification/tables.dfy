/**
 * Relational tables as immutable values. A table is its rows in storage
 * order plus the next value of its id sequence; the ORM operations the
 * controllers use (`find` with a `where` filter, `findOne`, `create`,
 * `delete`/`deleteById`, `updateById`) are functions over it.
 */
module Tables {
  import opened Results

  /** A persisted record: the id the database generated for it, and its columns. */
  datatype Row<R> = Row(id: int, data: R)

  /** A table: rows in storage order, and the next value of the table's id sequence. */
  datatype Table<R> = Table(rows: seq<Row<R>>, next: int)

  /** A table whose ids are keys and lie below the sequence's next value. */
  ghost predicate Valid<R>(t: Table<R>) {
    && (forall x :: x in t.rows ==> x.id < t.next)
    && (forall x, y :: x in t.rows && y in t.rows && x.id == y.id ==> x == y)
  }

  /** The elements of `s` that satisfy `p`, in their original order (`find` with a `where` filter). */
  function Filter<T>(s: seq<T>, p: T -> bool): (r: seq<T>)
    ensures forall x :: x in r ==> x in s && p(x)
    ensures forall x :: x in s && p(x) ==> x in r
    ensures |r| <= |s|
  {
    if |s| == 0 then []
    else
      assert s == [s[0]] + s[1..];
      if p(s[0]) then [s[0]] + Filter(s[1..], p) else Filter(s[1..], p)
  }

  /** The first element of `s` that satisfies `p`, if there is one (`findOne`). */
  function FindFirst<T>(s: seq<T>, p: T -> bool): (r: Option<T>)
    ensures r.Some? ==> r.value in s && p(r.value)
    ensures r.None? <==> forall x :: x in s ==> !p(x)
  {
    if |s| == 0 then None
    else if p(s[0]) then Some(s[0])
    else
      assert s == [s[0]] + s[1..];
      FindFirst(s[1..], p)
  }

  /** Once an element of `s` matches, appending more elements does not change which one `findOne` picks. */
  lemma {:induction false} FindFirstAppend<T>(s: seq<T>, extra: seq<T>, p: T -> bool)
    requires FindFirst(s, p).Some?
    ensures FindFirst(s + extra, p) == FindFirst(s, p)
  {
    if !p(s[0]) {
      assert (s + extra)[1..] == s[1..] + extra;
      FindFirstAppend(s[1..], extra, p);
    }
  }

  /** The row with the given id (`findOne({where: {id}})`). */
  function FindById<R>(t: Table<R>, id: int): (r: Option<Row<R>>)
    ensures r.Some? ==> r.value in t.rows && r.value.id == id
    ensures r.None? <==> forall x :: x in t.rows ==> x.id != id
  {
    FindFirst(t.rows, (x: Row<R>) => x.id == id)
  }

  /** The ids of the rows satisfying `p`: a `find` followed by `map(row => row.id)`. */
  function IdsWhere<R(==)>(t: Table<R>, p: Row<R> -> bool): (ids: set<int>)
    ensures forall x :: x in t.rows && p(x) ==> x.id in ids
    ensures forall i :: i in ids ==> exists x :: x in t.rows && p(x) && x.id == i
  {
    set x | x in t.rows && p(x) :: x.id
  }

  /** `create`: appends a row carrying the sequence's next id, and advances the sequence. */
  function Insert<R>(t: Table<R>, d: R): (res: (Table<R>, Row<R>))
    ensures res.1.data == d && res.0.next > t.next && |res.0.rows| == |t.rows| + 1
    ensures forall x :: x in res.0.rows ==> x in t.rows || x == res.1
    ensures res.1 in res.0.rows && forall x :: x in t.rows ==> x in res.0.rows
    ensures Valid(t) ==> Valid(res.0) && forall x :: x in t.rows ==> x.id != res.1.id
  {
    var row := Row(t.next, d);
    (Table(t.rows + [row], t.next + 1), row)
  }

  /** `delete(row)` for every row whose id is in `ids`. */
  function DeleteIds<R>(t: Table<R>, ids: set<int>): (t': Table<R>)
    ensures forall x :: x in t'.rows ==> x in t.rows && x.id !in ids
    ensures forall x :: x in t.rows && x.id !in ids ==> x in t'.rows
    ensures t'.next == t.next
    ensures Valid(t) ==> Valid(t')
  {
    Table(Filter(t.rows, (x: Row<R>) => x.id !in ids), t.next)
  }

  /** Applies `f` to the columns of every row whose id is `id`. */
  function UpdateRows<R>(rows: seq<Row<R>>, id: int, f: R -> R): (r: seq<Row<R>>)
    ensures |r| == |rows|
    ensures forall x :: x in rows && x.id != id ==> x in r
    ensures forall x :: x in rows && x.id == id ==> Row(id, f(x.data)) in r
    ensures forall y :: y in r ==>
              (y in rows && y.id != id) || (y.id == id && exists x :: x in rows && x.id == id && y.data == f(x.data))
  {
    if |rows| == 0 then []
    else
      assert rows == [rows[0]] + rows[1..];
      var head := if rows[0].id == id then Row(id, f(rows[0].data)) else rows[0];
      [head] + UpdateRows(rows[1..], id, f)
  }

  /** `updateById(id, patch)`: rewrites the columns of the row with id `id`. */
  function UpdateById<R>(t: Table<R>, id: int, f: R -> R): (t': Table<R>)
    ensures t'.next == t.next && |t'.rows| == |t.rows|
    ensures forall x :: x in t.rows && x.id != id ==> x in t'.rows
    ensures forall x :: x in t.rows && x.id == id ==> Row(id, f(x.data)) in t'.rows
    ensures forall y :: y in t'.rows ==>
              (y in t.rows && y.id != id) || (y.id == id && exists x :: x in t.rows && x.id == id && y.data == f(x.data))
    ensures Valid(t) ==> Valid(t')
  {
    Table(UpdateRows(t.rows, id, f), t.next)
  }
}
