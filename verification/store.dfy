/** The hosted table store behind the API routes, reduced to what the routes
    rely on: a map from row id to record with an identity counter, and the
    `order(column, { ascending: false })` listing of all rows. */
module Store {
  import opened Wrappers

  /** A row as the store returns it: the generated id and the record. */
  datatype Row<R> = Row(id: nat, fields: R)

  /** A table: its rows by id, and the next value of the identity column. */
  datatype Table<R> = Table(rows: map<nat, R>, nextId: nat) {
    /** Every id in use was issued by the counter. */
    predicate Valid() {
      forall id :: id in rows ==> id < nextId
    }
  }

  /** `insert([record]).select()`: the record is stored under a fresh id and
      the inserted row is returned; no existing row changes. */
  function Insert<R>(t: Table<R>, r: R): (res: (Table<R>, Row<R>))
    requires t.Valid()
    ensures res.1.id !in t.rows && res.1.fields == r
    ensures res.0.rows == t.rows[res.1.id := r]
    ensures res.0.Valid()
  {
    var id := t.nextId;
    (Table(t.rows[id := r], id + 1), Row(id, r))
  }

  /** The ids below `n` in use in `m`, ascending. */
  function IdsBelow<R>(m: map<nat, R>, n: nat): (ids: seq<nat>)
    ensures forall id :: id in ids <==> id in m && id < n
    ensures forall i, j :: 0 <= i < j < |ids| ==> ids[i] < ids[j]
  {
    if n == 0 then []
    else
      var rest := IdsBelow(m, n - 1);
      assert forall i :: 0 <= i < |rest| ==> rest[i] in rest;
      if n - 1 in m then rest + [n - 1] else rest
  }

  /** `select("*")`: every row of the table once, by ascending id. */
  function Rows<R>(t: Table<R>): (rs: seq<Row<R>>)
    requires t.Valid()
    ensures forall i :: 0 <= i < |rs| ==> rs[i].id in t.rows && t.rows[rs[i].id] == rs[i].fields
    ensures forall i, j :: 0 <= i < j < |rs| ==> rs[i].id < rs[j].id
    ensures forall id :: id in t.rows ==> Row(id, t.rows[id]) in rs
  {
    var ids := IdsBelow(t.rows, t.nextId);
    var rs := seq(|ids|, i requires 0 <= i < |ids| => Row(ids[i], t.rows[ids[i]]));
    assert forall id :: id in t.rows ==> Row(id, t.rows[id]) in rs by {
      forall id | id in t.rows
        ensures Row(id, t.rows[id]) in rs
      {
        var i :| 0 <= i < |ids| && ids[i] == id;
        assert rs[i] == Row(id, t.rows[id]);
      }
    }
    rs
  }

  // ---------------------------------------------------------------------
  // Ordering by a nullable text column, descending
  // ---------------------------------------------------------------------

  /** Code-point lexicographic order on strings, the order of ISO-8601 date
      and timestamp text as well. */
  predicate LexLe(a: string, b: string) {
    |a| == 0 || (|b| > 0 && (a[0] < b[0] || (a[0] == b[0] && LexLe(a[1..], b[1..]))))
  }

  lemma {:induction false} LexTotal(a: string, b: string)
    ensures LexLe(a, b) || LexLe(b, a)
  {
    if |a| > 0 && |b| > 0 && a[0] == b[0] {
      LexTotal(a[1..], b[1..]);
    }
  }

  /** `a` may be listed before `b` in a descending order: a null sorts
      first (descending order puts nulls first), otherwise the larger text
      comes first. */
  predicate RanksBefore(a: Option<string>, b: Option<string>) {
    a.None? || (b.Some? && LexLe(b.value, a.value))
  }

  lemma RanksTotal(a: Option<string>, b: Option<string>)
    ensures RanksBefore(a, b) || RanksBefore(b, a)
  {
    if a.Some? && b.Some? {
      LexTotal(a.value, b.value);
    }
  }

  /** Each element ranks before its successor by `key`. */
  predicate Descending<T>(l: seq<T>, key: T -> Option<string>) {
    forall i :: 0 <= i < |l| - 1 ==> RanksBefore(key(l[i]), key(l[i + 1]))
  }

  /** Inserts `x` in front of the first element it ranks before. */
  function InsertDesc<T>(x: T, l: seq<T>, key: T -> Option<string>): (r: seq<T>)
    requires Descending(l, key)
    ensures multiset(r) == multiset(l) + multiset{x}
    ensures Descending(r, key)
    ensures |r| > 0 && (r[0] == x || (|l| > 0 && r[0] == l[0]))
  {
    if |l| == 0 then [x]
    else if RanksBefore(key(x), key(l[0])) then [x] + l
    else
      RanksTotal(key(x), key(l[0]));
      var rest := InsertDesc(x, l[1..], key);
      assert l == [l[0]] + l[1..];
      [l[0]] + rest
  }

  /** The `order(column, { ascending: false })` of a listing: the same rows,
      rearranged into descending order of the column. */
  function SortDesc<T>(l: seq<T>, key: T -> Option<string>): (r: seq<T>)
    ensures multiset(r) == multiset(l)
    ensures Descending(r, key)
  {
    if |l| == 0 then []
    else
      assert l == [l[0]] + l[1..];
      InsertDesc(l[0], SortDesc(l[1..], key), key)
  }
}
