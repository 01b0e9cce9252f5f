/** SQLite tables with an `INTEGER PRIMARY KEY AUTOINCREMENT` column: rows in
    rowid order, each carrying its id, and the operations the application's
    SQL performs on them (`SELECT ... WHERE id=?`, `INSERT`,
    `UPDATE ... WHERE id=?`, `DELETE ... WHERE id=?`). */
module Tables {
  import opened Options

  datatype Row<T> = Row(id: nat, fields: T)

  type Table<T> = seq<Row<T>>

  /** Rows are kept in increasing, hence distinct, id order. */
  ghost predicate Ascending<T>(t: Table<T>)
  {
    forall i, j :: 0 <= i < j < |t| ==> t[i].id < t[j].id
  }

  /** AUTOINCREMENT: every id is positive and no larger than the largest id
      ever handed out (`lastId`, SQLite's `sqlite_sequence` entry). */
  ghost predicate WellFormed<T>(t: Table<T>, lastId: nat)
  {
    Ascending(t) && forall i :: 0 <= i < |t| ==> 1 <= t[i].id <= lastId
  }

  /** `SELECT ... WHERE id=?` followed by `fetchone()`. */
  function Find<T>(t: Table<T>, id: nat): (r: Option<T>)
    ensures r.Some? ==> Row(id, r.value) in t
    ensures r.None? ==> forall x :: x in t ==> x.id != id
  {
    if t == [] then None
    else if t[0].id == id then Some(t[0].fields)
    else Find(t[1..], id)
  }

  /** `INSERT`: the new row gets the next AUTOINCREMENT id. */
  function Insert<T>(t: Table<T>, lastId: nat, fields: T): (r: Table<T>)
    ensures WellFormed(t, lastId) ==> WellFormed(r, lastId + 1)
    ensures WellFormed(t, lastId) ==> Find(t, lastId + 1).None?
  {
    t + [Row(lastId + 1, fields)]
  }

  /** `UPDATE ... WHERE id=?`: every row with that id gets the new fields. */
  function Update<T>(t: Table<T>, id: nat, fields: T): (r: Table<T>)
    ensures |r| == |t|
    ensures forall i {:trigger r[i]} :: 0 <= i < |t| ==> r[i] == if t[i].id == id then Row(id, fields) else t[i]
  {
    if t == [] then []
    else [if t[0].id == id then Row(id, fields) else t[0]] + Update(t[1..], id, fields)
  }

  /** `UPDATE ... SET <columns> WHERE id=?` where the new values may depend on
      the row's current ones: every row with that id is rewritten by `f`. */
  function Modify<T>(t: Table<T>, id: nat, f: T -> T): (r: Table<T>)
    ensures |r| == |t|
    ensures forall i {:trigger r[i]} :: 0 <= i < |t| ==> r[i] == if t[i].id == id then Row(id, f(t[i].fields)) else t[i]
  {
    if t == [] then []
    else [if t[0].id == id then Row(id, f(t[0].fields)) else t[0]] + Modify(t[1..], id, f)
  }

  /** `DELETE ... WHERE id=?`. */
  function Delete<T(!new)>(t: Table<T>, id: nat): (r: Table<T>)
    ensures forall x :: x in r <==> x in t && x.id != id
    ensures Ascending(t) ==> Ascending(r)
    ensures forall n: nat :: WellFormed(t, n) ==> WellFormed(r, n)
  {
    if t == [] then []
    else if t[0].id == id then Delete(t[1..], id)
    else [t[0]] + Delete(t[1..], id)
  }

  lemma UpdateWellFormed<T>(t: Table<T>, id: nat, fields: T, lastId: nat)
    requires WellFormed(t, lastId)
    ensures WellFormed(Update(t, id, fields), lastId)
  {
  }

  /** Rowids are distinct: the first row does not occur again. */
  lemma HeadNotInTail<T>(t: Table<T>)
    requires Ascending(t) && t != []
    ensures t[0] !in t[1..]
  {
  }

  /** In a table with distinct ids, a row is found by its id. */
  lemma {:induction false} FindMember<T>(t: Table<T>, x: Row<T>)
    requires Ascending(t) && x in t
    ensures Find(t, x.id) == Some(x.fields)
  {
    if t[0] != x {
      assert x in t[1..];
      FindMember(t[1..], x);
    }
  }

  lemma {:induction false} FindUpdate<T>(t: Table<T>, id: nat, fields: T, x: nat)
    ensures Find(Update(t, id, fields), x)
            == if x != id then Find(t, x) else if Find(t, id).Some? then Some(fields) else None
  {
    if t != [] {
      var u := Update(t, id, fields);
      assert u[1..] == Update(t[1..], id, fields);
      FindUpdate(t[1..], id, fields, x);
    }
  }

  lemma {:induction false} FindDelete<T(!new)>(t: Table<T>, id: nat, x: nat)
    ensures Find(Delete(t, id), x) == if x == id then None else Find(t, x)
  {
    if t != [] {
      FindDelete(t[1..], id, x);
    }
  }

  lemma {:induction false} FindAppend<T>(t: Table<T>, row: Row<T>, x: nat)
    ensures Find(t + [row], x) == if Find(t, x).Some? then Find(t, x) else if row.id == x then Some(row.fields) else None
  {
    if t != [] {
      assert (t + [row])[1..] == t[1..] + [row];
      FindAppend(t[1..], row, x);
    }
  }

  /** Writing back the fields a row already has changes nothing. */
  lemma {:induction false} UpdateSame<T>(t: Table<T>, id: nat, fields: T)
    requires Ascending(t) && Find(t, id) == Some(fields)
    ensures Update(t, id, fields) == t
  {
    var u := Update(t, id, fields);
    forall i | 0 <= i < |t|
      ensures u[i] == t[i]
    {
      if t[i].id == id {
        FindMember(t, t[i]);
      }
    }
  }

  /** The second of two updates of one row is the one that counts. */
  lemma UpdateTwice<T>(t: Table<T>, id: nat, first: T, second: T)
    ensures Update(Update(t, id, first), id, second) == Update(t, id, second)
  {
  }

  /** Deleting the row that was just inserted restores the table. */
  lemma {:induction false} DeleteInserted<T(!new)>(t: Table<T>, lastId: nat, fields: T)
    requires WellFormed(t, lastId)
    ensures Delete(Insert(t, lastId, fields), lastId + 1) == t
  {
    if t == [] {
    } else {
      var r := Insert(t, lastId, fields);
      assert r[1..] == Insert(t[1..], lastId, fields);
      DeleteInserted(t[1..], lastId, fields);
    }
  }

  /** An `UPDATE` changes the row with that id, if there is one, and no other. */
  lemma {:induction false} FindModify<T>(t: Table<T>, id: nat, f: T -> T, x: nat)
    ensures Find(Modify(t, id, f), x)
            == if x == id && Find(t, id).Some? then Some(f(Find(t, id).value)) else Find(t, x)
  {
    if t != [] {
      var m := Modify(t, id, f);
      assert m[1..] == Modify(t[1..], id, f);
      FindModify(t[1..], id, f, x);
    }
  }

  /** An `UPDATE` keeps every id, hence the AUTOINCREMENT invariant. */
  lemma ModifyWellFormed<T>(t: Table<T>, id: nat, f: T -> T, lastId: nat)
    requires WellFormed(t, lastId)
    ensures WellFormed(Modify(t, id, f), lastId)
  {
  }

  /** An `UPDATE` of an id no row has changes nothing. */
  lemma ModifyAbsent<T>(t: Table<T>, id: nat, f: T -> T)
    requires Find(t, id).None?
    ensures Modify(t, id, f) == t
  {
  }

  /** With distinct ids, an `UPDATE` computed from the row's own values is
      the same as writing back the rewritten fields. */
  lemma ModifyIsUpdate<T>(t: Table<T>, id: nat, f: T -> T, v: T)
    requires Ascending(t) && Find(t, id) == Some(v)
    ensures Modify(t, id, f) == Update(t, id, f(v))
  {
    forall i | 0 <= i < |t|
      ensures Modify(t, id, f)[i] == Update(t, id, f(v))[i]
    {
      if t[i].id == id {
        FindMember(t, t[i]);
      }
    }
  }

  /** An `UPDATE` of the row just appended rewrites that row only. */
  lemma UpdateAppended<T>(t: Table<T>, id: nat, v: T, w: T)
    requires forall x :: x in t ==> x.id != id
    ensures Update(t + [Row(id, v)], id, w) == t + [Row(id, w)]
  {
    var u := Update(t + [Row(id, v)], id, w);
    forall i | 0 <= i < |t|
      ensures u[i] == t[i]
    {
      assert (t + [Row(id, v)])[i] == t[i];
    }
  }
}
