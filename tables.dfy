/**
 * A database table as the controllers see it: its rows in primary-key order
 * and the next auto-increment value. `Insert`, `Replace` and `Delete` are what
 * Eloquent's `create`, `update` and `delete` do to one table; `Find` is
 * `find($id)` and `HasId` is the `exists:<table>,id` rule.
 */
module Tables {
  import opened Wrappers
  import opened Seqs

  /** One row: the auto-increment primary key and the other columns. */
  datatype Row<T> = Row(id: int, val: T)

  /** A table: rows in insertion order and the key the next insert receives. */
  datatype Table<T> = Table(rows: seq<Row<T>>, nextId: int)

  /** Keys are positive, below the counter and strictly increasing (hence unique). */
  predicate WellKeyed<T>(t: Table<T>) {
    && 1 <= t.nextId
    && (forall i :: 0 <= i < |t.rows| ==> 1 <= t.rows[i].id < t.nextId)
    && (forall i, j :: 0 <= i < j < |t.rows| ==> t.rows[i].id < t.rows[j].id)
  }

  /** The `exists:<table>,id` validation rule. */
  predicate HasId<T>(t: Table<T>, id: int) {
    exists i :: 0 <= i < |t.rows| && t.rows[i].id == id
  }

  /** `Model::find($id)`: the columns of the row with that key. */
  function Find<T>(t: Table<T>, id: int): (r: Option<T>)
    ensures r.Some? <==> HasId(t, id)
    ensures r.Some? ==> Row(id, r.value) in t.rows
  {
    match FirstIndex(t.rows, (row: Row<T>) => row.id == id)
    case None => None
    case Some(i) => Some(t.rows[i].val)
  }

  /** In a well-keyed table a key names one row, and `Find` returns that row. */
  lemma FindRow<T>(t: Table<T>, k: nat)
    requires WellKeyed(t) && k < |t.rows|
    ensures Find(t, t.rows[k].id) == Some(t.rows[k].val)
  {
    var i := FirstIndex(t.rows, (row: Row<T>) => row.id == t.rows[k].id);
    assert i.Some? && i.value <= k;
    assert t.rows[i.value].id == t.rows[k].id;
  }

  /** `Find` returns a value exactly when the table holds that row. */
  lemma FindByMembership<T>(t: Table<T>, id: int, v: T)
    requires WellKeyed(t)
    ensures Find(t, id) == Some(v) <==> Row(id, v) in t.rows
  {
    if Row(id, v) in t.rows {
      var k :| 0 <= k < |t.rows| && t.rows[k] == Row(id, v);
      FindRow(t, k);
    }
  }

  /** `Model::create(...)`: append a row under the next key. */
  function Insert<T>(t: Table<T>, v: T): Table<T> {
    Table(t.rows + [Row(t.nextId, v)], t.nextId + 1)
  }

  /** Creating a row keeps keys unique, uses a fresh key and leaves every other key's row alone. */
  lemma InsertSpec<T>(t: Table<T>, v: T)
    requires WellKeyed(t)
    ensures WellKeyed(Insert(t, v))
    ensures !HasId(t, t.nextId)
    ensures Find(Insert(t, v), t.nextId) == Some(v)
    ensures forall id :: id != t.nextId ==> Find(Insert(t, v), id) == Find(t, id)
  {
    var t' := Insert(t, v);
    FindRow(t', |t.rows|);
    forall id | id != t.nextId
      ensures Find(t', id) == Find(t, id)
    {
      match Find(t, id)
      case Some(w) =>
        FindByMembership(t, id, w);
        FindByMembership(t', id, w);
      case None =>
        forall i | 0 <= i < |t'.rows|
          ensures t'.rows[i].id != id
        {
          if i < |t.rows| {
            assert t'.rows[i] == t.rows[i];
          }
        }
    }
  }

  /** Creating the rows `vs` one after another, in order. */
  function InsertAll<T>(t: Table<T>, vs: seq<T>): Table<T> {
    Table(t.rows + seq(|vs|, i requires 0 <= i < |vs| => Row(t.nextId + i, vs[i])), t.nextId + |vs|)
  }

  /** One more create after a run of creates extends the run. */
  lemma InsertAllSnoc<T>(t: Table<T>, vs: seq<T>, v: T)
    ensures InsertAll(t, vs + [v]) == Insert(InsertAll(t, vs), v)
  {
    var a := seq(|vs|, i requires 0 <= i < |vs| => Row(t.nextId + i, vs[i]));
    var b := seq(|vs| + 1, i requires 0 <= i < |vs| + 1 => Row(t.nextId + i, (vs + [v])[i]));
    assert b == a + [Row(t.nextId + |vs|, v)];
  }

  /** A run of creates keeps the old rows as a prefix, adds one row per value and keeps keys unique. */
  lemma InsertAllSpec<T>(t: Table<T>, vs: seq<T>)
    requires WellKeyed(t)
    ensures WellKeyed(InsertAll(t, vs))
    ensures |InsertAll(t, vs).rows| == |t.rows| + |vs|
    ensures InsertAll(t, vs).rows[..|t.rows|] == t.rows
    ensures forall k :: 0 <= k < |vs| ==> InsertAll(t, vs).rows[|t.rows| + k] == Row(t.nextId + k, vs[k])
  {
    var r := InsertAll(t, vs).rows;
    assert r[..|t.rows|] == t.rows;
    forall i, j | 0 <= i < j < |r|
      ensures r[i].id < r[j].id
    {
      if j < |t.rows| {
        assert r[i] == t.rows[i] && r[j] == t.rows[j];
      } else if i < |t.rows| {
        assert r[i] == t.rows[i];
      }
    }
  }

  /** `$model->delete()`: drop the row with that key. */
  function Delete<T>(t: Table<T>, id: int): Table<T> {
    Table(Filter(t.rows, (row: Row<T>) => row.id != id), t.nextId)
  }

  /** Deleting the key at position `k` removes exactly that row and keeps the others in order. */
  lemma DeleteAt<T>(t: Table<T>, k: nat)
    requires WellKeyed(t) && k < |t.rows|
    ensures Delete(t, t.rows[k].id).rows == t.rows[..k] + t.rows[k + 1..]
    ensures WellKeyed(Delete(t, t.rows[k].id))
  {
    var id := t.rows[k].id;
    var a, b := t.rows[..k], t.rows[k + 1..];
    assert t.rows == a + [t.rows[k]] + b;
    forall i | 0 <= i < |a| ensures a[i].id != id {
      assert a[i] == t.rows[i];
    }
    forall i | 0 <= i < |b| ensures b[i].id != id {
      assert b[i] == t.rows[k + 1 + i];
    }
    FilterDropsOne(a, t.rows[k], b, (row: Row<T>) => row.id != id);
    WithoutAtKeyed(t, k);
  }

  /** Taking one row out of a table keeps its keys in range and increasing. */
  lemma WithoutAtKeyed<T>(t: Table<T>, k: nat)
    requires WellKeyed(t) && k < |t.rows|
    ensures WellKeyed(Table(t.rows[..k] + t.rows[k + 1..], t.nextId))
  {
    var r := t.rows[..k] + t.rows[k + 1..];
    forall i, j | 0 <= i < j < |r|
      ensures r[i].id < r[j].id
    {
      var i' := if i < k then i else i + 1;
      var j' := if j < k then j else j + 1;
      assert r[i] == t.rows[i'] && r[j] == t.rows[j'];
    }
    forall i | 0 <= i < |r|
      ensures 1 <= r[i].id < t.nextId
    {
      assert r[i] == t.rows[if i < k then i else i + 1];
    }
  }

  /** Deleting a key that is not there changes nothing. */
  lemma DeleteAbsent<T>(t: Table<T>, id: int)
    requires !HasId(t, id)
    ensures Delete(t, id) == t
  {
    FilterKeepsAll(t.rows, (row: Row<T>) => row.id != id);
  }

  /** Deleting keeps keys unique, removes the key and leaves every other key's row alone. */
  lemma DeleteSpec<T>(t: Table<T>, id: int)
    requires WellKeyed(t)
    ensures WellKeyed(Delete(t, id))
    ensures !HasId(Delete(t, id), id)
    ensures |Delete(t, id).rows| == if HasId(t, id) then |t.rows| - 1 else |t.rows|
    ensures forall other :: other != id ==> Find(Delete(t, id), other) == Find(t, other)
  {
    var p := (row: Row<T>) => row.id != id;
    var d := Delete(t, id);
    if HasId(t, id) {
      var k :| 0 <= k < |t.rows| && t.rows[k].id == id;
      DeleteAt(t, k);
    } else {
      DeleteAbsent(t, id);
    }
    forall i | 0 <= i < |d.rows|
      ensures d.rows[i].id != id
    {
      FilterMembership(t.rows, p, d.rows[i]);
    }
    forall other | other != id
      ensures Find(d, other) == Find(t, other)
    {
      match Find(t, other)
      case Some(w) =>
        FindByMembership(t, other, w);
        FilterMembership(t.rows, p, Row(other, w));
        FindByMembership(d, other, w);
      case None =>
        match Find(d, other)
        case Some(w) =>
          FilterMembership(t.rows, p, Row(other, w));
          FindByMembership(t, other, w);
        case None =>
    }
  }

  /** `$model->update([...])`: give the row with that key new columns. */
  function Replace<T>(t: Table<T>, id: int, v: T): Table<T> {
    Table(seq(|t.rows|, i requires 0 <= i < |t.rows| => if t.rows[i].id == id then Row(id, v) else t.rows[i]), t.nextId)
  }

  /** Replacing the key at position `k` rewrites exactly that row. */
  lemma ReplaceAt<T>(t: Table<T>, k: nat, v: T)
    requires WellKeyed(t) && k < |t.rows|
    ensures Replace(t, t.rows[k].id, v).rows == t.rows[k := Row(t.rows[k].id, v)]
    ensures WellKeyed(Replace(t, t.rows[k].id, v))
  {
    var r := Replace(t, t.rows[k].id, v).rows;
    forall i | 0 <= i < |t.rows| && i != k
      ensures r[i] == t.rows[i]
    {
      if i < k {
        assert t.rows[i].id < t.rows[k].id;
      } else {
        assert t.rows[k].id < t.rows[i].id;
      }
    }
  }

  /** Replacing keeps every position's key and rewrites only the rows under `id`. */
  lemma ReplaceRows<T>(t: Table<T>, id: int, v: T)
    ensures |Replace(t, id, v).rows| == |t.rows|
    ensures forall i :: 0 <= i < |t.rows| ==> Replace(t, id, v).rows[i].id == t.rows[i].id
    ensures forall i :: 0 <= i < |t.rows| && t.rows[i].id != id ==> Replace(t, id, v).rows[i] == t.rows[i]
  {
  }

  /** Replacing a row's columns keeps the table's keys in range and increasing. */
  lemma ReplaceKeyed<T>(t: Table<T>, id: int, v: T)
    requires WellKeyed(t)
    ensures WellKeyed(Replace(t, id, v))
  {
    ReplaceRows(t, id, v);
  }

  /** Replacing keeps the keys, gives the key its new row and leaves every other key's row alone. */
  lemma ReplaceSpec<T>(t: Table<T>, id: int, v: T)
    requires WellKeyed(t)
    ensures WellKeyed(Replace(t, id, v))
    ensures forall x :: HasId(Replace(t, id, v), x) <==> HasId(t, x)
    ensures HasId(t, id) ==> Find(Replace(t, id, v), id) == Some(v)
    ensures forall other :: other != id ==> Find(Replace(t, id, v), other) == Find(t, other)
  {
    var r := Replace(t, id, v);
    ReplaceRows(t, id, v);
    ReplaceKeyed(t, id, v);
    forall x
      ensures HasId(r, x) <==> HasId(t, x)
    {
      if HasId(t, x) {
        var i :| 0 <= i < |t.rows| && t.rows[i].id == x;
        assert r.rows[i].id == x;
      }
    }
    if HasId(t, id) {
      var k :| 0 <= k < |t.rows| && t.rows[k].id == id;
      ReplaceAt(t, k, v);
      FindRow(r, k);
    }
    forall other | other != id
      ensures Find(r, other) == Find(t, other)
    {
      if HasId(t, other) {
        var k :| 0 <= k < |t.rows| && t.rows[k].id == other;
        FindRow(t, k);
        FindRow(r, k);
      }
    }
  }
}
