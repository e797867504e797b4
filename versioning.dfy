/**
 * The append-only, versioned table discipline shared by the `tender` and
 * `bid` tables. A table is the sequence of its rows in insertion order; a
 * row is keyed by `(id, version)`, and the "current" row of an id is the one
 * with the largest version for that id. Every query of the repositories is
 * one of the functions below: `MAX(version) WHERE id = $1`,
 * `WHERE id = $1 AND version = $2`, the current-row subquery, the versioned
 * INSERT, and the in-place UPDATE of the current row.
 */
module Versioning {
  import opened Wrappers

  /** Entity, organization and employee ids (UUIDs in the system). */
  type Id = nat

  datatype Row<C> = Row(id: Id, version: int, data: C)

  /** `SELECT MAX(version) FROM t WHERE id = $1`: absent exactly when the id has no row. */
  function MaxVersion<C>(rows: seq<Row<C>>, id: Id): (m: Option<int>)
    ensures m.None? <==> forall i :: 0 <= i < |rows| ==> rows[i].id != id
    ensures m.Some? ==> exists i :: 0 <= i < |rows| && rows[i].id == id && rows[i].version == m.value
    ensures m.Some? ==> forall i :: 0 <= i < |rows| && rows[i].id == id ==> rows[i].version <= m.value
    decreases |rows|
  {
    if |rows| == 0 then None
    else
      var last := rows[|rows| - 1];
      var m := MaxVersion(rows[..|rows| - 1], id);
      if last.id != id then m
      else if m.Some? && last.version <= m.value then m
      else Some(last.version)
  }

  /** `SELECT * FROM t WHERE id = $1 AND version = $2`, one row of it. */
  function RowAt<C>(rows: seq<Row<C>>, id: Id, version: int): (r: Option<Row<C>>)
    ensures r.None? <==> forall i :: 0 <= i < |rows| ==> !(rows[i].id == id && rows[i].version == version)
    ensures r.Some? ==> r.value.id == id && r.value.version == version
    ensures r.Some? ==> exists i :: 0 <= i < |rows| && rows[i] == r.value
    decreases |rows|
  {
    if |rows| == 0 then None
    else if rows[|rows| - 1].id == id && rows[|rows| - 1].version == version then Some(rows[|rows| - 1])
    else RowAt(rows[..|rows| - 1], id, version)
  }

  /** The current row: `WHERE id = $1 AND version = (SELECT MAX(version) ... WHERE t.id = id)`. */
  function Current<C>(rows: seq<Row<C>>, id: Id): (r: Option<Row<C>>)
    ensures r.None? <==> forall i :: 0 <= i < |rows| ==> rows[i].id != id
    ensures r.Some? ==> r.value.id == id && exists i :: 0 <= i < |rows| && rows[i] == r.value
    ensures r.Some? ==> forall i :: 0 <= i < |rows| && rows[i].id == id ==> rows[i].version <= r.value.version
  {
    match MaxVersion(rows, id)
    case None => None
    case Some(m) => RowAt(rows, id, m)
  }

  /** The current row carries the id's maximum version, so the next version is one above it. */
  lemma CurrentHasMaxVersion<C>(rows: seq<Row<C>>, id: Id)
    requires Current(rows, id).Some?
    ensures MaxVersion(rows, id) == Some(Current(rows, id).value.version)
    ensures NextVersion(rows, id) == Current(rows, id).value.version + 1
  {
    var i :| 0 <= i < |rows| && rows[i] == Current(rows, id).value;
  }

  /** The filter of the listing queries: the row is the max-version row of its id. */
  predicate IsCurrent<C>(rows: seq<Row<C>>, r: Row<C>) {
    MaxVersion(rows, r.id) == Some(r.version)
  }

  /** The table invariant: versions are positive and `(id, version)` is a key. */
  ghost predicate WellFormed<C>(rows: seq<Row<C>>) {
    && (forall i :: 0 <= i < |rows| ==> rows[i].version >= 1)
    && (forall i, j :: 0 <= i < j < |rows| && rows[i].id == rows[j].id ==> rows[i].version != rows[j].version)
  }

  /** Every row's id is below `n`, the next id the table's default hands out. */
  ghost predicate IdsBelow<C>(rows: seq<Row<C>>, n: Id) {
    forall i :: 0 <= i < |rows| ==> rows[i].id < n
  }

  /** Appending a row whose id is below the (possibly raised) bound keeps every id below it. */
  lemma AppendIdsBelow<C>(rows: seq<Row<C>>, row: Row<C>, n: Id, m: Id)
    requires IdsBelow(rows, n) && n <= m && row.id < m
    ensures IdsBelow(rows + [row], m)
  {
    forall i | 0 <= i < |rows| + 1 ensures (rows + [row])[i].id < m {
      if i < |rows| {
        assert (rows + [row])[i] == rows[i];
      }
    }
  }

  /** `COALESCE(MAX(version), 0) + 1` for the id. */
  function NextVersion<C>(rows: seq<Row<C>>, id: Id): (v: int)
    ensures forall i :: 0 <= i < |rows| && rows[i].id == id ==> rows[i].version < v
    ensures v == 1 || exists i :: 0 <= i < |rows| && rows[i].id == id && rows[i].version == v - 1
  {
    match MaxVersion(rows, id)
    case None => 1
    case Some(m) => m + 1
  }

  /** The versioned INSERT: a new row for `id` one above its current maximum. */
  function AppendVersion<C>(rows: seq<Row<C>>, id: Id, data: C): (r: seq<Row<C>>)
    ensures |r| == |rows| + 1 && r[..|rows|] == rows
    ensures r[|rows|].id == id && r[|rows|].data == data
    ensures forall i :: 0 <= i < |rows| && rows[i].id == id ==> rows[i].version < r[|rows|].version
  {
    rows + [Row(id, NextVersion(rows, id), data)]
  }

  /**
   * The UPDATE of the current row in place: every row that is the
   * max-version row of `id` gets its payload rewritten by `f`; nothing is
   * appended.
   */
  function UpdateCurrent<C>(rows: seq<Row<C>>, id: Id, f: C -> C): (r: seq<Row<C>>)
    ensures |r| == |rows|
    ensures forall i :: 0 <= i < |rows| ==> r[i].id == rows[i].id && r[i].version == rows[i].version
    ensures forall i :: 0 <= i < |rows| && r[i] != rows[i] ==> rows[i].id == id
  {
    seq(|rows|, i requires 0 <= i < |rows| =>
      if rows[i].id == id && MaxVersion(rows, id) == Some(rows[i].version)
      then rows[i].(data := f(rows[i].data))
      else rows[i])
  }

  /** In a well-formed table, looking up a row's own key finds that row. */
  lemma RowAtOwnKey<C>(rows: seq<Row<C>>, k: nat)
    requires WellFormed(rows) && k < |rows|
    ensures RowAt(rows, rows[k].id, rows[k].version) == Some(rows[k])
  {
    var i :| 0 <= i < |rows| && rows[i] == RowAt(rows, rows[k].id, rows[k].version).value;
  }

  /** In a well-formed table, a max-version row of `id` is the current row. */
  lemma CurrentIsTheMaxRow<C>(rows: seq<Row<C>>, k: nat)
    requires WellFormed(rows) && k < |rows|
    requires MaxVersion(rows, rows[k].id) == Some(rows[k].version)
    ensures Current(rows, rows[k].id) == Some(rows[k])
  {
    RowAtOwnKey(rows, k);
  }

  /** Two tables with the same keys in the same places have the same maxima. */
  lemma SameKeysSameMax<C>(a: seq<Row<C>>, b: seq<Row<C>>, id: Id)
    requires |a| == |b|
    requires forall i :: 0 <= i < |a| ==> a[i].id == b[i].id && a[i].version == b[i].version
    ensures MaxVersion(a, id) == MaxVersion(b, id)
  {
    var ma, mb := MaxVersion(a, id), MaxVersion(b, id);
    if ma.Some? && mb.Some? {
      var i :| 0 <= i < |a| && a[i].id == id && a[i].version == ma.value;
      var j :| 0 <= j < |b| && b[j].id == id && b[j].version == mb.value;
      assert a[j].id == id && b[i].id == id;
    }
  }

  /** Appending a positive version above every version of its id keeps the table well formed. */
  lemma AppendWellFormed<C>(rows: seq<Row<C>>, row: Row<C>)
    requires WellFormed(rows) && row.version >= 1
    requires forall i :: 0 <= i < |rows| && rows[i].id == row.id ==> rows[i].version < row.version
    ensures WellFormed(rows + [row])
  {
    var after := rows + [row];
    forall i, j | 0 <= i < j < |after| && after[i].id == after[j].id
      ensures after[i].version != after[j].version
    {
      if j == |rows| { assert after[i] == rows[i]; }
    }
  }

  /**
   * Edit and rollback: appending a version keeps every earlier row as it
   * was, raises the id's maximum by exactly one (or starts it at 1), makes
   * the new row the id's current row, leaves every other id alone and keeps
   * the table well formed.
   */
  lemma AppendVersionFacts<C>(rows: seq<Row<C>>, id: Id, data: C)
    requires WellFormed(rows)
    ensures var after := AppendVersion(rows, id, data);
      && |after| == |rows| + 1
      && after[..|rows|] == rows
      && MaxVersion(after, id) == Some(NextVersion(rows, id))
      && Current(after, id) == Some(Row(id, NextVersion(rows, id), data))
      && WellFormed(after)
      && (forall other :: other != id ==> MaxVersion(after, other) == MaxVersion(rows, other))
      && (forall other :: other != id ==> Current(after, other) == Current(rows, other))
  {
    var after := AppendVersion(rows, id, data);
    assert after[..|rows|] == rows;
    var nv := NextVersion(rows, id);
    assert nv >= 1 by {
      if MaxVersion(rows, id).Some? {
        var i :| 0 <= i < |rows| && rows[i].id == id && rows[i].version == MaxVersion(rows, id).value;
      }
    }
    forall i | 0 <= i < |rows| && rows[i].id == id ensures rows[i].version < nv { }
    AppendWellFormed(rows, Row(id, nv, data));
  }

  /**
   * Edit: appending a new payload for an id that has a current row puts it
   * at exactly the current version plus one.
   */
  lemma AppendAfterCurrent<C>(rows: seq<Row<C>>, id: Id, data: C)
    requires WellFormed(rows) && Current(rows, id).Some?
    ensures var cur := Current(rows, id).value;
      var after := rows + [Row(id, cur.version + 1, data)];
      && after == AppendVersion(rows, id, data)
      && WellFormed(after)
      && Current(after, id) == Some(Row(id, cur.version + 1, data))
      && MaxVersion(after, id) == Some(cur.version + 1)
      && (forall other :: other != id ==> Current(after, other) == Current(rows, other))
  {
    CurrentHasMaxVersion(rows, id);
    AppendVersionFacts(rows, id, data);
  }

  /** Updating the current row in place keeps every key, hence every maximum. */
  lemma UpdateCurrentKeepsKeys<C>(rows: seq<Row<C>>, id: Id, f: C -> C)
    ensures var after := UpdateCurrent(rows, id, f);
      && |after| == |rows|
      && (forall i :: 0 <= i < |rows| ==> after[i].id == rows[i].id && after[i].version == rows[i].version)
      && (forall x :: MaxVersion(after, x) == MaxVersion(rows, x))
  {
    var after := UpdateCurrent(rows, id, f);
    forall x ensures MaxVersion(after, x) == MaxVersion(rows, x) {
      SameKeysSameMax(after, rows, x);
    }
  }

  /** Updating the current row in place keeps every key, hence the table well formed. */
  lemma UpdateCurrentWellFormed<C>(rows: seq<Row<C>>, id: Id, f: C -> C)
    requires WellFormed(rows)
    ensures WellFormed(UpdateCurrent(rows, id, f))
  {
    UpdateCurrentKeepsKeys(rows, id, f);
  }

  /** Updating the current row of `id` in place leaves the current row of every other id as it was. */
  lemma UpdateCurrentKeepsOther<C>(rows: seq<Row<C>>, id: Id, f: C -> C, other: Id)
    requires WellFormed(rows) && other != id
    ensures Current(UpdateCurrent(rows, id, f), other) == Current(rows, other)
  {
    var after := UpdateCurrent(rows, id, f);
    UpdateCurrentKeepsKeys(rows, id, f);
    UpdateCurrentWellFormed(rows, id, f);
    if Current(rows, other).Some? {
      var k :| 0 <= k < |rows| && rows[k] == Current(rows, other).value;
      assert after[k] == rows[k];
      CurrentIsTheMaxRow(rows, k);
      CurrentIsTheMaxRow(after, k);
    } else {
      assert MaxVersion(after, other) == MaxVersion(rows, other);
    }
  }

  /**
   * Status change: updating the current row in place appends nothing, keeps
   * every key (so every maximum), changes no row but the current row of
   * `id`, whose payload becomes `f` of the old one, and keeps the table well
   * formed.
   */
  lemma UpdateCurrentFacts<C>(rows: seq<Row<C>>, id: Id, f: C -> C)
    requires WellFormed(rows)
    ensures var after := UpdateCurrent(rows, id, f);
      && |after| == |rows|
      && (forall i :: 0 <= i < |rows| && after[i] != rows[i] ==> Current(rows, id) == Some(rows[i]))
      && (forall x :: MaxVersion(after, x) == MaxVersion(rows, x))
      && WellFormed(after)
      && (Current(rows, id).None? ==> after == rows)
      && (Current(rows, id).Some? ==>
            Current(after, id) == Some(Current(rows, id).value.(data := f(Current(rows, id).value.data))))
      && (forall other :: other != id ==> Current(after, other) == Current(rows, other))
  {
    var after := UpdateCurrent(rows, id, f);
    UpdateCurrentKeepsKeys(rows, id, f);
    forall i | 0 <= i < |rows| && after[i] != rows[i] ensures Current(rows, id) == Some(rows[i]) {
      CurrentIsTheMaxRow(rows, i);
    }
    UpdateCurrentWellFormed(rows, id, f);
    if Current(rows, id).None? {
      assert after == rows;
    } else {
      var c := Current(rows, id).value;
      var k :| 0 <= k < |rows| && rows[k] == c;
      CurrentIsTheMaxRow(rows, k);
      CurrentIsTheMaxRow(after, k);
    }
    forall other | other != id ensures Current(after, other) == Current(rows, other) {
      UpdateCurrentKeepsOther(rows, id, f, other);
    }
  }

  /**
   * The row a rollback to `(id, v)` appends: the payload of version `v` at
   * the id's next version. None when `(id, v)` does not exist.
   */
  function RollbackRow<C>(rows: seq<Row<C>>, id: Id, v: int): (r: Option<Row<C>>)
    ensures r.None? <==> RowAt(rows, id, v).None?
    ensures r.Some? ==> r.value.id == id && r.value.data == RowAt(rows, id, v).value.data
  {
    match RowAt(rows, id, v)
    case None => None
    case Some(target) => Some(Row(id, NextVersion(rows, id), target.data))
  }

  /**
   * Rollback: when version `v` of `id` exists, cloning it forward lands at
   * the old maximum plus one, which is never `v` itself; the clone becomes
   * the current row with `v`'s payload, every other id keeps its current
   * row, and the table stays well formed.
   */
  lemma RollbackFacts<C>(rows: seq<Row<C>>, id: Id, v: int)
    requires WellFormed(rows) && RowAt(rows, id, v).Some?
    ensures MaxVersion(rows, id).Some? && v <= MaxVersion(rows, id).value
    ensures exists k :: 0 <= k < |rows| && rows[k].id == id
    ensures var row := RollbackRow(rows, id, v).value;
      var after := rows + [row];
      && row == Row(id, MaxVersion(rows, id).value + 1, RowAt(rows, id, v).value.data)
      && row.version != v
      && WellFormed(after)
      && Current(after, id) == Some(row)
      && MaxVersion(after, id) == Some(row.version)
      && (forall other :: other != id ==> Current(after, other) == Current(rows, other))
  {
    var target := RowAt(rows, id, v).value;
    var i :| 0 <= i < |rows| && rows[i] == target;
    assert rows[i].id == id;
    CurrentHasMaxVersion(rows, id);
    AppendAfterCurrent(rows, id, target.data);
  }
}
