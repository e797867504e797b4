/**
 * The `tender` table and its repository (internal/repo/pgdb/tender.go),
 * with the database replaced by an in-memory sequence of rows.
 */
module TenderStore {
  import opened Wrappers
  import opened Errors
  import opened Versioning
  import opened Entity
  import Listing

  /** The payload rewrite of `UPDATE tender SET status = $1`. */
  function SetStatus(status: string): TenderData -> TenderData {
    (d: TenderData) => d.(status := status)
  }

  /** The filter of `GetMyTenders`: current rows created by `username`. */
  function CreatedBy(rows: seq<Tender>, username: string): (p: Tender -> bool)
    ensures forall t :: p(t) <==> IsCurrent(rows, t) && t.data.creatorUsername == username
  {
    (t: Tender) => IsCurrent(rows, t) && t.data.creatorUsername == username
  }

  /** The filter of `GetTenders`: current, published rows of one of the given service types. */
  function PublishedOfType(rows: seq<Tender>, serviceTypes: seq<string>): (p: Tender -> bool)
    ensures forall t :: p(t) <==> IsCurrent(rows, t) && t.data.status == Published && t.data.serviceType in serviceTypes
  {
    (t: Tender) => IsCurrent(rows, t) && t.data.serviceType in serviceTypes && t.data.status == Published
  }

  class TenderRepo {
    /** The rows of the `tender` table, in insertion order. */
    var rows: seq<Tender>
    /** The id the database default hands to the next created tender. */
    var nextId: Id

    ghost predicate Valid()
      reads this
    {
      WellFormed(rows) && IdsBelow(rows, nextId)
    }

    constructor ()
      ensures Valid() && rows == []
    {
      rows := [];
      nextId := 0;
    }

    /** INSERT of a new tender: a fresh id, version 1, status "Created". */
    method CreateTender(name: string, description: string, serviceType: string,
                        organizationId: Id, creatorUsername: string) returns (t: Tender)
      requires Valid()
      modifies this
      ensures Valid()
      ensures nextId == old(nextId) + 1
      ensures old(Current(rows, t.id)).None?
      ensures t == Row(t.id, InitialVersion,
        TenderData(name, description, serviceType, InitialStatus, organizationId, creatorUsername))
      ensures rows == old(rows) + [t]
    {
      t := Row(nextId, InitialVersion,
        TenderData(name, description, serviceType, InitialStatus, organizationId, creatorUsername));
      AppendIdsBelow(rows, t, nextId, nextId + 1);
      rows := rows + [t];
      nextId := nextId + 1;
    }

    /** The current tender of `id`; `NotFound` when the id has no row. */
    method GetTenderById(id: Id) returns (r: Result<Tender, RepoError>)
      ensures r.Err? <==> forall i :: 0 <= i < |rows| ==> rows[i].id != id
      ensures r.Err? ==> r.error == NotFound
      ensures r.Ok? ==> Current(rows, id) == Some(r.value) && r.value.id == id && r.value in rows
      ensures r.Ok? ==> forall i :: 0 <= i < |rows| && rows[i].id == id ==> rows[i].version <= r.value.version
    {
      var t := Current(rows, id);
      if t.None? {
        r := Err(NotFound);
      } else {
        r := Ok(t.value);
      }
    }

    /**
     * Overwrites the status of the current row in place: no row is appended
     * and no version changes. Without a current row the UPDATE returns
     * nothing and the error is a wrapped one, not `NotFound`.
     */
    method PutStatus(id: Id, status: string) returns (r: Result<Tender, RepoError>)
      requires Valid()
      modifies this
      ensures Valid()
      ensures nextId == old(nextId)
      ensures old(Current(rows, id)).None? ==> r == Err(Wrapped) && rows == old(rows)
      ensures old(Current(rows, id)).Some? ==>
        && r == Ok(old(Current(rows, id)).value.(data := old(Current(rows, id)).value.data.(status := status)))
        && rows == UpdateCurrent(old(rows), id, SetStatus(status))
        && Current(rows, id) == Some(r.value)
      ensures |rows| == |old(rows)|
      ensures forall x :: MaxVersion(rows, x) == old(MaxVersion(rows, x))
      ensures forall x :: x != id ==> Current(rows, x) == old(Current(rows, x))
    {
      var cur := Current(rows, id);
      UpdateCurrentFacts(rows, id, SetStatus(status));
      if cur.None? {
        r := Err(Wrapped);
      } else {
        rows := UpdateCurrent(rows, id, SetStatus(status));
        r := Ok(cur.value.(data := cur.value.data.(status := status)));
      }
    }

    /**
     * Appends a copy of the current row at the next version, with each
     * non-empty argument replacing its column; id, organization, creator
     * and status are carried over. `NotFound` and no insert when the id has
     * no row.
     */
    method EditTender(id: Id, name: string, description: string, serviceType: string)
      returns (r: Result<Tender, RepoError>)
      requires Valid()
      modifies this
      ensures Valid()
      ensures nextId == old(nextId)
      ensures old(Current(rows, id)).None? ==> r == Err(NotFound) && rows == old(rows)
      ensures old(Current(rows, id)).Some? ==>
        var cur := old(Current(rows, id)).value;
        && r == Ok(Row(id, cur.version + 1, cur.data.(
             name := Override(name, cur.data.name),
             description := Override(description, cur.data.description),
             serviceType := Override(serviceType, cur.data.serviceType))))
        && rows == old(rows) + [r.value]
    {
      var cur := Current(rows, id);
      if cur.None? {
        r := Err(NotFound);
      } else {
        var t := cur.value;
        var data := t.data.(name := Override(name, t.data.name),
          description := Override(description, t.data.description),
          serviceType := Override(serviceType, t.data.serviceType));
        var row := Row(id, t.version + 1, data);
        ghost var k :| 0 <= k < |rows| && rows[k] == t;
        AppendWellFormed(rows, row);
        AppendIdsBelow(rows, row, nextId, nextId);
        rows := rows + [row];
        r := Ok(row);
      }
    }

    /**
     * Appends a copy of row `(id, version)` at the id's maximum version plus
     * one (`RollbackRow`). A missing `(id, version)` is `NotFound` and
     * inserts nothing; a missing maximum would be `VersionNotFound`, which
     * a well-formed table holding `(id, version)` never reaches.
     */
    method RollbackVersion(id: Id, version: int) returns (r: Result<Tender, RepoError>)
      requires Valid()
      modifies this
      ensures Valid()
      ensures nextId == old(nextId)
      ensures old(RollbackRow(rows, id, version)).None? ==> r == Err(NotFound) && rows == old(rows)
      ensures old(RollbackRow(rows, id, version)).Some? ==>
        r == Ok(old(RollbackRow(rows, id, version)).value) && rows == old(rows) + [r.value]
    {
      var target := RowAt(rows, id, version);
      if target.None? {
        r := Err(NotFound);
      } else {
        var lastV := MaxVersion(rows, id);
        if lastV.None? {
          r := Err(VersionNotFound);
        } else {
          var row := Row(id, lastV.value + 1, target.value.data);
          ghost var k :| 0 <= k < |rows| && rows[k] == target.value;
          AppendWellFormed(rows, row);
          AppendIdsBelow(rows, row, nextId, nextId);
          rows := rows + [row];
          r := Ok(row);
        }
      }
    }

    /** Current tenders created by `username`, by name, then OFFSET and LIMIT. */
    method GetMyTenders(username: string, limit: nat, offset: nat) returns (ts: seq<Tender>)
      ensures ts == Listing.Listed(rows, CreatedBy(rows, username), TenderName, limit, offset)
      ensures |ts| <= limit && Listing.SortedBy(ts, TenderName)
      ensures forall i :: 0 <= i < |ts| ==>
        ts[i] in rows && IsCurrent(rows, ts[i]) && ts[i].data.creatorUsername == username
    {
      var selected := Listing.Select(rows, CreatedBy(rows, username));
      ts := Listing.Page(Listing.SortBy(selected, TenderName), limit, offset);
    }

    /** Current published tenders whose type is one of `serviceTypes`, by name, then OFFSET and LIMIT. */
    method GetTenders(serviceTypes: seq<string>, limit: nat, offset: nat) returns (ts: seq<Tender>)
      ensures ts == Listing.Listed(rows, PublishedOfType(rows, serviceTypes), TenderName, limit, offset)
      ensures |ts| <= limit && Listing.SortedBy(ts, TenderName)
      ensures forall i :: 0 <= i < |ts| ==>
        && ts[i] in rows && IsCurrent(rows, ts[i])
        && ts[i].data.serviceType in serviceTypes && ts[i].data.status == Published
    {
      var selected := Listing.Select(rows, PublishedOfType(rows, serviceTypes));
      ts := Listing.Page(Listing.SortBy(selected, TenderName), limit, offset);
    }
  }
}
