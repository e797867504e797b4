/**
 * The tender service (internal/service/tender.go): the creator check on
 * status reads and writes, and the folding of repository errors into the
 * service's fixed error set.
 */
module TenderServices {
  import opened Wrappers
  import opened Errors
  import opened Versioning
  import opened Entity
  import opened TenderStore

  /** The list response record of a tender: every column but the creator. */
  datatype TenderSummary = TenderSummary(id: Id, name: string, description: string, status: string,
                                         serviceType: string, organizationId: Id, version: int)

  function Summary(t: Tender): (s: TenderSummary)
    ensures s.id == t.id && s.version == t.version && s.name == t.data.name && s.status == t.data.status
  {
    TenderSummary(t.id, t.data.name, t.data.description, t.data.status,
                  t.data.serviceType, t.data.organizationId, t.version)
  }

  /** Copies a page of tenders into response records, one per row, in order. */
  method Summaries(ts: seq<Tender>) returns (out: seq<TenderSummary>)
    ensures |out| == |ts|
    ensures forall i :: 0 <= i < |ts| ==> out[i] == Summary(ts[i])
  {
    out := [];
    for i := 0 to |ts|
      invariant |out| == i
      invariant forall k :: 0 <= k < i ==> out[k] == Summary(ts[k])
    {
      out := out + [Summary(ts[i])];
    }
  }

  class TenderService {
    const repo: TenderRepo

    constructor (repo: TenderRepo)
      ensures this.repo == repo
    {
      this.repo := repo;
    }

    method CreateTender(name: string, description: string, serviceType: string,
                        organizationId: Id, creatorUsername: string) returns (r: Result<Tender, ServiceError>)
      requires repo.Valid()
      modifies repo
      ensures repo.Valid()
      ensures r.Ok? && r.value.version == InitialVersion && old(Current(repo.rows, r.value.id)).None?
      ensures r.value.data == TenderData(name, description, serviceType, InitialStatus, organizationId, creatorUsername)
      ensures repo.rows == old(repo.rows) + [r.value]
    {
      var t := repo.CreateTender(name, description, serviceType, organizationId, creatorUsername);
      r := Ok(t);
    }

    /** The caller's own current tenders, one page sorted by name, as response records. */
    method GetMyTenders(username: string, limit: nat, offset: nat) returns (r: Result<seq<TenderSummary>, ServiceError>)
      ensures r.Ok?
      ensures var ts := Listing.Listed(repo.rows, CreatedBy(repo.rows, username), TenderName, limit, offset);
        |r.value| == |ts| && forall i :: 0 <= i < |ts| ==> r.value[i] == Summary(ts[i])
      ensures |r.value| <= limit
    {
      var ts := repo.GetMyTenders(username, limit, offset);
      var out := Summaries(ts);
      r := Ok(out);
    }

    /** Published current tenders of the given service types, one page sorted by name, as response records. */
    method GetTenders(serviceTypes: seq<string>, limit: nat, offset: nat) returns (r: Result<seq<TenderSummary>, ServiceError>)
      ensures r.Ok?
      ensures var ts := Listing.Listed(repo.rows, PublishedOfType(repo.rows, serviceTypes), TenderName, limit, offset);
        |r.value| == |ts| && forall i :: 0 <= i < |ts| ==> r.value[i] == Summary(ts[i])
      ensures |r.value| <= limit
      ensures forall i :: 0 <= i < |r.value| ==>
        r.value[i].serviceType in serviceTypes && r.value[i].status == Published
    {
      var ts := repo.GetTenders(serviceTypes, limit, offset);
      var out := Summaries(ts);
      r := Ok(out);
    }

    /**
     * The status of the current tender, to its creator only: a missing
     * tender is `ErrTenderNotFound`, anyone but the creator gets
     * `ErrPermissionDenied`.
     */
    method GetStatus(id: Id, username: string) returns (r: Result<string, ServiceError>)
      ensures Current(repo.rows, id).None? ==> r == Err(ErrTenderNotFound)
      ensures Current(repo.rows, id).Some? ==>
        var t := Current(repo.rows, id).value;
        if t.data.creatorUsername != username then r == Err(ErrPermissionDenied)
        else r == Ok(t.data.status)
    {
      var found := repo.GetTenderById(id);
      if found.Err? {
        if found.error == NotFound {
          r := Err(ErrTenderNotFound);
        } else {
          r := Err(ErrCannotGetStatus);
        }
      } else if found.value.data.creatorUsername != username {
        r := Err(ErrPermissionDenied);
      } else {
        r := Ok(found.value.data.status);
      }
    }

    /**
     * Sets the status of the current tender, for its creator only. The
     * lookup and the creator check come before the write, so a missing
     * tender or a denied caller leaves the table as it was. On success the
     * row keeps its version.
     */
    method PutStatus(id: Id, username: string, status: string) returns (r: Result<Tender, ServiceError>)
      requires repo.Valid()
      modifies repo
      ensures repo.Valid()
      ensures old(Current(repo.rows, id)).None? ==> r == Err(ErrTenderNotFound) && repo.rows == old(repo.rows)
      ensures old(Current(repo.rows, id)).Some? ==>
        var t := old(Current(repo.rows, id)).value;
        if t.data.creatorUsername != username then
          r == Err(ErrPermissionDenied) && repo.rows == old(repo.rows)
        else
          && r == Ok(t.(data := t.data.(status := status)))
          && r.value.version == t.version
          && repo.rows == UpdateCurrent(old(repo.rows), id, SetStatus(status))
          && Current(repo.rows, id) == Some(r.value)
    {
      var found := repo.GetTenderById(id);
      if found.Err? {
        if found.error == NotFound {
          r := Err(ErrTenderNotFound);
        } else {
          r := Err(ErrCannotPutStatus);
        }
        return;
      }
      if found.value.data.creatorUsername != username {
        r := Err(ErrPermissionDenied);
        return;
      }
      var updated := repo.PutStatus(id, status);
      match updated
      case Err(NotFound) =>
        r := Err(ErrTenderNotFound);
      case Err(_) =>
        r := Err(ErrCannotPutStatus);
      case Ok(t) =>
        r := Ok(t);
    }

    /**
     * Edits the current tender (no permission check here): a missing tender
     * is `ErrTenderNotFound`; otherwise the new version the repository
     * appended.
     */
    method EditTender(id: Id, name: string, description: string, serviceType: string)
      returns (r: Result<Tender, ServiceError>)
      requires repo.Valid()
      modifies repo
      ensures repo.Valid()
      ensures old(Current(repo.rows, id)).None? ==> r == Err(ErrTenderNotFound) && repo.rows == old(repo.rows)
      ensures old(Current(repo.rows, id)).Some? ==>
        var cur := old(Current(repo.rows, id)).value;
        && r == Ok(Row(id, cur.version + 1, cur.data.(
             name := Override(name, cur.data.name),
             description := Override(description, cur.data.description),
             serviceType := Override(serviceType, cur.data.serviceType))))
        && repo.rows == old(repo.rows) + [r.value]
    {
      var edited := repo.EditTender(id, name, description, serviceType);
      if edited.Err? {
        if edited.error == NotFound {
          r := Err(ErrTenderNotFound);
        } else {
          r := Err(ErrCannotEditTender);
        }
      } else {
        r := Ok(edited.value);
      }
    }

    /**
     * Rolls back to `(id, version)`: the repository's `NotFound` (a missing
     * version) becomes `ErrTenderNotFound`, its `VersionNotFound` becomes
     * `ErrVersionNotFound`; otherwise the clone at the next version.
     */
    method RollbackVersion(id: Id, version: int) returns (r: Result<Tender, ServiceError>)
      requires repo.Valid()
      modifies repo
      ensures repo.Valid()
      ensures old(RollbackRow(repo.rows, id, version)).None? ==> r == Err(ErrTenderNotFound) && repo.rows == old(repo.rows)
      ensures old(RollbackRow(repo.rows, id, version)).Some? ==>
        r == Ok(old(RollbackRow(repo.rows, id, version)).value) && repo.rows == old(repo.rows) + [r.value]
    {
      var rolled := repo.RollbackVersion(id, version);
      match rolled
      case Err(NotFound) =>
        r := Err(ErrTenderNotFound);
      case Err(VersionNotFound) =>
        r := Err(ErrVersionNotFound);
      case Ok(t) =>
        r := Ok(t);
    }

    /** The current tender of `id`; any repository error is `ErrTenderNotFound`. */
    method GetTenderById(id: Id) returns (r: Result<Tender, ServiceError>)
      ensures r.Err? <==> Current(repo.rows, id).None?
      ensures r.Err? ==> r.error == ErrTenderNotFound
      ensures r.Ok? ==> Some(r.value) == Current(repo.rows, id)
    {
      var found := repo.GetTenderById(id);
      if found.Err? {
        r := Err(ErrTenderNotFound);
      } else {
        r := Ok(found.value);
      }
    }
  }
}
