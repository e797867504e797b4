/**
 * The `bid` table and its repository (internal/repo/pgdb/bid.go), with the
 * database replaced by an in-memory sequence of rows. The table discipline
 * is the tender table's; the error each operation reports differs.
 */
module BidStore {
  import opened Wrappers
  import opened Errors
  import opened Versioning
  import opened Entity
  import Listing

  /** The payload rewrite of `UPDATE bid SET status = $1`. */
  function SetStatus(status: string): BidData -> BidData {
    (d: BidData) => d.(status := status)
  }

  /** The filter of `GetMyBids`: current rows whose author is `authorId`. */
  function AuthoredBy(rows: seq<Bid>, authorId: Id): (p: Bid -> bool)
    ensures forall b :: p(b) <==> IsCurrent(rows, b) && b.data.authorId == authorId
  {
    (b: Bid) => IsCurrent(rows, b) && b.data.authorId == authorId
  }

  class BidRepo {
    /** The rows of the `bid` table, in insertion order. */
    var rows: seq<Bid>
    /** The id the database default hands to the next created bid. */
    var nextId: Id

    ghost predicate Valid()
      reads this
    {
      WellFormed(rows) && IdsBelow(rows, nextId)
    }

    constructor ()
      ensures Valid() && rows == []
    {
      rows := [];
      nextId := 0;
    }

    /** INSERT of a new bid: a fresh id, version 1, status "Created". */
    method CreateBid(name: string, description: string, tenderId: Id,
                     authorType: string, authorId: Id) returns (b: Bid)
      requires Valid()
      modifies this
      ensures Valid()
      ensures nextId == old(nextId) + 1
      ensures old(Current(rows, b.id)).None?
      ensures b == Row(b.id, InitialVersion,
        BidData(name, description, tenderId, InitialStatus, authorType, authorId))
      ensures rows == old(rows) + [b]
    {
      b := Row(nextId, InitialVersion,
        BidData(name, description, tenderId, InitialStatus, authorType, authorId));
      AppendIdsBelow(rows, b, nextId, nextId + 1);
      rows := rows + [b];
      nextId := nextId + 1;
    }

    /** The current bid of `id`; a missing id is a wrapped error, not `NotFound`. */
    method GetBidById(id: Id) returns (r: Result<Bid, RepoError>)
      ensures r.Err? <==> forall i :: 0 <= i < |rows| ==> rows[i].id != id
      ensures r.Err? ==> r.error == Wrapped
      ensures r.Ok? ==> Current(rows, id) == Some(r.value) && r.value.id == id && r.value in rows
      ensures r.Ok? ==> forall i :: 0 <= i < |rows| && rows[i].id == id ==> rows[i].version <= r.value.version
    {
      var b := Current(rows, id);
      if b.None? {
        r := Err(Wrapped);
      } else {
        r := Ok(b.value);
      }
    }

    /**
     * Overwrites the status of the current row in place: no row is appended
     * and no version changes. `NotFound` when the id has no row.
     */
    method PutStatus(id: Id, status: string) returns (r: Result<Bid, RepoError>)
      requires Valid()
      modifies this
      ensures Valid()
      ensures nextId == old(nextId)
      ensures old(Current(rows, id)).None? ==> r == Err(NotFound) && rows == old(rows)
      ensures old(Current(rows, id)).Some? ==>
        && r == Ok(old(Current(rows, id)).value.(data := old(Current(rows, id)).value.data.(status := status)))
        && rows == UpdateCurrent(old(rows), id, SetStatus(status))
        && Current(rows, id) == Some(r.value)
      ensures |rows| == |old(rows)|
      ensures forall x :: MaxVersion(rows, x) == old(MaxVersion(rows, x))
      ensures forall x :: x != id ==> Current(rows, x) == old(Current(rows, x))
    {
      var cur := Current(rows, id);
      UpdateCurrentFacts(rows, id, SetStatus(status));
      if cur.None? {
        r := Err(NotFound);
      } else {
        rows := UpdateCurrent(rows, id, SetStatus(status));
        r := Ok(cur.value.(data := cur.value.data.(status := status)));
      }
    }

    /**
     * Appends a copy of the current row at the next version, with a
     * non-empty name or description replacing its column; tender, status
     * and author are carried over. `NotFound` and no insert when the id has
     * no row.
     */
    method EditBid(id: Id, name: string, description: string) returns (r: Result<Bid, RepoError>)
      requires Valid()
      modifies this
      ensures Valid()
      ensures nextId == old(nextId)
      ensures old(Current(rows, id)).None? ==> r == Err(NotFound) && rows == old(rows)
      ensures old(Current(rows, id)).Some? ==>
        var cur := old(Current(rows, id)).value;
        && r == Ok(Row(id, cur.version + 1, cur.data.(
             name := Override(name, cur.data.name),
             description := Override(description, cur.data.description))))
        && rows == old(rows) + [r.value]
    {
      var cur := Current(rows, id);
      if cur.None? {
        r := Err(NotFound);
      } else {
        var b := cur.value;
        var data := b.data.(name := Override(name, b.data.name),
          description := Override(description, b.data.description));
        var row := Row(id, b.version + 1, data);
        ghost var k :| 0 <= k < |rows| && rows[k] == b;
        AppendWellFormed(rows, row);
        AppendIdsBelow(rows, row, nextId, nextId);
        rows := rows + [row];
        r := Ok(row);
      }
    }

    /**
     * Appends a copy of row `(id, version)` at the id's maximum version plus
     * one (`RollbackRow`). A missing `(id, version)` is `VersionNotFound`
     * and inserts nothing.
     */
    method RollbackVersion(id: Id, version: int) returns (r: Result<Bid, RepoError>)
      requires Valid()
      modifies this
      ensures Valid()
      ensures nextId == old(nextId)
      ensures old(RollbackRow(rows, id, version)).None? ==> r == Err(VersionNotFound) && rows == old(rows)
      ensures old(RollbackRow(rows, id, version)).Some? ==>
        r == Ok(old(RollbackRow(rows, id, version)).value) && rows == old(rows) + [r.value]
    {
      var target := RowAt(rows, id, version);
      if target.None? {
        r := Err(VersionNotFound);
      } else {
        var lastV := MaxVersion(rows, id);
        if lastV.None? {
          r := Err(VersionNotFound);
        } else {
          var row := Row(id, lastV.value + 1, target.value.data);
          ghost var k :| 0 <= k < |rows| && rows[k] == target.value;
          AppendWellFormed(rows, row);
          AppendIdsBelow(rows, row, nextId, nextId);
          rows := rows + [row];
          r := Ok(row);
        }
      }
    }

    /** Current bids authored by `authorId`, by name, then OFFSET and LIMIT. */
    method GetMyBids(authorId: Id, limit: nat, offset: nat) returns (bs: seq<Bid>)
      ensures bs == Listing.Listed(rows, AuthoredBy(rows, authorId), BidName, limit, offset)
      ensures |bs| <= limit && Listing.SortedBy(bs, BidName)
      ensures forall i :: 0 <= i < |bs| ==>
        bs[i] in rows && IsCurrent(rows, bs[i]) && bs[i].data.authorId == authorId
    {
      var selected := Listing.Select(rows, AuthoredBy(rows, authorId));
      bs := Listing.Page(Listing.SortBy(selected, BidName), limit, offset);
    }
  }
}
