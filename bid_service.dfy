/**
 * The bid service (internal/service/bid.go): error folding over the bid
 * table, and the decision that writes to either the tender table or the
 * bid table.
 */
module BidServices {
  import opened Wrappers
  import opened Errors
  import opened Versioning
  import opened Entity
  import TenderStore
  import opened BidStore
  import Listing

  /** The list response record of a bid: every column but the description and the tender. */
  datatype BidSummary = BidSummary(id: Id, name: string, status: string,
                                   authorType: string, authorId: Id, version: int)

  function Summary(b: Bid): (s: BidSummary)
    ensures s.id == b.id && s.version == b.version && s.name == b.data.name && s.status == b.data.status
    ensures s.authorType == b.data.authorType && s.authorId == b.data.authorId
  {
    BidSummary(b.id, b.data.name, b.data.status, b.data.authorType, b.data.authorId, b.version)
  }

  /** Copies a page of bids into response records, one per row, in order. */
  method Summaries(bs: seq<Bid>) returns (out: seq<BidSummary>)
    ensures |out| == |bs|
    ensures forall i :: 0 <= i < |bs| ==> out[i] == Summary(bs[i])
  {
    out := [];
    for i := 0 to |bs|
      invariant |out| == i
      invariant forall k :: 0 <= k < i ==> out[k] == Summary(bs[k])
    {
      out := out + [Summary(bs[i])];
    }
  }

  class BidService {
    const bids: BidRepo
    const tenders: TenderStore.TenderRepo

    constructor (bids: BidRepo, tenders: TenderStore.TenderRepo)
      ensures this.bids == bids && this.tenders == tenders
    {
      this.bids := bids;
      this.tenders := tenders;
    }

    method CreateBid(name: string, description: string, tenderId: Id,
                     authorType: string, authorId: Id) returns (r: Result<Bid, ServiceError>)
      requires bids.Valid()
      modifies bids
      ensures bids.Valid()
      ensures r.Ok? && r.value.version == InitialVersion && old(Current(bids.rows, r.value.id)).None?
      ensures r.value.data == BidData(name, description, tenderId, InitialStatus, authorType, authorId)
      ensures bids.rows == old(bids.rows) + [r.value]
    {
      var b := bids.CreateBid(name, description, tenderId, authorType, authorId);
      r := Ok(b);
    }

    /** The author's current bids, one page sorted by name, as response records. */
    method GetMyBids(authorId: Id, limit: nat, offset: nat) returns (r: Result<seq<BidSummary>, ServiceError>)
      ensures r.Ok?
      ensures var bs := Listing.Listed(bids.rows, AuthoredBy(bids.rows, authorId), BidName, limit, offset);
        |r.value| == |bs| && forall i :: 0 <= i < |bs| ==> r.value[i] == Summary(bs[i])
      ensures |r.value| <= limit
      ensures forall i :: 0 <= i < |r.value| ==> r.value[i].authorId == authorId
    {
      var bs := bids.GetMyBids(authorId, limit, offset);
      var out := Summaries(bs);
      r := Ok(out);
    }

    /** The current bid of `id`; any repository error is `ErrBidNotFound`. */
    method GetBidById(id: Id) returns (r: Result<Bid, ServiceError>)
      ensures r.Err? <==> Current(bids.rows, id).None?
      ensures r.Err? ==> r.error == ErrBidNotFound
      ensures r.Ok? ==> Some(r.value) == Current(bids.rows, id)
    {
      var found := bids.GetBidById(id);
      if found.Err? {
        r := Err(ErrBidNotFound);
      } else {
        r := Ok(found.value);
      }
    }

    /** The status of the current bid of `id`; any repository error is `ErrBidNotFound`. */
    method GetStatus(id: Id) returns (r: Result<string, ServiceError>)
      ensures r.Err? <==> Current(bids.rows, id).None?
      ensures r.Err? ==> r.error == ErrBidNotFound
      ensures r.Ok? ==> r.value == Current(bids.rows, id).value.data.status
    {
      var found := bids.GetBidById(id);
      if found.Err? {
        r := Err(ErrBidNotFound);
      } else {
        r := Ok(found.value.data.status);
      }
    }

    /** Overwrites the status of the current bid; a missing bid is `ErrBidNotFound`. */
    method PutStatus(id: Id, status: string) returns (r: Result<Bid, ServiceError>)
      requires bids.Valid()
      modifies bids
      ensures bids.Valid()
      ensures old(Current(bids.rows, id)).None? ==> r == Err(ErrBidNotFound) && bids.rows == old(bids.rows)
      ensures old(Current(bids.rows, id)).Some? ==>
        var b := old(Current(bids.rows, id)).value;
        && r == Ok(b.(data := b.data.(status := status)))
        && bids.rows == UpdateCurrent(old(bids.rows), id, SetStatus(status))
        && Current(bids.rows, id) == Some(r.value)
    {
      var updated := bids.PutStatus(id, status);
      match updated
      case Err(NotFound) =>
        r := Err(ErrBidNotFound);
      case Err(_) =>
        r := Err(ErrCannotPutStatus);
      case Ok(b) =>
        r := Ok(b);
    }

    /** Appends an edited copy of the current bid; a missing bid is `ErrBidNotFound`. */
    method EditBid(id: Id, name: string, description: string) returns (r: Result<Bid, ServiceError>)
      requires bids.Valid()
      modifies bids
      ensures bids.Valid()
      ensures old(Current(bids.rows, id)).None? ==> r == Err(ErrBidNotFound) && bids.rows == old(bids.rows)
      ensures old(Current(bids.rows, id)).Some? ==>
        var cur := old(Current(bids.rows, id)).value;
        && r == Ok(Row(id, cur.version + 1, cur.data.(
             name := Override(name, cur.data.name),
             description := Override(description, cur.data.description))))
        && bids.rows == old(bids.rows) + [r.value]
    {
      var edited := bids.EditBid(id, name, description);
      match edited
      case Err(NotFound) =>
        r := Err(ErrBidNotFound);
      case Err(_) =>
        r := Err(ErrCannotEditBid);
      case Ok(b) =>
        r := Ok(b);
    }

    /**
     * Rolls back to `(id, version)`: a missing version is
     * `ErrVersionNotFound`. The service would also map `NotFound` to
     * `ErrBidNotFound`, but the bid repository never reports it here.
     */
    method RollbackVersion(id: Id, version: int) returns (r: Result<Bid, ServiceError>)
      requires bids.Valid()
      modifies bids
      ensures bids.Valid()
      ensures old(RollbackRow(bids.rows, id, version)).None? ==> r == Err(ErrVersionNotFound) && bids.rows == old(bids.rows)
      ensures old(RollbackRow(bids.rows, id, version)).Some? ==>
        r == Ok(old(RollbackRow(bids.rows, id, version)).value) && bids.rows == old(bids.rows) + [r.value]
    {
      var rolled := bids.RollbackVersion(id, version);
      match rolled
      case Err(VersionNotFound) =>
        r := Err(ErrVersionNotFound);
      case Ok(b) =>
        r := Ok(b);
    }

    /**
     * The decision on a bid. "Approved" closes the tender `tenderId` (its
     * current row, in place) and returns the bid untouched; a missing bid
     * stops before any write, a missing tender is `ErrTenderNotFound`. Any
     * other decision cancels the bid instead and leaves the tenders alone.
     */
    method SubmitDecision(tenderId: Id, bidId: Id, decision: string) returns (r: Result<Bid, ServiceError>)
      requires bids.Valid() && tenders.Valid()
      modifies bids, tenders
      ensures bids.Valid() && tenders.Valid()
      ensures decision == Approved ==>
        && bids.rows == old(bids.rows)
        && (old(Current(bids.rows, bidId)).None? ==> r == Err(ErrBidNotFound) && tenders.rows == old(tenders.rows))
        && (old(Current(bids.rows, bidId)).Some? && old(Current(tenders.rows, tenderId)).None? ==>
              r == Err(ErrTenderNotFound) && tenders.rows == old(tenders.rows))
        && (old(Current(bids.rows, bidId)).Some? && old(Current(tenders.rows, tenderId)).Some? ==>
              && r == Ok(old(Current(bids.rows, bidId)).value)
              && tenders.rows == UpdateCurrent(old(tenders.rows), tenderId, TenderStore.SetStatus(Closed))
              && Current(tenders.rows, tenderId).Some?
              && Current(tenders.rows, tenderId).value.data.status == Closed)
      ensures decision != Approved ==>
        && tenders.rows == old(tenders.rows)
        && (old(Current(bids.rows, bidId)).None? ==> r == Err(ErrBidNotFound) && bids.rows == old(bids.rows))
        && (old(Current(bids.rows, bidId)).Some? ==>
              && r.Ok? && r.value.data.status == Canceled
              && bids.rows == UpdateCurrent(old(bids.rows), bidId, SetStatus(Canceled))
              && Current(bids.rows, bidId) == Some(r.value))
    {
      if decision == Approved {
        var found := bids.GetBidById(bidId);
        if found.Err? {
          r := Err(ErrBidNotFound);
          return;
        }
        var closed := tenders.PutStatus(tenderId, Closed);
        if closed.Err? {
          r := Err(ErrTenderNotFound);
          return;
        }
        r := Ok(found.value);
      } else {
        var canceled := bids.PutStatus(bidId, Canceled);
        if canceled.Err? {
          r := Err(ErrBidNotFound);
          return;
        }
        r := Ok(canceled.value);
      }
    }
  }
}
