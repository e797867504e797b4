/**
 * The bid endpoints (internal/controllers/http/v1/bid.go) as far as they
 * decide anything: input acceptance, the access checks in front of every
 * call, and the service call they guard. Binding, response bodies and the
 * HTTP layer are not modelled; a refusal stands for the status code sent.
 */
module BidHandlers {
  import opened Wrappers
  import opened Errors
  import opened Versioning
  import opened Entity
  import TenderStore
  import BidStore
  import opened TenderServices
  import opened BidServices
  import opened EditValidation
  import opened BidAccess

  class BidRoutes {
    const bidService: BidService
    const tenderService: TenderService

    constructor (bidService: BidService, tenderService: TenderService)
      ensures this.bidService == bidService && this.tenderService == tenderService
    {
      this.bidService := bidService;
      this.tenderService := tenderService;
    }

    /**
     * The creation endpoint: the creation checks, then the insert. The new bid is
     * open to its author through the author-type switch.
     */
    method Create(name: string, description: string, tenderId: Id, authorType: string, authorId: Id,
                  dir: Directory) returns (r: Result<Bid, Refusal>)
      requires bidService.bids.Valid()
      modifies bidService.bids
      ensures bidService.bids.Valid()
      ensures CheckCreateBid(name, description, authorType, authorId, dir).Some? ==>
        && r == Err(CheckCreateBid(name, description, authorType, authorId, dir).value)
        && bidService.bids.rows == old(bidService.bids.rows)
      ensures CheckCreateBid(name, description, authorType, authorId, dir).None? ==>
        && r.Ok?
        && r.value.data == BidData(name, description, tenderId, InitialStatus, authorType, authorId)
        && bidService.bids.rows == old(bidService.bids.rows) + [r.value]
        && MayActOn(r.value.data, authorId, dir.organizationOf)
    {
      if !CreateInputAccepted(name, description, authorType) {
        r := Err(BadRequest);
        return;
      }
      if authorId !in dir.employees {
        r := Err(Unauthorized);
        return;
      }
      if authorType == OrganizationAuthor && authorId !in dir.organizationOf {
        r := Err(Forbidden);
        return;
      }
      var created := bidService.CreateBid(name, description, tenderId, authorType, authorId);
      match created
      case Err(_) =>
        r := Err(InternalError);
      case Ok(bid) =>
        CreatedBidOpenToAuthor(name, description, tenderId, authorType, authorId, dir);
        r := Ok(bid);
    }

    /** The status read: the access checks, then the current status. */
    method GetStatus(bidId: Id, username: string, dir: Directory) returns (r: Result<string, Refusal>)
      ensures !UsernameAccepted(username) ==> r == Err(BadRequest)
      ensures UsernameAccepted(username) ==>
        var access := CheckBidAccess(bidService.bids.rows, bidId, username, dir);
        && (access.Err? ==> r == Err(access.error))
        && (access.Ok? ==> r == Ok(access.value.data.status))
    {
      if !UsernameAccepted(username) {
        r := Err(BadRequest);
        return;
      }
      var found := bidService.GetBidById(bidId);
      if found.Err? {
        r := Err(Refusal.NotFound);
        return;
      }
      var denied := AuthorizeActor(found.value.data, username, dir);
      if denied.Some? {
        r := Err(denied.value);
        return;
      }
      var status := bidService.GetStatus(bidId);
      match status
      case Err(ErrBidNotFound) =>
        r := Err(Refusal.NotFound);
      case Err(_) =>
        r := Ok("");
      case Ok(s) =>
        r := Ok(s);
    }

    /**
     * The status write: an accepted status, the access checks, then
     * the in-place status write. A refused request changes nothing.
     */
    method PutStatus(bidId: Id, username: string, status: string, dir: Directory) returns (r: Result<Bid, Refusal>)
      requires bidService.bids.Valid()
      modifies bidService.bids
      ensures bidService.bids.Valid()
      ensures !(UsernameAccepted(username) && BidStatusAccepted(status)) ==>
        r == Err(BadRequest) && bidService.bids.rows == old(bidService.bids.rows)
      ensures UsernameAccepted(username) && BidStatusAccepted(status) ==>
        var access := old(CheckBidAccess(bidService.bids.rows, bidId, username, dir));
        && (access.Err? ==> r == Err(access.error) && bidService.bids.rows == old(bidService.bids.rows))
        && (access.Ok? ==>
              && r == Ok(access.value.(data := access.value.data.(status := status)))
              && bidService.bids.rows == UpdateCurrent(old(bidService.bids.rows), bidId, BidStore.SetStatus(status)))
    {
      if !(UsernameAccepted(username) && BidStatusAccepted(status)) {
        r := Err(BadRequest);
        return;
      }
      var found := bidService.GetBidById(bidId);
      if found.Err? {
        r := Err(Refusal.NotFound);
        return;
      }
      var denied := AuthorizeActor(found.value.data, username, dir);
      if denied.Some? {
        r := Err(denied.value);
        return;
      }
      var updated := bidService.PutStatus(bidId, status);
      match updated
      case Err(ErrTenderNotFound) =>
        r := Err(Refusal.NotFound);
      case Err(ErrPermissionDenied) =>
        r := Err(Forbidden);
      case Err(_) =>
        r := Err(InternalError);
      case Ok(bid) =>
        r := Ok(bid);
    }

    /**
     * The edit endpoint: the edit validator, the access checks, then a
     * new version in which every field that was sent replaces the stored
     * one and every other column is carried over.
     */
    method EditBid(bidId: Id, username: string, name: Option<string>, description: Option<string>,
                   dir: Directory) returns (r: Result<Bid, Refusal>)
      requires bidService.bids.Valid()
      modifies bidService.bids
      ensures bidService.bids.Valid()
      ensures !(UsernameAccepted(username) && EditTenderValidate(name, description).None?) ==>
        r == Err(BadRequest) && bidService.bids.rows == old(bidService.bids.rows)
      ensures UsernameAccepted(username) && EditTenderValidate(name, description).None? ==>
        var access := old(CheckBidAccess(bidService.bids.rows, bidId, username, dir));
        && (access.Err? ==> r == Err(access.error) && bidService.bids.rows == old(bidService.bids.rows))
        && (access.Ok? ==>
              var cur := access.value;
              && r.Ok?
              && r.value.id == bidId && r.value.version == cur.version + 1
              && r.value.data.name == (if name.None? then cur.data.name else name.value)
              && r.value.data.description == (if description.None? then cur.data.description else description.value)
              && r.value.data.(name := cur.data.name, description := cur.data.description) == cur.data
              && bidService.bids.rows == old(bidService.bids.rows) + [r.value])
    {
      if !UsernameAccepted(username) {
        r := Err(BadRequest);
        return;
      }
      if EditTenderValidate(name, description).Some? {
        r := Err(BadRequest);
        return;
      }
      var found := bidService.GetBidById(bidId);
      if found.Err? {
        r := Err(Refusal.NotFound);
        return;
      }
      var denied := AuthorizeActor(found.value.data, username, dir);
      if denied.Some? {
        r := Err(denied.value);
        return;
      }
      var cur := found.value;
      EditFieldSemantics(name, description, cur.data.name, name);
      EditFieldSemantics(name, description, cur.data.description, description);
      var edited := bidService.EditBid(bidId, EditArgument(name), EditArgument(description));
      match edited
      case Err(ErrTenderNotFound) =>
        r := Err(Refusal.NotFound);
      case Err(ErrPermissionDenied) =>
        r := Err(Forbidden);
      case Err(_) =>
        r := Err(InternalError);
      case Ok(bid) =>
        r := Ok(bid);
    }

    /**
     * The rollback endpoint: a version of at least 1, the
     * access checks, then a copy of that version appended as the newest.
     * A version the bid never had is 404 and changes nothing.
     */
    method Rollback(bidId: Id, version: int, username: string, dir: Directory) returns (r: Result<Bid, Refusal>)
      requires bidService.bids.Valid()
      modifies bidService.bids
      ensures bidService.bids.Valid()
      ensures !(UsernameAccepted(username) && RollbackVersionAccepted(version)) ==>
        r == Err(BadRequest) && bidService.bids.rows == old(bidService.bids.rows)
      ensures UsernameAccepted(username) && RollbackVersionAccepted(version) ==>
        var access := old(CheckBidAccess(bidService.bids.rows, bidId, username, dir));
        var row := old(RollbackRow(bidService.bids.rows, bidId, version));
        && (access.Err? ==> r == Err(access.error) && bidService.bids.rows == old(bidService.bids.rows))
        && (access.Ok? && row.None? ==> r == Err(Refusal.NotFound) && bidService.bids.rows == old(bidService.bids.rows))
        && (access.Ok? && row.Some? ==> r == Ok(row.value) && bidService.bids.rows == old(bidService.bids.rows) + [r.value])
    {
      if !(UsernameAccepted(username) && RollbackVersionAccepted(version)) {
        r := Err(BadRequest);
        return;
      }
      var found := bidService.GetBidById(bidId);
      if found.Err? {
        r := Err(Refusal.NotFound);
        return;
      }
      var denied := AuthorizeActor(found.value.data, username, dir);
      if denied.Some? {
        r := Err(denied.value);
        return;
      }
      var rolled := bidService.RollbackVersion(bidId, version);
      match rolled
      case Err(ErrPermissionDenied) =>
        r := Err(Forbidden);
      case Err(ErrVersionNotFound) =>
        r := Err(Refusal.NotFound);
      case Err(ErrBidNotFound) =>
        r := Err(Refusal.NotFound);
      case Err(_) =>
        r := Err(InternalError);
      case Ok(bid) =>
        r := Ok(bid);
    }

    /**
     * The decision endpoint: an accepted decision, the decision
     * checks, then the decision on the bid's own tender. Approval closes
     * that tender and leaves the bid as it was; rejection cancels the bid
     * and leaves the tender as it was.
     */
    method SubmitDecision(bidId: Id, decision: string, username: string, dir: Directory) returns (r: Result<Bid, Refusal>)
      requires bidService.bids.Valid() && bidService.tenders.Valid()
      requires tenderService.repo == bidService.tenders
      modifies bidService.bids, bidService.tenders
      ensures bidService.bids.Valid() && bidService.tenders.Valid()
      ensures !(UsernameAccepted(username) && DecisionAccepted(decision)) ==>
        && r == Err(BadRequest)
        && bidService.bids.rows == old(bidService.bids.rows)
        && bidService.tenders.rows == old(bidService.tenders.rows)
      ensures UsernameAccepted(username) && DecisionAccepted(decision) ==>
        var gate := old(CheckDecisionAccess(bidService.bids.rows, bidService.tenders.rows, bidId, username, dir));
        && (gate.Err? ==>
              && r == Err(gate.error)
              && bidService.bids.rows == old(bidService.bids.rows)
              && bidService.tenders.rows == old(bidService.tenders.rows))
        && (gate.Ok? && decision == Approved ==>
              && r == Ok(gate.value.0)
              && bidService.bids.rows == old(bidService.bids.rows)
              && bidService.tenders.rows
                 == UpdateCurrent(old(bidService.tenders.rows), gate.value.1.id, TenderStore.SetStatus(Closed)))
        && (gate.Ok? && decision != Approved ==>
              && r.Ok? && r.value.data.status == Canceled
              && bidService.bids.rows == UpdateCurrent(old(bidService.bids.rows), bidId, BidStore.SetStatus(Canceled))
              && bidService.tenders.rows == old(bidService.tenders.rows))
    {
      if !(UsernameAccepted(username) && DecisionAccepted(decision)) {
        r := Err(BadRequest);
        return;
      }
      var found := bidService.GetBidById(bidId);
      if found.Err? {
        r := Err(Refusal.NotFound);
        return;
      }
      var bid := found.value;
      if username !in dir.idByUsername {
        r := Err(Unauthorized);
        return;
      }
      var actor := dir.idByUsername[username];
      var tender := tenderService.GetTenderById(bid.data.tenderId);
      if tender.Err? {
        r := Err(Refusal.NotFound);
        return;
      }
      if actor !in dir.organizationOf {
        r := Err(Forbidden);
        return;
      }
      if dir.organizationOf[actor] != tender.value.data.organizationId {
        r := Err(Forbidden);
        return;
      }
      var decided := bidService.SubmitDecision(bid.data.tenderId, bid.id, decision);
      match decided
      case Err(_) =>
        r := Err(InternalError);
      case Ok(b) =>
        r := Ok(b);
    }
  }
}
