/**
 * The access decisions of the bid handlers
 * (internal/controllers/http/v1/bid.go), lifted out of the handlers as
 * functions of the looked-up rows: who may act on a bid, who may decide on
 * it, who may create one, which inputs are accepted, and how an omitted
 * edit field reaches the service.
 */
module BidAccess {
  import opened Wrappers
  import opened Versioning
  import opened Entity
  import opened EditValidation

  /**
   * The employee tables as the handlers query them: the id of each
   * username, the employee ids, and the organization each responsible
   * employee stands for.
   */
  datatype Directory = Directory(
    idByUsername: map<string, Id>,
    employees: set<Id>,
    organizationOf: map<Id, Id>)

  /** Why a request is refused, one per HTTP status the handlers answer with. */
  datatype Refusal =
    | BadRequest     // 400
    | Unauthorized   // 401
    | Forbidden      // 403
    | NotFound       // 404
    | InternalError  // 500

  // ---------------------------------------------------------------------
  // Accepted inputs
  // ---------------------------------------------------------------------

  /** A username must be sent and not be empty. */
  predicate UsernameAccepted(username: string) {
    username != ""
  }

  /** The statuses a bid may be set to through the status endpoint; a decision is not one of them. */
  function BidStatusAccepted(status: string): (ok: bool)
    ensures ok <==> status in {InitialStatus, Published, Canceled}
    ensures ok ==> status != Approved && status != Rejected && status != Closed
  {
    status == InitialStatus || status == Published || status == Canceled
  }

  /** The decisions the decision endpoint takes; neither is a status the status endpoint takes. */
  function DecisionAccepted(decision: string): (ok: bool)
    ensures ok <==> decision in {Approved, Rejected}
    ensures ok ==> !BidStatusAccepted(decision)
  {
    decision == Approved || decision == Rejected
  }

  /** A rollback target must be a version a row can carry. */
  function RollbackVersionAccepted(version: int): (ok: bool)
    ensures ok <==> version >= InitialVersion
  {
    version >= 1
  }

  predicate AuthorTypeAccepted(authorType: string) {
    authorType == UserAuthor || authorType == OrganizationAuthor
  }

  /**
   * A new bid needs a name of at most 100 characters, a description of at
   * most 500, and a known author type. Such a name and description, sent
   * again as an edit, also pass the edit validator.
   */
  function CreateInputAccepted(name: string, description: string, authorType: string): (ok: bool)
    ensures ok <==> 0 < |name| <= 100 && 0 < |description| <= 500 && authorType in {UserAuthor, OrganizationAuthor}
    ensures ok ==> EditTenderValidate(Some(name), Some(description)).None?
  {
    && name != "" && |name| <= 100
    && description != "" && |description| <= 500
    && AuthorTypeAccepted(authorType)
  }

  // ---------------------------------------------------------------------
  // Acting on an existing bid
  // ---------------------------------------------------------------------

  /**
   * The author-type switch: a bid written by a user may be handled by that
   * employee only; a bid written for an organization by any employee who is
   * responsible for the same organization as its author. The switch has no
   * default case, so a bid of any other author type is open to every known
   * employee. The author may always act on their own bid, except on an
   * organization bid while responsible for no organization.
   */
  function MayActOn(bid: BidData, actor: Id, organizationOf: map<Id, Id>): (ok: bool)
    ensures actor == bid.authorId && (bid.authorType == OrganizationAuthor ==> actor in organizationOf) ==> ok
    ensures !AuthorTypeAccepted(bid.authorType) ==> ok
  {
    if bid.authorType == UserAuthor then
      bid.authorId == actor
    else if bid.authorType == OrganizationAuthor then
      actor in organizationOf && bid.authorId in organizationOf
      && organizationOf[actor] == organizationOf[bid.authorId]
    else
      true
  }

  /** The author of a user bid is the only one who may act on it. */
  lemma UserBidBelongsToAuthor(bid: BidData, actor: Id, organizationOf: map<Id, Id>)
    requires bid.authorType == UserAuthor
    ensures MayActOn(bid, actor, organizationOf) <==> actor == bid.authorId
  {
  }

  /**
   * On an organization bid, acting is shared by the author's organization:
   * an employee responsible for the same organization as the author may
   * act and one responsible for another may not; an employee responsible
   * for none, or any employee when the author is responsible for none, is
   * refused; two employees of one organization are both allowed or both
   * refused.
   */
  lemma OrganizationBidIsShared(bid: BidData, a: Id, b: Id, organizationOf: map<Id, Id>)
    requires bid.authorType == OrganizationAuthor
    ensures a in organizationOf && bid.authorId in organizationOf ==>
      (MayActOn(bid, a, organizationOf) <==> organizationOf[a] == organizationOf[bid.authorId])
    ensures a !in organizationOf ==> !MayActOn(bid, a, organizationOf)
    ensures bid.authorId !in organizationOf ==> !MayActOn(bid, a, organizationOf)
    ensures a in organizationOf && b in organizationOf && organizationOf[a] == organizationOf[b] ==>
      (MayActOn(bid, a, organizationOf) <==> MayActOn(bid, b, organizationOf))
  {
  }

  /**
   * The employee part of those checks: the username must be an employee
   * (401) who passes the author-type switch (403).
   */
  function AuthorizeActor(bid: BidData, username: string, dir: Directory): (r: Option<Refusal>)
    ensures r.None? <==> username in dir.idByUsername && MayActOn(bid, dir.idByUsername[username], dir.organizationOf)
    ensures username !in dir.idByUsername ==> r == Some(Unauthorized)
    ensures username in dir.idByUsername && r.Some? ==> r == Some(Forbidden)
  {
    if username !in dir.idByUsername then Some(Unauthorized)
    else if !MayActOn(bid, dir.idByUsername[username], dir.organizationOf) then Some(Forbidden)
    else None
  }

  /**
   * The checks in front of every bid read or write, in their order: the
   * bid must exist (404), the username must be an employee (401), and that
   * employee must pass the author-type switch (403).
   */
  function CheckBidAccess(bids: seq<Bid>, bidId: Id, username: string, dir: Directory): (r: Result<Bid, Refusal>)
    ensures Current(bids, bidId).None? ==> r == Err(NotFound)
    ensures Current(bids, bidId).Some? && username !in dir.idByUsername ==> r == Err(Unauthorized)
    ensures r.Ok? <==>
      && Current(bids, bidId).Some? && username in dir.idByUsername
      && MayActOn(Current(bids, bidId).value.data, dir.idByUsername[username], dir.organizationOf)
    ensures Current(bids, bidId).Some? && username in dir.idByUsername && r.Err? ==> r.error == Forbidden
    ensures r.Ok? ==> Current(bids, bidId) == Some(r.value)
    ensures r.Err? ==> r.error in {NotFound, Unauthorized, Forbidden}
  {
    match Current(bids, bidId)
    case None => Err(NotFound)
    case Some(bid) =>
      match AuthorizeActor(bid.data, username, dir)
      case Some(refusal) => Err(refusal)
      case None => Ok(bid)
  }

  // ---------------------------------------------------------------------
  // Deciding on a bid
  // ---------------------------------------------------------------------

  /**
   * The checks in front of a decision: the bid must exist (404), the
   * username must be an employee (401), the bid's tender must exist (404),
   * and the employee must be responsible for the tender's organization
   * (403). Who wrote the bid plays no part.
   */
  function CheckDecisionAccess(bids: seq<Bid>, tenders: seq<Tender>, bidId: Id, username: string, dir: Directory)
    : (r: Result<(Bid, Tender), Refusal>)
    ensures Current(bids, bidId).None? ==> r == Err(NotFound)
    ensures Current(bids, bidId).Some? && username !in dir.idByUsername ==> r == Err(Unauthorized)
    ensures Current(bids, bidId).Some? && username in dir.idByUsername ==>
      Current(tenders, Current(bids, bidId).value.data.tenderId).None? ==> r == Err(NotFound)
    ensures Current(bids, bidId).Some? && username in dir.idByUsername ==>
      Current(tenders, Current(bids, bidId).value.data.tenderId).Some? && r.Err? ==> r.error == Forbidden
    ensures r.Ok? <==>
      && Current(bids, bidId).Some? && username in dir.idByUsername
      && Current(tenders, Current(bids, bidId).value.data.tenderId).Some?
      && dir.idByUsername[username] in dir.organizationOf
      && dir.organizationOf[dir.idByUsername[username]]
         == Current(tenders, Current(bids, bidId).value.data.tenderId).value.data.organizationId
    ensures r.Ok? ==>
      && Current(bids, bidId) == Some(r.value.0)
      && Current(tenders, r.value.0.data.tenderId) == Some(r.value.1)
  {
    match Current(bids, bidId)
    case None => Err(NotFound)
    case Some(bid) =>
      if username !in dir.idByUsername then Err(Unauthorized)
      else
        match Current(tenders, bid.data.tenderId)
        case None => Err(NotFound)
        case Some(tender) =>
          var actor := dir.idByUsername[username];
          if actor !in dir.organizationOf then Err(Forbidden)
          else if dir.organizationOf[actor] != tender.data.organizationId then Err(Forbidden)
          else Ok((bid, tender))
  }

  /**
   * Whoever may decide on one bid of a tender may decide on every other
   * bid of the same tender: the gate looks at the tender's organization
   * only.
   */
  lemma DecisionFollowsTender(bids: seq<Bid>, tenders: seq<Tender>, b1: Id, b2: Id, username: string, dir: Directory)
    requires CheckDecisionAccess(bids, tenders, b1, username, dir).Ok?
    requires Current(bids, b2).Some?
    requires Current(bids, b2).value.data.tenderId == Current(bids, b1).value.data.tenderId
    ensures CheckDecisionAccess(bids, tenders, b2, username, dir).Ok?
  {
  }

  // ---------------------------------------------------------------------
  // Creating a bid
  // ---------------------------------------------------------------------

  /**
   * The checks in front of a new bid: the input must be accepted (400), the
   * author must be an employee (401), and an organization bid needs an
   * author responsible for some organization (403). `None` lets it through.
   * The tender the bid names is not looked up.
   */
  function CheckCreateBid(name: string, description: string, authorType: string, authorId: Id, dir: Directory)
    : (r: Option<Refusal>)
    ensures !CreateInputAccepted(name, description, authorType) ==> r == Some(BadRequest)
    ensures CreateInputAccepted(name, description, authorType) && authorId !in dir.employees ==> r == Some(Unauthorized)
    ensures CreateInputAccepted(name, description, authorType) && authorId in dir.employees && r.Some? ==>
      r == Some(Forbidden)
    ensures r.None? <==>
      && CreateInputAccepted(name, description, authorType)
      && authorId in dir.employees
      && (authorType == OrganizationAuthor ==> authorId in dir.organizationOf)
  {
    if !CreateInputAccepted(name, description, authorType) then Some(BadRequest)
    else if authorId !in dir.employees then Some(Unauthorized)
    else if authorType == OrganizationAuthor && authorId !in dir.organizationOf then Some(Forbidden)
    else None
  }

  /**
   * For an accepted input by a known employee, the creation checks admit
   * exactly the authors who can later act on their own bid through the
   * author-type switch.
   */
  lemma CreatedBidOpenToAuthor(name: string, description: string, tenderId: Id, authorType: string,
                               authorId: Id, dir: Directory)
    ensures CheckCreateBid(name, description, authorType, authorId, dir).None? <==>
      && CreateInputAccepted(name, description, authorType)
      && authorId in dir.employees
      && MayActOn(BidData(name, description, tenderId, InitialStatus, authorType, authorId),
                  authorId, dir.organizationOf)
  {
  }

  // ---------------------------------------------------------------------
  // Editing a bid
  // ---------------------------------------------------------------------

  /** An edit field that was not sent reaches the service as the empty string. */
  function EditArgument(field: Option<string>): (s: string)
    ensures field.None? ==> s == ""
    ensures field.Some? ==> s == field.value
  {
    match field
    case None => ""
    case Some(v) => v
  }

  /**
   * Validator, argument mapping and the repository's fallback together: on
   * an edit the validator lets through, a field that was sent replaces the
   * stored value and a field that was not sent keeps it. A sent empty
   * field, which the fallback could not tell from an omitted one, never
   * gets that far.
   */
  lemma {:induction false} EditFieldSemantics(name: Option<string>, description: Option<string>,
                                              current: string, field: Option<string>)
    requires EditTenderValidate(name, description).None?
    requires field == name || field == description
    ensures Override(EditArgument(field), current) == if field.None? then current else field.value
  {
    assert field != Some("");
  }

  /** Without the validator the sent empty name would silently keep the stored one. */
  lemma EmptyFieldIndistinguishable(current: string)
    ensures Override(EditArgument(Some("")), current) == Override(EditArgument(None), current)
    ensures EditTenderValidate(Some(""), None) == Some(InvalidName)
  {
  }
}
