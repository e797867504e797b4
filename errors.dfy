/**
 * The two error vocabularies of the system: the sentinel errors of the
 * repository layer, and the fixed error set the service layer folds them into.
 */
module Errors {

  /** Repository outcomes other than success (internal/repo/repoerrs/errors.go). */
  datatype RepoError =
    | NotFound
    | VersionNotFound
      // a `fmt.Errorf`-wrapped error that is neither sentinel above
    | Wrapped

  /** The service layer's fixed error set (internal/service/errors.go). */
  datatype ServiceError =
    | ErrCannotCreateTender
    | ErrEmployeeDoesNotExist
    | ErrCannotGetTender
    | ErrCannotGetStatus
    | ErrPermissionDenied
    | ErrTenderNotFound
    | ErrCannotPutStatus
    | ErrCannotEditTender
    | ErrVersionNotFound
    | ErrCannotCreateBid
    | ErrOrganisationResponsibleNotFound
    | ErrCannotGetBids
    | ErrBidNotFound
    | ErrCannotEditBid
}
