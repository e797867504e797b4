# Tender and bid tables, services and bid access checks — a Dafny model

This project models the core of a procurement API written in Go: tenders that
organizations publish, and bids that employees or organizations place on them.
Both live in append-only, versioned tables:

- The current row of an id is the one with the highest version.
- An edit or a rollback appends a new row at that maximum plus one.
- A status change rewrites the current row in place and creates no version.

The model covers:

- **The repositories** (`internal/repo/pgdb/tender.go`, `internal/repo/pgdb/bid.go`): classes whose `rows` sequence stands in for the database table.
  - Each method states the table it leaves behind.
  - Each keeps the table invariant `Valid`: versions are positive, `(id, version)` is a key, and every id is below the next fresh id.
- **The shared versioning specification** (`Versioning`): maximum version, row lookup, current row, append and in-place update, with the lemmas that connect them.
- **The listing pipeline** (`Listing`): filter, a sort by name, limit/offset paging, and the row-collecting loop.
- **The services** (`internal/service/tender.go`, `internal/service/bid.go`):
  - the creator check on tender status;
  - the mapping of repository errors onto the service error set;
  - the decision on a bid, which writes to the tender table or to the bid table.
- **The list-query parser** (`internal/controllers/http/parser/tenders.go`): `limit`, `offset` and `service_type`, including a concrete decimal integer parser with its round-trip lemmas.
- **The edit validator** (`internal/controllers/validators/tenders.go`).
- **The decisions of the bid endpoints** (`internal/controllers/http/v1/bid.go`):
  - the author-type access switch;
  - the organization gate in front of decisions;
  - the author checks in front of creation;
  - the accepted inputs;
  - the mapping of an omitted edit field to `""`.

  These decisions are pure functions. The `BidRoutes` methods run them in the handlers' order in front of the service calls.

Some behaviours of the code differ from what its error names suggest, and the model follows the code:

- The tender repository reports a rollback to a missing `(id, version)` as `NotFound`, not `VersionNotFound`. The tender service therefore answers `ErrTenderNotFound` for it.
- The bid repository's `GetBidById` reports a missing bid as a wrapped error, not `NotFound`. The bid service maps every error to `ErrBidNotFound` anyway.
- The tender repository's `PutStatus` reports a missing tender as a wrapped error. The bid repository's reports it as `NotFound`.
- A rollback copies every column of the target row, status included. A status change overwrites the current row in place, so the version it was applied to carries the new status from then on. `Scenarios.RoadRepair` shows a rollback to version 1 restoring "Published", not "Created".

## Model

| member | source | states |
|---|---|---|
| Versioning.MaxVersion | internal/repo/pgdb/tender.go:195-197 | absent exactly when the id has no row; otherwise attained by a row of the id and an upper bound of all its versions |
| Versioning.RowAt | internal/repo/pgdb/tender.go:180-183 | absent exactly when no row has that id and version; otherwise a row of the table with that key |
| Versioning.Current | internal/repo/pgdb/tender.go:93-97 | absent exactly when the id has no row; otherwise a row of the id whose version bounds all of its versions |
| Versioning.CurrentHasMaxVersion | internal/repo/pgdb/tender.go:153-158 | the current row carries the maximum version, so `COALESCE(MAX)+1` is its version plus one |
| Versioning.CurrentIsTheMaxRow | internal/repo/pgdb/bid.go:60-66 | in a well-formed table the row at the maximum version is the current row |
| Versioning.NextVersion | internal/repo/pgdb/tender.go:153-158 | `COALESCE(MAX(version), 0) + 1`: above every version of the id, and either 1 or one above a version the id has |
| Versioning.AppendVersion | internal/repo/pgdb/bid.go:122-127 | the versioned INSERT keeps every earlier row as it was and adds one row of the id with the given payload, above all of the id's versions |
| Versioning.AppendVersionFacts | internal/repo/pgdb/tender.go:153-159 | appending at the next version keeps earlier rows, makes the new row current and the table still well formed, and leaves other ids alone |
| Versioning.AppendAfterCurrent | internal/repo/pgdb/tender.go:153-169 | appending after the current row is appending at its version plus one; the maximum grows by exactly one |
| Versioning.UpdateCurrent | internal/repo/pgdb/bid.go:79-85 | the in-place UPDATE keeps the length and every row's key, and changes only rows of the given id |
| Versioning.UpdateCurrentFacts | internal/repo/pgdb/tender.go:114-119 | the in-place update keeps the length, every id's maximum and well-formedness; only the current row of the id changes, to the rewritten data |
| Versioning.UpdateCurrentKeepsOther | internal/repo/pgdb/tender.go:114-119 | updating one id's current row in place leaves every other id's current row as it was |
| Versioning.RollbackRow | internal/repo/pgdb/tender.go:179-208 | the row a rollback appends is absent exactly when `(id, version)` is absent, and otherwise carries the id and the target's payload |
| Versioning.RollbackFacts | internal/repo/pgdb/tender.go:195-208 | a rollback target is at or below the maximum, so the appended row sits at maximum plus one, never at the target's version; it becomes the current row with the target's payload, other ids keep their current rows and the table stays well formed |
| Listing.Filter | internal/repo/pgdb/tender.go:37-39 | keeps exactly the rows satisfying the predicate, no more rows than given |
| Listing.NameLeTotal | internal/repo/pgdb/tender.go:40 | the name order is total |
| Listing.NameLeTransitive | internal/repo/pgdb/tender.go:40 | the name order is transitive |
| Listing.InsertSorted | internal/repo/pgdb/tender.go:40 | inserting into a name-sorted sequence keeps it sorted |
| Listing.SortBy | internal/repo/pgdb/tender.go:40 | the sort returns a permutation of its input |
| Listing.SortBySorted | internal/repo/pgdb/tender.go:40 | the sort returns a sequence sorted by name |
| Listing.Page | internal/repo/pgdb/tender.go:41-42 | skips `offset` rows and returns at most `limit`, each equal to the row at its shifted position |
| Listing.PageOfSorted | internal/repo/pgdb/tender.go:40-42 | a page of a sorted sequence is sorted |
| Listing.Select | internal/repo/pgdb/tender.go:49-58 | the row-collecting loop returns exactly the filtered rows, in order |
| Listing.Listed | internal/repo/pgdb/tender.go:35-42 | a listing is sorted by name and each row is from the table and satisfies the filter; it is the part of the name-sorted matching rows that starts at position `offset`, `limit` rows long or shorter when fewer remain |
| Listing.ListedAll | internal/repo/pgdb/tender.go:35-42 | with no offset and a limit covering every match, every matching row of the table is listed, as often as it occurs |
| TenderStore.CreatedBy | internal/repo/pgdb/tender.go:37-39 | selects exactly the current rows created by the username |
| TenderStore.PublishedOfType | internal/repo/pgdb/tender.go:65-68 | selects exactly the current, published rows whose service type is one of those asked for |
| TenderStore.TenderRepo.constructor | internal/repo/pgdb/tender.go:19-21 | an empty, valid table |
| TenderStore.TenderRepo.CreateTender | internal/repo/pgdb/tender.go:23-32 | appends a row with a fresh id, version 1, status "Created" and the given columns |
| TenderStore.TenderRepo.GetTenderById | internal/repo/pgdb/tender.go:92-111 | `NotFound` exactly when the id has no row; otherwise the max-version row |
| TenderStore.TenderRepo.PutStatus | internal/repo/pgdb/tender.go:113-133 | a missing tender is a wrapped error with the table unchanged; otherwise only the current row's status changes; no version is added, no maximum moves, other ids keep their current rows |
| TenderStore.TenderRepo.EditTender | internal/repo/pgdb/tender.go:135-177 | `NotFound` with no insert for a missing id; otherwise appends the current row at version plus one, each non-empty argument replacing its column and organization, creator and status carried over |
| TenderStore.TenderRepo.RollbackVersion | internal/repo/pgdb/tender.go:179-216 | a missing `(id, version)` is `NotFound` with no insert; otherwise appends `RollbackRow`: the target's payload at maximum plus one |
| TenderStore.TenderRepo.GetMyTenders | internal/repo/pgdb/tender.go:34-60 | current rows of the creator, sorted by name, paged, at most `limit` |
| TenderStore.TenderRepo.GetTenders | internal/repo/pgdb/tender.go:62-90 | current published rows of the listed service types, sorted by name, paged, at most `limit` |
| BidStore.AuthoredBy | internal/repo/pgdb/bid.go:40-42 | selects exactly the current rows written by the author |
| BidStore.BidRepo.constructor | internal/repo/pgdb/bid.go:18-20 | an empty, valid table |
| BidStore.BidRepo.CreateBid | internal/repo/pgdb/bid.go:22-35 | appends a row with a fresh id, version 1, status "Created" and the given columns |
| BidStore.BidRepo.GetBidById | internal/repo/pgdb/bid.go:60-77 | a wrapped error exactly when the id has no row; otherwise the max-version row |
| BidStore.BidRepo.PutStatus | internal/repo/pgdb/bid.go:79-100 | `NotFound` with the table unchanged for a missing bid; otherwise only the current row's status changes, with no new version |
| BidStore.BidRepo.EditBid | internal/repo/pgdb/bid.go:102-144 | `NotFound` with no insert for a missing id; otherwise appends the current row at version plus one, a non-empty name or description replacing its column |
| BidStore.BidRepo.RollbackVersion | internal/repo/pgdb/bid.go:146-183 | a missing `(id, version)` is `VersionNotFound` with no insert; otherwise appends `RollbackRow`: the target's payload at maximum plus one |
| BidStore.BidRepo.GetMyBids | internal/repo/pgdb/bid.go:37-58 | current rows of the author, sorted by name, paged, at most `limit` |
| TenderServices.Summaries | internal/service/tender.go:46-58 | one response record per tender, in order |
| TenderServices.TenderService.constructor | internal/service/tender.go:17-19 | the service over the given repository |
| TenderServices.TenderService.CreateTender | internal/service/tender.go:21-34 | the created tender, appended to the table |
| TenderServices.TenderService.GetMyTenders | internal/service/tender.go:36-60 | the creator's listing as response records, at most `limit` |
| TenderServices.TenderService.GetTenders | internal/service/tender.go:62-86 | the published listing as response records, each of a requested type |
| TenderServices.TenderService.GetStatus | internal/service/tender.go:88-100 | `ErrTenderNotFound` for a missing tender, `ErrPermissionDenied` for anyone but the creator, else the current status |
| TenderServices.TenderService.PutStatus | internal/service/tender.go:102-130 | missing tender or non-creator: that error and an unchanged table; otherwise the row with the new status at the same version |
| TenderServices.TenderService.EditTender | internal/service/tender.go:132-149 | no permission check; `ErrTenderNotFound` with no insert for a missing tender, else the appended version |
| TenderServices.TenderService.RollbackVersion | internal/service/tender.go:151-170 | a missing version is `ErrTenderNotFound` with no insert; otherwise the clone at maximum plus one |
| TenderServices.TenderService.GetTenderById | internal/service/tender.go:172-178 | `ErrTenderNotFound` exactly when there is no current row |
| BidServices.Summaries | internal/service/bid.go:50-61 | one response record per bid, in order |
| BidServices.BidService.constructor | internal/service/bid.go:18-23 | the service over the given repositories |
| BidServices.BidService.CreateBid | internal/service/bid.go:25-38 | the created bid, appended to the table |
| BidServices.BidService.GetMyBids | internal/service/bid.go:40-63 | the author's listing as response records, each by that author |
| BidServices.BidService.GetBidById | internal/service/bid.go:65-71 | `ErrBidNotFound` exactly when there is no current row |
| BidServices.BidService.GetStatus | internal/service/bid.go:73-79 | `ErrBidNotFound` exactly when there is no current row, else its status |
| BidServices.BidService.PutStatus | internal/service/bid.go:81-98 | `ErrBidNotFound` with the table unchanged for a missing bid, else the in-place update |
| BidServices.BidService.EditBid | internal/service/bid.go:100-117 | `ErrBidNotFound` with no insert for a missing bid, else the appended version |
| BidServices.BidService.RollbackVersion | internal/service/bid.go:119-138 | a missing version is `ErrVersionNotFound` with no insert; otherwise the clone at maximum plus one |
| BidServices.BidService.SubmitDecision | internal/service/bid.go:140-158 | approval: a missing bid or tender is refused with nothing written; otherwise the tender is closed in place and the bid comes back untouched. Any other decision cancels the bid and leaves the tenders alone |
| QueryParser.Atoi | internal/controllers/http/parser/tenders.go:18 | a value exactly for an optional sign followed by one or more digits whose value is inside the 64-bit range, and then that value, negated after a `-` |
| QueryParser.DecimalValue | internal/controllers/http/parser/tenders.go:18 | the digits of a number read back as that number |
| QueryParser.AtoiDecimal | internal/controllers/http/parser/tenders.go:18 | every non-negative 64-bit value parses back from its decimal spelling |
| QueryParser.AtoiPlusDecimal | internal/controllers/http/parser/tenders.go:18 | the same with a leading `+` |
| QueryParser.AtoiNegativeDecimal | internal/controllers/http/parser/tenders.go:18 | every negative 64-bit value parses back from `-` and its digits |
| QueryParser.ParseNonNegative | internal/controllers/http/parser/tenders.go:16-39 | absent key gives the default; otherwise success exactly for a non-negative integer last value, and the error names the key |
| QueryParser.ParseLimitOffset | internal/controllers/http/parser/tenders.go:10-41 | an unparsable query first, then `limit` (default 5), then `offset` (default 0); on success both are non-negative |
| QueryParser.LastValueDecides | internal/controllers/http/parser/tenders.go:18 | only the last of repeated values affects the outcome |
| QueryParser.FirstInvalid | internal/controllers/http/parser/tenders.go:62-66 | none exactly when every value is a known service type; otherwise the first value that is not |
| QueryParser.ParseLimitOffsetService | internal/controllers/http/parser/tenders.go:43-68 | limit/offset errors first; an absent `service_type` gives the three known types in order; otherwise success exactly when all values are known, returned unchanged |
| EditValidation.EditTenderValidate | internal/controllers/validators/tenders.go:7-19 | passes exactly when no sent field is empty; the name is reported before the description |
| Entity.Override | internal/repo/pgdb/tender.go:160-168 | an empty argument keeps the stored value and any other replaces it, so an edit never blanks a column that was not blank |
| BidAccess.CreateInputAccepted | internal/controllers/http/v1/bid.go:37-43 | a new bid needs a name of 1 to 100 characters, a description of 1 to 500 and the author type User or Organization; such text also passes the edit validator |
| BidAccess.BidStatusAccepted | internal/controllers/http/v1/bid.go:199-203 | the status endpoint takes exactly Created, Published and Canceled, never a decision or Closed |
| BidAccess.RollbackVersionAccepted | internal/controllers/http/v1/bid.go:377-381 | the rollback endpoint takes exactly the versions a row can carry, 1 and above |
| BidAccess.DecisionAccepted | internal/controllers/http/v1/bid.go:462-466 | the decision endpoint takes exactly Approved and Rejected, neither of which the status endpoint takes |
| BidAccess.MayActOn | internal/controllers/http/v1/bid.go:228-245 | the author-type switch: the author may act on their own bid unless it is an organization bid and they are responsible for no organization; with no default case, a bid of any other author type is open to everyone |
| BidAccess.UserBidBelongsToAuthor | internal/controllers/http/v1/bid.go:228-232 | on a user bid, access exactly for the author |
| BidAccess.OrganizationBidIsShared | internal/controllers/http/v1/bid.go:233-245 | on an organization bid, an employee may act exactly when responsible for the same organization as the author; everyone is refused when either the employee or the author is responsible for none; members of one organization are treated alike |
| BidAccess.AuthorizeActor | internal/controllers/http/v1/bid.go:223-246 | an unknown username is 401; a known one passes exactly when the author-type switch lets it, else 403 |
| BidAccess.CheckBidAccess | internal/controllers/http/v1/bid.go:218-246 | 404 for a missing bid, then 401 for an unknown username, then 403 for every refusal after that; success exactly when the current bid exists and the employee passes the switch |
| BidAccess.CheckDecisionAccess | internal/controllers/http/v1/bid.go:482-502 | 404 for the bid, 401, 404 for its tender, then 403 for every refusal after that; success exactly when the employee is responsible for the tender's organization |
| BidAccess.DecisionFollowsTender | internal/controllers/http/v1/bid.go:491-502 | whoever may decide on one bid of a tender may decide on all its bids |
| BidAccess.CheckCreateBid | internal/controllers/http/v1/bid.go:37-67 | 400 for rejected input, then 401 for an unknown author, then 403 for every refusal after that, which happens exactly for an organization bid by an unaffiliated author |
| BidAccess.CreatedBidOpenToAuthor | internal/controllers/http/v1/bid.go:58-67 | for accepted input by a known employee, the creation checks pass exactly when the author can act on the bid just created |
| BidAccess.EditArgument | internal/controllers/http/v1/bid.go:335-341 | an omitted field becomes the empty string, a sent one passes unchanged |
| BidAccess.EditFieldSemantics | internal/controllers/http/v1/bid.go:303-346 | after validation, a sent field replaces the stored value and an omitted one keeps it |
| BidAccess.EmptyFieldIndistinguishable | internal/controllers/validators/tenders.go:8-12 | an empty sent field reaches the repository like an omitted one, which is why the validator refuses it |
| BidHandlers.BidRoutes.constructor | internal/controllers/http/v1/bid.go:16-27 | the routes over the given services |
| BidHandlers.BidRoutes.Create | internal/controllers/http/v1/bid.go:45-98 | a refused creation writes nothing; an accepted one appends the bid and leaves it open to its author |
| BidHandlers.BidRoutes.GetStatus | internal/controllers/http/v1/bid.go:148-197 | 400 without a username, then the access checks, then the current status |
| BidHandlers.BidRoutes.PutStatus | internal/controllers/http/v1/bid.go:205-282 | 400 for an unaccepted status; a refused request writes nothing; otherwise the in-place status update |
| BidHandlers.BidRoutes.EditBid | internal/controllers/http/v1/bid.go:291-376 | 400 for an empty sent field; a refused request writes nothing; otherwise a new version with sent fields replaced and everything else carried over |
| BidHandlers.BidRoutes.Rollback | internal/controllers/http/v1/bid.go:384-461 | 400 for a version below 1; a refused request or missing version writes nothing; otherwise the clone at maximum plus one |
| BidHandlers.BidRoutes.SubmitDecision | internal/controllers/http/v1/bid.go:469-527 | 400 for an unknown decision; a refused request writes nothing; approval closes the bid's tender; rejection cancels the bid |
| Scenarios.CreateAndPublish | internal/repo/pgdb/tender.go:23-119 | in an empty table, a created tender is version 1 with status "Created"; publishing rewrites that same row |
| Scenarios.EditAndRestore | internal/repo/pgdb/tender.go:135-216 | from one published version, an edit appends version 2 with the new description and a rollback to 1 appends version 3 with version 1's payload |
| Scenarios.RoadRepair | internal/repo/pgdb/tender.go:23-216 | create, publish, edit and roll back: versions 1, 1, 2, 3; the rollback restores the first description with the published status |

## Left out

- Storage failures: query, scan and connection errors of the database are not modelled. Every repository error arises from the table's contents only. The service branches for `ErrCannotGetStatus`, `ErrCannotPutStatus`, `ErrCannotEditTender` and `ErrCannotEditBid` are written but unreachable. The errors `ErrCannotCreateTender`, `ErrCannotCreateBid`, `ErrCannotGetTender` and `ErrCannotGetBids` are not modelled: the create and listing calls of the repositories cannot fail here, so those methods have no error path.
- Concurrency and atomicity: edit and rollback read the maximum and insert in separate statements with no transaction. The model is single-threaded, so duplicate versions under concurrent writers are not modelled.
- Schema defaults: the fresh id, version 1 and status "Created" of a new row are taken as constants. A counter stands in for the database's id default.
- Identifiers are natural numbers rather than UUIDs. The zero UUID and the `required` checks on UUID fields are not modelled.
- Timestamps (`created_at`, `updated_at`) and their formatting, and the bid `decision` column, are not modelled.
- `ORDER BY name` is modelled as an insertion sort in code-point order. The database collation is not modelled, and neither is the order among equal names, which the query leaves open.
- Limit and offset reach the repositories as natural numbers. The parser proves them non-negative; a negative limit sent to SQL is not modelled.
- The service `RollbackVersion` methods dereference a nil result on a repository error other than `NotFound` or `VersionNotFound`. The modelled repositories never produce such an error, so that panic is not modelled.
- Employee lookups (internal/repo/pgdb/employee.go, internal/service/employee.go) are the maps of `BidAccess.Directory`. An employee responsible for several organizations is not modelled; the query takes one row.
- `url.ParseQuery` is replaced by its result, a map from key to a non-empty list of values, or `None` when it fails. The second parse inside `ParseLimitOffsetService` cannot fail once the first succeeded, so it is folded into the first.
- Request binding, JSON bodies, the HTTP layer, routing, logging and configuration are not modelled. A refusal stands for the status code sent.
- The `validate` tags are modelled for the bid endpoints only: username required, bid status, decision, rollback version, author type, and the name and description lengths of a new bid. The tender endpoints (internal/controllers/http/v1/tender.go) are not part of this model.
- `BidServices.BidService.SubmitDecision` approval is not atomic across the two tables; the model runs it sequentially.
