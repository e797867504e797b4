/**
 * The two versioned entities, tender and bid. Each stored row is a
 * `Versioning.Row` carrying the entity's own columns as its payload.
 * Timestamps (`created_at`, `updated_at`) and the unused bid `decision`
 * column are not part of the model.
 */
module Entity {
  import opened Versioning

  /** Columns of a `tender` row besides `id` and `version`. */
  datatype TenderData = TenderData(
    name: string,
    description: string,
    serviceType: string,
    status: string,
    organizationId: Id,
    creatorUsername: string)

  /** Columns of a `bid` row besides `id` and `version`. */
  datatype BidData = BidData(
    name: string,
    description: string,
    tenderId: Id,
    status: string,
    authorType: string,
    authorId: Id)

  type Tender = Row<TenderData>
  type Bid = Row<BidData>

  /** Schema defaults for a freshly inserted row (the schema itself is not part of this model). */
  const InitialVersion: int := 1
  const InitialStatus: string := "Created"

  const Published: string := "Published"
  const Closed: string := "Closed"
  const Canceled: string := "Canceled"
  const Approved: string := "Approved"
  const Rejected: string := "Rejected"

  const UserAuthor: string := "User"
  const OrganizationAuthor: string := "Organization"

  /**
   * The edit fallback of both repositories: an empty argument keeps the
   * current value, any other replaces it; so an edit never blanks a column
   * that was not blank.
   */
  function Override(given: string, current: string): (r: string)
    ensures r == given || r == current
    ensures given != "" ==> r == given
    ensures r == "" ==> given == "" && current == ""
  {
    if given == "" then current else given
  }

  /** The sort key of both `ORDER BY name` listings. */
  function TenderName(t: Tender): string { t.data.name }
  function BidName(b: Bid): string { b.data.name }
}
