/**
 * The edit validator (internal/controllers/validators/tenders.go): an edit
 * argument may be left out, but one that is sent must not be empty.
 */
module EditValidation {
  import opened Wrappers

  datatype InvalidParam = InvalidName | InvalidDescription

  /**
   * `None` when the edit may go ahead; otherwise the first offending field,
   * the name before the description.
   */
  function EditTenderValidate(name: Option<string>, description: Option<string>): (r: Option<InvalidParam>)
    ensures r.None? <==> name != Some("") && description != Some("")
    ensures r == Some(InvalidName) <==> name == Some("")
    ensures r == Some(InvalidDescription) <==> name != Some("") && description == Some("")
  {
    if name.Some? && name.value == "" then Some(InvalidName)
    else if description.Some? && description.value == "" then Some(InvalidDescription)
    else None
  }
}
