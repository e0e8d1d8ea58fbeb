/** What the article screens share: the `article_status` enum and the publication-time rule. */
module Content {
  import opened Wrappers

  /** The database enum `article_status`. */
  datatype Status = Draft | Published | Archived

  /**
   * `status === 'published' ? new Date().toISOString() : null`, with the clock reading
   * passed in as `now`.
   */
  function PublishedAt(status: Status, now: string): (r: Option<string>)
    ensures r.Some? <==> status == Published
    ensures r.Some? ==> r.value == now
  {
    if status == Published then Some(now) else None
  }

  /** `value || null` on a form text field: the empty string is falsy and becomes null. */
  function EmptyToNull(value: string): Option<string> {
    if value == "" then None else Some(value)
  }

  /** `value || ''` on a nullable column read into a form. */
  function NullToEmpty(value: Option<string>): string {
    match value
    case Some(v) => v
    case None => ""
  }

  /**
   * Only the empty text becomes null; reading a saved field back gives the typed text again,
   * and saving a column read into the form gives it back unless it held the empty text.
   */
  lemma EmptyToNullRoundTrip(value: string, column: Option<string>)
    ensures EmptyToNull(value).None? <==> value == ""
    ensures NullToEmpty(EmptyToNull(value)) == value
    ensures EmptyToNull(NullToEmpty(column)) == column <==> column != Some("")
  {
  }
}
