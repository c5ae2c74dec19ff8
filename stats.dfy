/** The stats preserver: the manually curated `stats` block survives regeneration. */
module Stats {
  import opened Values

  /** The Google Scholar profile link for the configured scholar id. */
  function ScholarLink(scholarId: string): string
  {
    "https://scholar.google.com/citations?user=" + scholarId + "&hl=en&oi=ao"
  }

  /** The block used when no prior stats can be kept. */
  function DefaultStats(scholarId: string): Json
  {
    JMap(map[
      "scholar_link" := JStr(ScholarLink(scholarId)),
      "citations" := JInt(0),
      "h_index" := JInt(0)])
  }

  /** True when the prior document parsed to a dict that holds a `stats` key. */
  predicate HasStats(prior: Option<Json>)
  {
    prior.Some? && prior.value.JMap? && "stats" in prior.value.fields
  }

  /** The stats block of the new document. `prior` is the previously written document as
      parsed, or None when there was no file or it could not be read or decoded. The
      prior `stats` value is kept verbatim, whatever it holds; otherwise the defaults,
      with zero citations and h-index, are used. */
  function SelectStats(prior: Option<Json>, scholarId: string): (stats: Json)
    ensures HasStats(prior) ==> stats == prior.value.fields["stats"]
    ensures !HasStats(prior) ==>
              stats.JMap? && stats.fields.Keys == {"scholar_link", "citations", "h_index"}
              && stats.fields["citations"] == JInt(0) && stats.fields["h_index"] == JInt(0)
              && stats.fields["scholar_link"] == JStr(ScholarLink(scholarId))
  {
    if HasStats(prior) then prior.value.fields["stats"] else DefaultStats(scholarId)
  }
}
