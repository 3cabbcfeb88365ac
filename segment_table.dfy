/**
 * The statements of internal/storage/postgres/segment.go as a function on
 * the `segments` table: `Storage.CreateSegment` of the Postgres module is
 * proved to perform exactly this transition.
 */
module SegmentTable {
  import opened Wrappers
  import opened CustomErrors
  import opened Models

  /** The error for a slug whose row exists and is not soft-deleted. */
  function AlreadyExists(slug: string): Error
  {
    Custom("slug", slug + " already exists")
  }

  /** The row CreateSegment leaves behind on success: active, with the given percentage. */
  function Active(percentage: Percent): SegmentRow
  {
    SegmentRow(percentage, false)
  }

  /**
   * CreateSegment: a missing slug is inserted, a soft-deleted one is
   * reinstated with the new percentage, and an active one is rejected.
   * The first component is the committed table, the second the error.
   */
  function Create(segments: map<string, SegmentRow>, slug: string, percentage: Percent)
    : (r: (map<string, SegmentRow>, Option<Error>))
    ensures r.1 == None <==> slug !in segments || segments[slug].deleted
    ensures r.1 == None ==> slug in r.0 && r.0[slug] == Active(percentage)
    ensures r.1 == None ==> r.0.Keys == segments.Keys + {slug}
    ensures forall s :: s != slug ==> (s in r.0 <==> s in segments)
    ensures forall s :: s != slug && s in segments ==> r.0[s] == segments[s]
    ensures r.1 != None ==> r.0 == segments && r.1 == Some(AlreadyExists(slug))
  {
    if slug !in segments then
      (segments[slug := Active(percentage)], None)
    else if segments[slug].deleted then
      (segments[slug := Active(percentage)], None)
    else
      (segments, Some(AlreadyExists(slug)))
  }

  /** Creating the same slug twice fails the second time and keeps the first call's table. */
  lemma CreateTwice(segments: map<string, SegmentRow>, slug: string, p: Percent, q: Percent)
    ensures var first := Create(segments, slug, p);
      first.1 == None ==>
        Create(first.0, slug, q) == (first.0, Some(AlreadyExists(slug)))
  {
  }
}
