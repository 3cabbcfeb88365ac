/**
 * The rows of the three tables (`segments`, `user_segments`, `operations`)
 * and the record `models.Operation` that the report reads.
 */
module Models {
  import opened DateTimes

  /** An auto-enrollment percentage: 0 means "no auto-enrollment". */
  type Percent = p: int | 0 <= p <= 100

  /** A `segments` row, keyed by its slug. */
  datatype SegmentRow = SegmentRow(percentage: Percent, deleted: bool)

  datatype Action = Add | Delete

  /** The text stored in the `action` column. */
  function ActionName(a: Action): string
  {
    match a
    case Add => "add"
    case Delete => "delete"
  }

  /** An `operations` row: one audit entry. */
  datatype Operation = Operation(userID: int, slug: string, date: DateTime, action: Action, autoAdd: bool)

  /** models.Operation: the four columns GetOperations selects (no auto_add). */
  datatype OperationRecord = OperationRecord(userID: int, segmentSlug: string, date: DateTime, action: string)

  /**
   * The database seen by one transaction: the segment catalog, the
   * (user_id, segment_slug) pairs of `user_segments`, and the audit log in
   * insertion order.
   */
  datatype Tables = Tables(segments: map<string, SegmentRow>,
                           memberships: set<(int, string)>,
                           operations: seq<Operation>)

  /** `SELECT DISTINCT user_id FROM user_segments`: the known users. */
  function KnownUsers(ms: set<(int, string)>): set<int>
  {
    set p | p in ms :: p.0
  }

  /**
   * countUsers counts `DISTINCT user_id`: a user is known exactly when some
   * pair names it, and there are never more known users than pairs.
   */
  lemma {:induction false} KnownUsersFacts(ms: set<(int, string)>)
    ensures forall u :: u in KnownUsers(ms) <==> exists s :: (u, s) in ms
    ensures |KnownUsers(ms)| <= |ms|
    decreases |ms|
  {
    if ms != {} {
      var p :| p in ms;
      var rest := ms - {p};
      KnownUsersFacts(rest);
      assert KnownUsers(ms) == KnownUsers(rest) + {p.0};
    }
  }

  /** `SELECT DISTINCT user_id FROM user_segments WHERE segment_slug = slug`. */
  function Members(ms: set<(int, string)>, slug: string): set<int>
  {
    set p | p in ms && p.1 == slug :: p.0
  }

  /** The foreign key user_segments.segment_slug → segments.slug. */
  predicate ReferencesExist(t: Tables)
  {
    forall p :: p in t.memberships ==> p.1 in t.segments
  }
}
