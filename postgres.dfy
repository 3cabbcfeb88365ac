/**
 * postgres.Storage: the three tables held as fields. Every method runs its
 * statements on a copy (the transaction) and assigns the copy back only
 * where the source commits, so a method that returns an error leaves the
 * fields as they were (the deferred Rollback).
 */
module Postgres {
  import opened Wrappers
  import opened CustomErrors
  import opened DateTimes
  import opened Models
  import SegmentTable
  import Memberships
  import OperationLog

  class Storage {
    var segments: map<string, SegmentRow>
    var memberships: set<(int, string)>
    var operations: seq<Operation>

    /** The tables as one transaction sees them. */
    function Snapshot(): Tables
      reads this
    {
      Tables(segments, memberships, operations)
    }

    /** Every membership names a segment row (the foreign key). */
    ghost predicate Valid()
      reads this
    {
      ReferencesExist(Snapshot())
    }

    /** An empty database. */
    constructor ()
      ensures Snapshot() == Tables(map[], {}, [])
      ensures Valid()
    {
      segments := map[];
      memberships := {};
      operations := [];
    }

    /** tx.Commit: the transaction's tables become the stored ones. */
    method Commit(t: Tables)
      modifies this
      ensures Snapshot() == t
    {
      segments := t.segments;
      memberships := t.memberships;
      operations := t.operations;
    }

    /**
     * CreateSegment: inserts a missing slug, reinstates a soft-deleted one
     * with the new percentage, and rejects an active one without change.
     */
    method CreateSegment(slug: string, percentage: Percent) returns (err: Option<Error>)
      modifies this
      ensures (segments, err) == SegmentTable.Create(old(segments), slug, percentage)
      ensures memberships == old(memberships) && operations == old(operations)
      ensures old(Valid()) ==> Valid()
    {
      // SELECT deleted FROM segments WHERE slug = $1
      if slug !in segments {
        // INSERT INTO segments (slug, auto_add_percentage)
        segments := segments[slug := SegmentRow(percentage, false)];
        return None;
      }
      if segments[slug].deleted {
        // UPDATE segments SET deleted = false, auto_add_percentage = $1
        segments := segments[slug := SegmentRow(percentage, false)];
        return None;
      }
      return Some(SegmentTable.AlreadyExists(slug));
    }

    /**
     * UpdateUserSegments: adds (skipping held segments), then deletes, in
     * list order, in one transaction stamped `now`; the first failure
     * returns its error and nothing is stored.
     */
    method UpdateUserSegments(segmentsToAdd: seq<string>, segmentsToDelete: seq<string>, userID: int, now: DateTime)
      returns (err: Option<Error>)
      modifies this
      ensures var r := Memberships.UpdateUserSegments(old(Snapshot()), userID, segmentsToAdd, segmentsToDelete, now);
        && (r.Ok? ==> err == None && Snapshot() == r.value)
        && (r.Err? ==> err == Some(r.error) && Snapshot() == old(Snapshot()))
      ensures old(Valid()) ==> Valid()
    {
      var t0 := Snapshot();
      var tx := t0;
      for i := 0 to |segmentsToAdd|
        invariant Memberships.ApplyAdds(t0, userID, segmentsToAdd[..i], now) == Ok(tx)
        invariant Snapshot() == t0
      {
        var segment := segmentsToAdd[i];
        assert segmentsToAdd[..i + 1][..i] == segmentsToAdd[..i];
        if !Memberships.HasSegment(tx, userID, segment) {
          var r := Memberships.AddUserSegment(tx, segment, userID, false, now);
          if r.Err? {
            Memberships.AddsErrorPersists(t0, userID, segmentsToAdd, i + 1, now);
            return Some(r.error);
          }
          tx := r.value;
        }
      }
      assert segmentsToAdd[..|segmentsToAdd|] == segmentsToAdd;
      var t1 := tx;
      for i := 0 to |segmentsToDelete|
        invariant Memberships.ApplyDeletes(t1, userID, segmentsToDelete[..i], now) == Ok(tx)
        invariant Snapshot() == t0
      {
        var segment := segmentsToDelete[i];
        assert segmentsToDelete[..i + 1][..i] == segmentsToDelete[..i];
        var r := Memberships.DeleteUserSegment(tx, segment, userID, now);
        if r.Err? {
          Memberships.DeletesErrorPersists(t1, userID, segmentsToDelete, i + 1, now);
          return Some(r.error);
        }
        tx := r.value;
      }
      assert segmentsToDelete[..|segmentsToDelete|] == segmentsToDelete;
      if old(Valid()) {
        Memberships.UpdateKeepsReferences(t0, userID, segmentsToAdd, segmentsToDelete, now);
      }
      Commit(tx);
      return None;
    }

    /** GetActiveSegments: the slugs the user holds, each once; nothing is written. */
    method GetActiveSegments(userID: int) returns (slugs: seq<string>)
      ensures forall s :: s in slugs <==> (userID, s) in memberships
      ensures forall i, j :: 0 <= i < j < |slugs| ==> slugs[i] != slugs[j]
    {
      // SELECT segment_slug FROM user_segments WHERE user_id = $1
      var rows := set p | p in memberships && p.0 == userID;
      slugs := [];
      while rows != {}
        invariant forall p :: p in rows ==> p in memberships && p.0 == userID
        invariant forall s :: s in slugs <==> (userID, s) in memberships && (userID, s) !in rows
        invariant forall i, j :: 0 <= i < j < |slugs| ==> slugs[i] != slugs[j]
        decreases rows
      {
        ghost var w := Memberships.Element(rows);
        var row :| row in rows;
        slugs := slugs + [row.1];
        rows := rows - {row};
      }
    }

    /**
     * AutoAddUserSegments: one transaction that tops every segment with a
     * positive percentage up to floor(N * p / 100) members, N being the
     * number of distinct users before the call.
     */
    method AutoAddUserSegments(now: DateTime)
      modifies this
      ensures segments == old(segments)
      ensures old(memberships) <= memberships
      ensures KnownUsers(memberships) == KnownUsers(old(memberships))
      ensures forall s :: s in segments && segments[s].percentage > 0 ==>
        |Members(memberships, s)|
          == Memberships.Max(|Members(old(memberships), s)|,
                             Memberships.AutoAddTarget(|KnownUsers(old(memberships))|, segments[s].percentage))
      ensures forall s :: !(s in segments && segments[s].percentage > 0) ==>
        Members(memberships, s) == Members(old(memberships), s)
      ensures |old(operations)| <= |operations| && operations[..|old(operations)|] == old(operations)
      ensures Memberships.AutoRows(operations[|old(operations)|..], memberships - old(memberships), now)
      ensures old(Valid()) ==> Valid()
    {
      var tx := Memberships.AutoAddUserSegments(Snapshot(), now);
      Commit(tx);
    }

    /**
     * GetOperations: the audit rows of the month starting at
     * (year, month), from its first instant to one nanosecond before the
     * next month, ordered by user id, with one record per logged row of the
     * window; nothing is written.
     */
    method GetOperations(year: int, month: int) returns (ops: seq<OperationRecord>)
      requires 1 <= month <= 12
      ensures ops == OperationLog.SortByUser(OperationLog.Selected(operations, MonthStart(year, month), MonthEnd(year, month)))
      ensures OperationLog.SortedByUser(ops)
      ensures multiset(ops) == multiset(OperationLog.Selected(operations, MonthStart(year, month), MonthEnd(year, month)))
      ensures forall r :: multiset(ops)[r] == |OperationLog.Hits(operations, MonthStart(year, month), MonthEnd(year, month), r)|
    {
      // SELECT user_id, segment_slug, date, action ... WHERE date >= $1 AND date <= $2 ORDER BY user_id
      var rows := OperationLog.SortByUser(OperationLog.Selected(operations, MonthStart(year, month), MonthEnd(year, month)));
      ops := [];
      for i := 0 to |rows|
        invariant ops == rows[..i]
      {
        ops := ops + [rows[i]];
      }
      assert rows[..|rows|] == rows;
      forall r ensures multiset(ops)[r] == |OperationLog.Hits(operations, MonthStart(year, month), MonthEnd(year, month), r)| {
        OperationLog.SelectedCount(operations, MonthStart(year, month), MonthEnd(year, month), r);
      }
    }
  }
}
