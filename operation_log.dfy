/**
 * The query of internal/storage/postgres/operation.go as functions on the
 * audit log: the rows whose date lies in a window, projected on the four
 * columns of models.Operation, then ordered by user id.
 */
module OperationLog {
  import opened DateTimes
  import opened Models

  /** The columns user_id, segment_slug, date and action of a row; auto_add is not selected. */
  function Record(o: Operation): (r: OperationRecord)
    ensures r.userID == o.userID && r.segmentSlug == o.slug && r.date == o.date
    ensures r.action == (if o.action == Add then "add" else "delete")
  {
    OperationRecord(o.userID, o.slug, o.date, ActionName(o.action))
  }

  /** `WHERE date >= from AND date <= to`, keeping the log's order. */
  function Selected(log: seq<Operation>, from: DateTime, to: DateTime): (rs: seq<OperationRecord>)
    ensures |rs| <= |log|
    ensures forall r :: r in rs ==> exists i :: 0 <= i < |log| && InWindow(log[i].date, from, to) && Record(log[i]) == r
    ensures forall i :: 0 <= i < |log| && InWindow(log[i].date, from, to) ==> Record(log[i]) in rs
  {
    if log == [] then []
    else
      var init := Selected(log[..|log| - 1], from, to);
      var last := log[|log| - 1];
      assert forall i :: 0 <= i < |log| - 1 ==> log[..|log| - 1][i] == log[i];
      if InWindow(last.date, from, to) then init + [Record(last)] else init
  }

  /** Filtering distributes over appending logs. */
  lemma {:induction false} SelectedAppend(a: seq<Operation>, b: seq<Operation>, from: DateTime, to: DateTime)
    ensures Selected(a + b, from, to) == Selected(a, from, to) + Selected(b, from, to)
    decreases |b|
  {
    if b == [] {
      assert a + b == a;
    } else {
      var b' := b[..|b| - 1];
      assert (a + b)[..|a + b| - 1] == a + b';
      assert (a + b)[|a + b| - 1] == b[|b| - 1];
      SelectedAppend(a, b', from, to);
    }
  }

  /** The positions of the log whose row lies in the window and projects to `r`. */
  function Hits(log: seq<Operation>, from: DateTime, to: DateTime, r: OperationRecord): set<int>
  {
    set i | 0 <= i < |log| && InWindow(log[i].date, from, to) && Record(log[i]) == r
  }

  lemma HitsSnoc(log: seq<Operation>, from: DateTime, to: DateTime, r: OperationRecord)
    requires log != []
    ensures var n := |log| - 1;
      Hits(log, from, to, r)
        == Hits(log[..n], from, to, r) + (if InWindow(log[n].date, from, to) && Record(log[n]) == r then {n} else {})
    ensures |log| - 1 !in Hits(log[..|log| - 1], from, to, r)
  {
    var n := |log| - 1;
    forall i | 0 <= i < n ensures log[..n][i] == log[i] { }
  }

  /**
   * Selection keeps multiplicities: each record occurs in the result as
   * often as there are log rows in the window that project to it, so two
   * rows differing only in auto_add give two equal records.
   */
  lemma {:induction false} SelectedCount(log: seq<Operation>, from: DateTime, to: DateTime, r: OperationRecord)
    ensures multiset(Selected(log, from, to))[r] == |Hits(log, from, to, r)|
    decreases |log|
  {
    if log == [] {
      assert Hits(log, from, to, r) == {};
    } else {
      var n := |log| - 1;
      SelectedCount(log[..n], from, to, r);
      HitsSnoc(log, from, to, r);
    }
  }

  /** The result is empty exactly when no logged operation falls in the window. */
  lemma SelectedEmpty(log: seq<Operation>, from: DateTime, to: DateTime)
    ensures Selected(log, from, to) == [] <==> forall i :: 0 <= i < |log| ==> !InWindow(log[i].date, from, to)
  {
    if Selected(log, from, to) != [] {
      assert Selected(log, from, to)[0] in Selected(log, from, to);
    }
  }

  /** `ORDER BY user_id`. */
  ghost predicate SortedByUser(rs: seq<OperationRecord>)
  {
    forall i, j :: 0 <= i < j < |rs| ==> rs[i].userID <= rs[j].userID
  }

  /** Places `r` in front of the first record with a user id not below its own. */
  function Insert(r: OperationRecord, rs: seq<OperationRecord>): (ins: seq<OperationRecord>)
    ensures multiset(ins) == multiset(rs) + multiset{r}
  {
    if rs == [] then [r]
    else if r.userID <= rs[0].userID then [r] + rs
    else
      assert rs == [rs[0]] + rs[1..];
      [rs[0]] + Insert(r, rs[1..])
  }

  lemma {:induction false} InsertSorted(r: OperationRecord, rs: seq<OperationRecord>)
    requires SortedByUser(rs)
    ensures SortedByUser(Insert(r, rs))
  {
    if rs != [] && r.userID > rs[0].userID {
      var tail := Insert(r, rs[1..]);
      InsertSorted(r, rs[1..]);
      InsertLowerBound(r, rs[1..], rs[0].userID);
      assert Insert(r, rs) == [rs[0]] + tail;
      ConsSorted(rs[0], tail);
    }
  }

  /** A record no higher than every record of a sorted list can go in front of it. */
  lemma ConsSorted(x: OperationRecord, rs: seq<OperationRecord>)
    requires SortedByUser(rs) && forall k :: 0 <= k < |rs| ==> x.userID <= rs[k].userID
    ensures SortedByUser([x] + rs)
  {
    var xs := [x] + rs;
    forall i, j | 0 <= i < j < |xs| ensures xs[i].userID <= xs[j].userID {
      assert xs[j] == rs[j - 1];
      if i > 0 {
        assert xs[i] == rs[i - 1];
      }
    }
  }

  /** Inserting a record no lower than `b` into records no lower than `b` keeps every record no lower than `b`. */
  lemma {:induction false} InsertLowerBound(r: OperationRecord, rs: seq<OperationRecord>, b: int)
    requires b <= r.userID && forall k :: 0 <= k < |rs| ==> b <= rs[k].userID
    ensures forall k :: 0 <= k < |Insert(r, rs)| ==> b <= Insert(r, rs)[k].userID
    decreases |rs|
  {
    if rs != [] && r.userID > rs[0].userID {
      InsertLowerBound(r, rs[1..], b);
      var tail := Insert(r, rs[1..]);
      assert Insert(r, rs) == [rs[0]] + tail;
      forall k | 0 <= k < |Insert(r, rs)| ensures b <= Insert(r, rs)[k].userID {
        if k > 0 {
          assert Insert(r, rs)[k] == tail[k - 1];
        }
      }
    }
  }

  /** The records ordered by user id: a sorted permutation of the input. */
  function SortByUser(rs: seq<OperationRecord>): (sorted: seq<OperationRecord>)
    ensures SortedByUser(sorted)
    ensures multiset(sorted) == multiset(rs)
  {
    if rs == [] then []
    else
      assert rs == [rs[0]] + rs[1..];
      InsertSorted(rs[0], SortByUser(rs[1..]));
      Insert(rs[0], SortByUser(rs[1..]))
  }
}
