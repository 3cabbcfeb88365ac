/**
 * The statements of internal/storage/postgres/user.go, as functions from
 * the tables one transaction sees to the tables it would commit.
 * `UpdateUserSegments` is the specification that the storage method
 * `Postgres.Storage.UpdateUserSegments` is proved to implement.
 */
module Memberships {
  import opened Wrappers
  import opened CustomErrors
  import opened Strings
  import opened DateTimes
  import opened Models

  /** The error for an insert that violates the foreign key (SQLSTATE 23503). */
  function MissingSegment(slug: string): Error
  {
    Custom("segments_to_add", slug + " doesn't exist")
  }

  /** The error for a delete that affected no row. */
  function LacksSegment(user: int, slug: string): Error
  {
    Custom("segments_to_delete", "User (" + Itoa(user) + ") doesn't have segment " + slug)
  }

  /** checkUserSegment: does the user already hold the segment? */
  predicate HasSegment(t: Tables, user: int, slug: string)
  {
    (user, slug) in t.memberships
  }

  /**
   * addUserSegment: insert the pair and one "add" audit row, or fail on the
   * foreign key when no segment row carries the slug. Both callers exclude
   * a pair that is already present, so the unique constraint never fires.
   */
  function AddUserSegment(t: Tables, slug: string, user: int, autoAdd: bool, now: DateTime): (r: Result<Tables, Error>)
    requires (user, slug) !in t.memberships
    ensures r.Err? <==> slug !in t.segments
    ensures r.Err? ==> r.error == MissingSegment(slug)
    ensures r.Ok? ==> r.value.segments == t.segments
                      && r.value.memberships == t.memberships + {(user, slug)}
                      && r.value.operations == t.operations + [Operation(user, slug, now, Add, autoAdd)]
  {
    if slug !in t.segments then Err(MissingSegment(slug))
    else Ok(Tables(t.segments, t.memberships + {(user, slug)},
                   t.operations + [Operation(user, slug, now, Add, autoAdd)]))
  }

  /**
   * deleteUserSegment: remove the pair and append one "delete" audit row
   * (auto_add false), or fail when no row was affected.
   */
  function DeleteUserSegment(t: Tables, slug: string, user: int, now: DateTime): (r: Result<Tables, Error>)
    ensures r.Err? <==> (user, slug) !in t.memberships
    ensures r.Err? ==> r.error == LacksSegment(user, slug)
    ensures r.Ok? ==> r.value.segments == t.segments
                      && r.value.memberships == t.memberships - {(user, slug)}
                      && r.value.operations == t.operations + [Operation(user, slug, now, Delete, false)]
  {
    if (user, slug) !in t.memberships then Err(LacksSegment(user, slug))
    else Ok(Tables(t.segments, t.memberships - {(user, slug)},
                   t.operations + [Operation(user, slug, now, Delete, false)]))
  }

  /**
   * One iteration of the add loop: checkUserSegment reports a pair the user
   * holds and the loop skips it; otherwise addUserSegment inserts it.
   */
  function AddStep(t: Tables, user: int, slug: string, now: DateTime): (r: Result<Tables, Error>)
    ensures HasSegment(t, user, slug) ==> r == Ok(t)
    ensures r.Err? <==> !HasSegment(t, user, slug) && slug !in t.segments
    ensures r.Err? ==> r.error == MissingSegment(slug)
    ensures r.Ok? ==> r.value.segments == t.segments
                      && r.value.memberships == t.memberships + {(user, slug)}
    ensures r.Ok? && !HasSegment(t, user, slug) ==>
              r.value.operations == t.operations + [Operation(user, slug, now, Add, false)]
  {
    if HasSegment(t, user, slug) then Ok(t) else AddUserSegment(t, slug, user, false, now)
  }

  /** The add loop over `adds`, stopping at the first error. */
  function ApplyAdds(t: Tables, user: int, adds: seq<string>, now: DateTime): Result<Tables, Error>
    decreases |adds|
  {
    if adds == [] then Ok(t)
    else match ApplyAdds(t, user, adds[..|adds| - 1], now)
      case Err(e) => Err(e)
      case Ok(t1) => AddStep(t1, user, adds[|adds| - 1], now)
  }

  /** The delete loop over `dels`, stopping at the first error. */
  function ApplyDeletes(t: Tables, user: int, dels: seq<string>, now: DateTime): Result<Tables, Error>
    decreases |dels|
  {
    if dels == [] then Ok(t)
    else match ApplyDeletes(t, user, dels[..|dels| - 1], now)
      case Err(e) => Err(e)
      case Ok(t1) => DeleteUserSegment(t1, dels[|dels| - 1], user, now)
  }

  /** Storage.UpdateUserSegments: every add in order, then every delete in order, all or nothing. */
  function UpdateUserSegments(t: Tables, user: int, adds: seq<string>, dels: seq<string>, now: DateTime): Result<Tables, Error>
  {
    match ApplyAdds(t, user, adds, now)
    case Err(e) => Err(e)
    case Ok(t1) => ApplyDeletes(t1, user, dels, now)
  }

  // ---------------------------------------------------------------------
  // Reference definitions of what an update does.

  /** The pairs (user, s) for the slugs s of a list. */
  function Pairs(user: int, slugs: seq<string>): set<(int, string)>
  {
    set s | s in slugs :: (user, s)
  }

  /** The manual audit rows for a list of slugs: one per slug, in order, all stamped `now`. */
  function ManualRows(user: int, slugs: seq<string>, now: DateTime, action: Action): (rows: seq<Operation>)
    ensures |rows| == |slugs|
    ensures forall i :: 0 <= i < |slugs| ==> rows[i] == Operation(user, slugs[i], now, action, false)
  {
    seq(|slugs|, i requires 0 <= i < |slugs| => Operation(user, slugs[i], now, action, false))
  }

  /** The slugs of `adds` that actually insert: first occurrences of slugs the user does not hold. */
  function FreshAdds(ms: set<(int, string)>, user: int, adds: seq<string>): seq<string>
  {
    if adds == [] then []
    else
      var prefix := adds[..|adds| - 1];
      var s := adds[|adds| - 1];
      if (user, s) in ms || s in prefix then FreshAdds(ms, user, prefix)
      else FreshAdds(ms, user, prefix) + [s]
  }

  /** Every add either names an existing segment or one the user already holds. */
  predicate AddsSucceed(t: Tables, user: int, adds: seq<string>)
  {
    forall i :: 0 <= i < |adds| ==> adds[i] in t.segments || (user, adds[i]) in t.memberships
  }

  /** Every delete names a pair present in `ms` and no slug is deleted twice. */
  predicate DeletesSucceed(ms: set<(int, string)>, user: int, dels: seq<string>)
  {
    forall j :: 0 <= j < |dels| ==> (user, dels[j]) in ms && dels[j] !in dels[..j]
  }

  /** `adds[k]` is the first add that breaks the foreign key. */
  predicate FirstMissing(t: Tables, user: int, adds: seq<string>, k: int)
  {
    0 <= k < |adds| && adds[k] !in t.segments && (user, adds[k]) !in t.memberships
    && AddsSucceed(t, user, adds[..k])
  }

  /** `dels[k]` is the first delete that affects no row. */
  predicate FirstLacking(ms: set<(int, string)>, user: int, dels: seq<string>, k: int)
  {
    0 <= k < |dels| && ((user, dels[k]) !in ms || dels[k] in dels[..k])
    && DeletesSucceed(ms, user, dels[..k])
  }

  // ---------------------------------------------------------------------
  // What an update does.

  /** The slugs that insert are exactly the listed slugs the user lacked, each once. */
  lemma {:induction false} FreshAddsFacts(ms: set<(int, string)>, user: int, adds: seq<string>)
    ensures forall s :: s in FreshAdds(ms, user, adds) <==> s in adds && (user, s) !in ms
    ensures forall i, j :: 0 <= i < j < |FreshAdds(ms, user, adds)| ==>
                           FreshAdds(ms, user, adds)[i] != FreshAdds(ms, user, adds)[j]
    decreases |adds|
  {
    if adds != [] {
      var prefix := adds[..|adds| - 1];
      FreshAddsFacts(ms, user, prefix);
      assert adds == prefix + [adds[|adds| - 1]];
    }
  }

  /** Nothing inserts when the user already holds every listed slug. */
  lemma {:induction false} FreshAddsNone(ms: set<(int, string)>, user: int, adds: seq<string>)
    requires forall i :: 0 <= i < |adds| ==> (user, adds[i]) in ms
    ensures FreshAdds(ms, user, adds) == []
    decreases |adds|
  {
    if adds != [] {
      FreshAddsNone(ms, user, adds[..|adds| - 1]);
    }
  }

  lemma PairsSnoc(user: int, prefix: seq<string>, s: string)
    ensures Pairs(user, prefix + [s]) == Pairs(user, prefix) + {(user, s)}
  {
    var all := prefix + [s];
    forall p | p in Pairs(user, all) ensures p in Pairs(user, prefix) + {(user, s)} {
      var x :| x in all && p == (user, x);
      if x != s { assert x in prefix; }
    }
  }

  lemma ManualRowsSnoc(user: int, prefix: seq<string>, s: string, now: DateTime, action: Action)
    ensures ManualRows(user, prefix + [s], now, action)
            == ManualRows(user, prefix, now, action) + [Operation(user, s, now, action, false)]
  {
    assert (prefix + [s])[..|prefix|] == prefix;
  }

  /** Once a prefix of the add list fails, the whole list fails with the same error: the loop returns on it. */
  lemma {:induction false} AddsErrorPersists(t: Tables, user: int, adds: seq<string>, k: nat, now: DateTime)
    requires k <= |adds| && ApplyAdds(t, user, adds[..k], now).Err?
    ensures ApplyAdds(t, user, adds, now) == ApplyAdds(t, user, adds[..k], now)
    decreases |adds| - k
  {
    if k < |adds| {
      assert adds[..|adds| - 1][..k] == adds[..k];
      AddsErrorPersists(t, user, adds[..|adds| - 1], k, now);
      if k == |adds| - 1 {
        assert adds[..|adds| - 1] == adds[..k];
      }
    } else {
      assert adds[..k] == adds;
    }
  }

  /** Once a prefix of the delete list fails, the whole list fails with the same error. */
  lemma {:induction false} DeletesErrorPersists(t: Tables, user: int, dels: seq<string>, k: nat, now: DateTime)
    requires k <= |dels| && ApplyDeletes(t, user, dels[..k], now).Err?
    ensures ApplyDeletes(t, user, dels, now) == ApplyDeletes(t, user, dels[..k], now)
    decreases |dels| - k
  {
    if k < |dels| {
      assert dels[..|dels| - 1][..k] == dels[..k];
      DeletesErrorPersists(t, user, dels[..|dels| - 1], k, now);
      if k == |dels| - 1 {
        assert dels[..|dels| - 1] == dels[..k];
      }
    } else {
      assert dels[..k] == dels;
    }
  }

  /** The closed form of the add loop, as a predicate so its proof can go step by step. */
  ghost predicate AddsOutcome(t: Tables, user: int, adds: seq<string>, now: DateTime)
  {
    var r := ApplyAdds(t, user, adds, now);
    && (r.Ok? <==> AddsSucceed(t, user, adds))
    && (r.Ok? ==> r.value.segments == t.segments
                  && r.value.memberships == t.memberships + Pairs(user, adds)
                  && r.value.operations == t.operations + ManualRows(user, FreshAdds(t.memberships, user, adds), now, Add))
    && (r.Err? ==> exists k :: FirstMissing(t, user, adds, k) && r.error == MissingSegment(adds[k]))
  }

  lemma AddsStepAfterError(t: Tables, user: int, prefix: seq<string>, s: string, now: DateTime)
    requires AddsOutcome(t, user, prefix, now) && ApplyAdds(t, user, prefix, now).Err?
    ensures AddsOutcome(t, user, prefix + [s], now)
  {
    var adds := prefix + [s];
    assert adds[..|adds| - 1] == prefix;
    var r1 := ApplyAdds(t, user, prefix, now);
    var k :| FirstMissing(t, user, prefix, k) && r1.error == MissingSegment(prefix[k]);
    assert adds[..k] == prefix[..k];
    assert FirstMissing(t, user, adds, k);
    assert !(adds[k] in t.segments || (user, adds[k]) in t.memberships);
  }

  lemma AddsStepSkip(t: Tables, user: int, prefix: seq<string>, s: string, now: DateTime)
    requires AddsOutcome(t, user, prefix, now) && ApplyAdds(t, user, prefix, now).Ok?
    requires (user, s) in ApplyAdds(t, user, prefix, now).value.memberships
    ensures AddsOutcome(t, user, prefix + [s], now)
  {
    var adds := prefix + [s];
    assert adds[..|adds| - 1] == prefix;
    PairsSnoc(user, prefix, s);
    if (user, s) !in t.memberships {
      var x :| x in prefix && (user, s) == (user, x);
      assert x in t.segments || (user, x) in t.memberships;
    }
    assert AddsSucceed(t, user, adds) by {
      forall i | 0 <= i < |adds| ensures adds[i] in t.segments || (user, adds[i]) in t.memberships {
        if i < |prefix| { assert adds[i] == prefix[i]; }
      }
    }
    assert FreshAdds(t.memberships, user, adds) == FreshAdds(t.memberships, user, prefix);
  }

  lemma AddsStepInsert(t: Tables, user: int, prefix: seq<string>, s: string, now: DateTime)
    requires AddsOutcome(t, user, prefix, now) && ApplyAdds(t, user, prefix, now).Ok?
    requires (user, s) !in ApplyAdds(t, user, prefix, now).value.memberships
    ensures AddsOutcome(t, user, prefix + [s], now)
  {
    var adds := prefix + [s];
    var n := |adds|;
    assert adds[..n - 1] == prefix;
    PairsSnoc(user, prefix, s);
    assert s !in prefix;
    assert (user, s) !in t.memberships;
    if s !in t.segments {
      assert FirstMissing(t, user, adds, n - 1);
      assert !(adds[n - 1] in t.segments || (user, adds[n - 1]) in t.memberships);
    } else {
      assert AddsSucceed(t, user, adds) by {
        forall i | 0 <= i < |adds| ensures adds[i] in t.segments || (user, adds[i]) in t.memberships {
          if i < |prefix| { assert adds[i] == prefix[i]; }
        }
      }
      assert FreshAdds(t.memberships, user, adds) == FreshAdds(t.memberships, user, prefix) + [s];
      ManualRowsSnoc(user, FreshAdds(t.memberships, user, prefix), s, now, Add);
    }
  }

  /**
   * The add loop succeeds exactly when every listed slug names a segment or
   * is already held; it then inserts the missing pairs and appends one "add"
   * row (auto_add false) per pair it inserts; otherwise it fails on the
   * first slug with no segment row.
   */
  lemma {:induction false} ApplyAddsOutcome(t: Tables, user: int, adds: seq<string>, now: DateTime)
    ensures AddsOutcome(t, user, adds, now)
    decreases |adds|
  {
    if adds == [] {
      assert Pairs(user, adds) == {};
    } else {
      var prefix, s := adds[..|adds| - 1], adds[|adds| - 1];
      assert adds == prefix + [s];
      ApplyAddsOutcome(t, user, prefix, now);
      var r1 := ApplyAdds(t, user, prefix, now);
      if r1.Err? {
        AddsStepAfterError(t, user, prefix, s, now);
      } else if (user, s) in r1.value.memberships {
        AddsStepSkip(t, user, prefix, s, now);
      } else {
        AddsStepInsert(t, user, prefix, s, now);
      }
    }
  }

  /** The closed form of the delete loop. */
  ghost predicate DeletesOutcome(t: Tables, user: int, dels: seq<string>, now: DateTime)
  {
    var r := ApplyDeletes(t, user, dels, now);
    && (r.Ok? <==> DeletesSucceed(t.memberships, user, dels))
    && (r.Ok? ==> r.value.segments == t.segments
                  && r.value.memberships == t.memberships - Pairs(user, dels)
                  && r.value.operations == t.operations + ManualRows(user, dels, now, Delete))
    && (r.Err? ==> exists k :: FirstLacking(t.memberships, user, dels, k) && r.error == LacksSegment(user, dels[k]))
  }

  lemma DeletesStepAfterError(t: Tables, user: int, prefix: seq<string>, s: string, now: DateTime)
    requires DeletesOutcome(t, user, prefix, now) && ApplyDeletes(t, user, prefix, now).Err?
    ensures DeletesOutcome(t, user, prefix + [s], now)
  {
    var dels := prefix + [s];
    assert dels[..|dels| - 1] == prefix;
    var r1 := ApplyDeletes(t, user, prefix, now);
    var k :| FirstLacking(t.memberships, user, prefix, k) && r1.error == LacksSegment(user, prefix[k]);
    assert dels[..k] == prefix[..k];
    assert FirstLacking(t.memberships, user, dels, k);
    assert !((user, dels[k]) in t.memberships && dels[k] !in dels[..k]);
  }

  lemma DeletesStepRemove(t: Tables, user: int, prefix: seq<string>, s: string, now: DateTime)
    requires DeletesOutcome(t, user, prefix, now) && ApplyDeletes(t, user, prefix, now).Ok?
    requires (user, s) in ApplyDeletes(t, user, prefix, now).value.memberships
    ensures DeletesOutcome(t, user, prefix + [s], now)
  {
    var dels := prefix + [s];
    var n := |dels|;
    assert dels[..n - 1] == prefix;
    PairsSnoc(user, prefix, s);
    assert (user, s) in t.memberships && s !in prefix;
    assert DeletesSucceed(t.memberships, user, dels) by {
      forall j | 0 <= j < n ensures (user, dels[j]) in t.memberships && dels[j] !in dels[..j] {
        if j < n - 1 {
          assert dels[..j] == prefix[..j];
          assert dels[j] == prefix[j];
        }
      }
    }
    ManualRowsSnoc(user, prefix, s, now, Delete);
  }

  lemma DeletesStepLacking(t: Tables, user: int, prefix: seq<string>, s: string, now: DateTime)
    requires DeletesOutcome(t, user, prefix, now) && ApplyDeletes(t, user, prefix, now).Ok?
    requires (user, s) !in ApplyDeletes(t, user, prefix, now).value.memberships
    ensures DeletesOutcome(t, user, prefix + [s], now)
  {
    var dels := prefix + [s];
    var n := |dels|;
    assert dels[..n - 1] == prefix;
    PairsSnoc(user, prefix, s);
    assert (user, s) !in t.memberships || s in prefix;
    assert FirstLacking(t.memberships, user, dels, n - 1);
    assert !((user, dels[n - 1]) in t.memberships && dels[n - 1] !in dels[..n - 1]);
  }

  /**
   * The delete loop succeeds exactly when every listed pair is present and
   * no slug is listed twice; it then removes those pairs and appends one
   * "delete" row per listed slug, in list order; otherwise it fails with
   * the error of the first delete that affects no row.
   */
  lemma {:induction false} ApplyDeletesOutcome(t: Tables, user: int, dels: seq<string>, now: DateTime)
    ensures DeletesOutcome(t, user, dels, now)
    decreases |dels|
  {
    if dels == [] {
      assert Pairs(user, dels) == {};
    } else {
      var prefix, s := dels[..|dels| - 1], dels[|dels| - 1];
      assert dels == prefix + [s];
      ApplyDeletesOutcome(t, user, prefix, now);
      var r1 := ApplyDeletes(t, user, prefix, now);
      if r1.Err? {
        DeletesStepAfterError(t, user, prefix, s, now);
      } else if (user, s) in r1.value.memberships {
        DeletesStepRemove(t, user, prefix, s, now);
      } else {
        DeletesStepLacking(t, user, prefix, s, now);
      }
    }
  }

  /**
   * UpdateUserSegments in closed form. It succeeds exactly when every add
   * names a segment (or one the user already holds) and every delete then
   * finds its pair, no slug twice. On success the segments are untouched,
   * the user's pairs become (held + added) - deleted, and the log grows by
   * the "add" rows and then the "delete" rows. On failure the error is that
   * of the first failing add, or, when every add succeeds, of the first
   * failing delete.
   */
  lemma UpdateOutcome(t: Tables, user: int, adds: seq<string>, dels: seq<string>, now: DateTime)
    ensures var r := UpdateUserSegments(t, user, adds, dels, now);
      var afterAdds := t.memberships + Pairs(user, adds);
      && (r.Ok? <==> AddsSucceed(t, user, adds) && DeletesSucceed(afterAdds, user, dels))
      && (r.Ok? ==> r.value.segments == t.segments
                    && r.value.memberships == afterAdds - Pairs(user, dels)
                    && r.value.operations == t.operations
                                             + ManualRows(user, FreshAdds(t.memberships, user, adds), now, Add)
                                             + ManualRows(user, dels, now, Delete))
      && (r.Err? && !AddsSucceed(t, user, adds) ==>
            exists k :: FirstMissing(t, user, adds, k) && r.error == MissingSegment(adds[k]))
      && (r.Err? && AddsSucceed(t, user, adds) ==>
            exists k :: FirstLacking(afterAdds, user, dels, k) && r.error == LacksSegment(user, dels[k]))
  {
    ApplyAddsOutcome(t, user, adds, now);
    var r1 := ApplyAdds(t, user, adds, now);
    if r1.Ok? {
      ApplyDeletesOutcome(r1.value, user, dels, now);
    }
  }

  /**
   * Adds run before deletes: a slug in both lists ends up absent, and a
   * slug only added ends up held.
   */
  lemma AddThenDelete(t: Tables, user: int, adds: seq<string>, dels: seq<string>, now: DateTime, s: string)
    requires UpdateUserSegments(t, user, adds, dels, now).Ok?
    ensures s in dels ==> (user, s) !in UpdateUserSegments(t, user, adds, dels, now).value.memberships
    ensures s in adds && s !in dels ==> (user, s) in UpdateUserSegments(t, user, adds, dels, now).value.memberships
  {
    UpdateOutcome(t, user, adds, dels, now);
  }

  /**
   * A successful update writes one audit row per inserted pair and one per
   * deleted pair, all for this user, all stamped with the call's `now` and
   * all manual; the inserted slugs are the listed ones the user lacked, each
   * once, however often the add list repeats them.
   */
  lemma UpdateAuditRows(t: Tables, user: int, adds: seq<string>, dels: seq<string>, now: DateTime)
    requires UpdateUserSegments(t, user, adds, dels, now).Ok?
    ensures var o, n := UpdateUserSegments(t, user, adds, dels, now).value.operations, |t.operations|;
      var inserted := FreshAdds(t.memberships, user, adds);
      && |o| == n + |inserted| + |dels|
      && o[..n] == t.operations
      && (forall i :: n <= i < n + |inserted| ==> o[i] == Operation(user, inserted[i - n], now, Add, false))
      && (forall i :: n + |inserted| <= i < |o| ==> o[i] == Operation(user, dels[i - n - |inserted|], now, Delete, false))
  {
    var inserted := FreshAdds(t.memberships, user, adds);
    UpdateLog(t, user, adds, dels, now);
    RowsLayout(t.operations, user, inserted, dels, now, UpdateUserSegments(t, user, adds, dels, now).value.operations);
  }

  /** The rows of a log extended by one add row per `added` slug and then one delete row per `dels` slug. */
  lemma RowsLayout(prefix: seq<Operation>, user: int, added: seq<string>, dels: seq<string>, now: DateTime,
                   o: seq<Operation>)
    requires o == prefix + ManualRows(user, added, now, Add) + ManualRows(user, dels, now, Delete)
    ensures |o| == |prefix| + |added| + |dels| && o[..|prefix|] == prefix
    ensures forall i :: |prefix| <= i < |prefix| + |added| ==>
      o[i] == Operation(user, added[i - |prefix|], now, Add, false)
    ensures forall i :: |prefix| + |added| <= i < |o| ==>
      o[i] == Operation(user, dels[i - |prefix| - |added|], now, Delete, false)
  {
    var a, d := ManualRows(user, added, now, Add), ManualRows(user, dels, now, Delete);
    LogLayout(prefix, a, d, o);
  }

  /** Where each element sits in `prefix + a + d`. */
  lemma LogLayout<T>(prefix: seq<T>, a: seq<T>, d: seq<T>, o: seq<T>)
    requires o == prefix + a + d
    ensures |o| == |prefix| + |a| + |d| && o[..|prefix|] == prefix
    ensures forall i :: |prefix| <= i < |prefix| + |a| ==> o[i] == a[i - |prefix|]
    ensures forall i :: |prefix| + |a| <= i < |o| ==> o[i] == d[i - |prefix| - |a|]
  {
  }

  /** The log a successful update leaves: the old log, its add rows, then its delete rows. */
  lemma UpdateLog(t: Tables, user: int, adds: seq<string>, dels: seq<string>, now: DateTime)
    requires UpdateUserSegments(t, user, adds, dels, now).Ok?
    ensures UpdateUserSegments(t, user, adds, dels, now).value.operations
      == t.operations + ManualRows(user, FreshAdds(t.memberships, user, adds), now, Add)
                      + ManualRows(user, dels, now, Delete)
  {
    UpdateOutcome(t, user, adds, dels, now);
  }

  /** An update changes only the calling user's pairs. */
  lemma OtherUsersUntouched(t: Tables, user: int, adds: seq<string>, dels: seq<string>, now: DateTime, p: (int, string))
    requires UpdateUserSegments(t, user, adds, dels, now).Ok?
    requires p.0 != user
    ensures p in UpdateUserSegments(t, user, adds, dels, now).value.memberships <==> p in t.memberships
  {
    UpdateOutcome(t, user, adds, dels, now);
  }

  /** An update keeps the foreign key: every pair still names a segment row. */
  lemma UpdateKeepsReferences(t: Tables, user: int, adds: seq<string>, dels: seq<string>, now: DateTime)
    requires ReferencesExist(t)
    requires UpdateUserSegments(t, user, adds, dels, now).Ok?
    ensures ReferencesExist(UpdateUserSegments(t, user, adds, dels, now).value)
  {
    UpdateOutcome(t, user, adds, dels, now);
    var t' := UpdateUserSegments(t, user, adds, dels, now).value;
    forall p | p in t'.memberships ensures p.1 in t'.segments {
      if p !in t.memberships {
        var x :| x in adds && p == (user, x);
        var i :| 0 <= i < |adds| && adds[i] == x;
      }
    }
  }

  /**
   * Adding is idempotent: repeating a successful add-only update, at any
   * later instant, succeeds and changes nothing, writing no audit row.
   */
  lemma RepeatedAddIsNoOp(t: Tables, user: int, adds: seq<string>, now: DateTime, later: DateTime)
    requires UpdateUserSegments(t, user, adds, [], now).Ok?
    ensures UpdateUserSegments(UpdateUserSegments(t, user, adds, [], now).value, user, adds, [], later)
            == UpdateUserSegments(t, user, adds, [], now)
  {
    var t1 := UpdateUserSegments(t, user, adds, [], now).value;
    assert Pairs(user, []) == {};
    assert t1.memberships == t.memberships + Pairs(user, adds) by {
      UpdateOutcome(t, user, adds, [], now);
    }
    assert AddsSucceed(t1, user, adds) by {
      forall i | 0 <= i < |adds| ensures (user, adds[i]) in t1.memberships {
        assert adds[i] in adds;
        assert (user, adds[i]) in Pairs(user, adds);
      }
    }
    FreshAddsNone(t1.memberships, user, adds);
    assert ManualRows(user, [], later, Add) == [] && ManualRows(user, [], later, Delete) == [];
    var r2 := UpdateUserSegments(t1, user, adds, [], later);
    assert r2.Ok? && r2.value == t1 by {
      UpdateOutcome(t1, user, adds, [], later);
      assert DeletesSucceed(t1.memberships + Pairs(user, adds), user, []);
    }
  }

  // ---------------------------------------------------------------------
  // Auto-enrollment (AutoAddUserSegments, countUsers, addSegmentToUsers).

  /** `floor(N * p / 100)`: how many of the N known users a segment of percentage p should reach. */
  function AutoAddTarget(n: nat, p: Percent): (target: nat)
    ensures target <= n
    ensures p == 100 ==> target == n
    ensures p == 0 ==> target == 0
  {
    assert n * p <= n * 100;
    n * p / 100
  }

  function Max(a: int, b: int): int { if a >= b then a else b }

  /** The (user_id, segment_slug) pair an audit row is about. */
  function RowPair(o: Operation): (int, string) { (o.userID, o.slug) }

  /**
   * `rows` are the audit rows of the auto-enrolled pairs `added`: each is an
   * "add" row with auto_add true stamped `now`, no pair has two rows, and
   * every added pair has one.
   */
  ghost predicate AutoRows(rows: seq<Operation>, added: set<(int, string)>, now: DateTime)
  {
    && (forall i :: 0 <= i < |rows| ==>
          rows[i].action == Add && rows[i].autoAdd && rows[i].date == now && RowPair(rows[i]) in added)
    && (forall i, j :: 0 <= i < j < |rows| ==> RowPair(rows[i]) != RowPair(rows[j]))
    && (forall p :: p in added ==> exists i :: 0 <= i < |rows| && RowPair(rows[i]) == p)
  }

  lemma AutoRowsConcat(a: seq<Operation>, x: set<(int, string)>, b: seq<Operation>, y: set<(int, string)>, now: DateTime)
    requires AutoRows(a, x, now) && AutoRows(b, y, now) && x !! y
    ensures AutoRows(a + b, x + y, now)
  {
    var ab := a + b;
    forall i, j | 0 <= i < j < |ab| ensures RowPair(ab[i]) != RowPair(ab[j]) {
      if j < |a| {
        assert ab[i] == a[i] && ab[j] == a[j];
      } else if i >= |a| {
        assert ab[i] == b[i - |a|] && ab[j] == b[j - |a|];
      } else {
        assert RowPair(ab[i]) in x && RowPair(ab[j]) in y;
      }
    }
    forall p | p in x + y ensures exists i :: 0 <= i < |ab| && RowPair(ab[i]) == p {
      if p in x {
        var i :| 0 <= i < |a| && RowPair(a[i]) == p;
        assert ab[i] == a[i];
      } else {
        var i :| 0 <= i < |b| && RowPair(b[i]) == p;
        assert ab[|a| + i] == b[i];
      }
    }
  }

  /** The audit rows addSegmentToUsers writes for `users`, in order. */
  function AutoRowsFor(users: seq<int>, slug: string, now: DateTime): (rows: seq<Operation>)
    ensures |rows| == |users|
    ensures forall i :: 0 <= i < |users| ==> rows[i] == Operation(users[i], slug, now, Add, true)
  {
    if users == [] then []
    else AutoRowsFor(users[..|users| - 1], slug, now) + [Operation(users[|users| - 1], slug, now, Add, true)]
  }

  lemma CardinalityOfSubset<T>(a: set<T>, b: set<T>)
    requires a <= b
    ensures |b - a| == |b| - |a|
  {
    assert b == (b - a) + a;
    assert (b - a) * a == {};
  }

  lemma DisjointUnionCardinality<T>(a: set<T>, b: set<T>)
    requires a !! b
    ensures |a + b| == |a| + |b|
  {
    assert a * b == {};
  }

  /** Some element of a non-empty set (the row a query returns first). */
  lemma Element<T>(s: set<T>) returns (x: T)
    requires s != {}
    ensures x in s
  {
    if forall y :: y !in s {
      assert false;
    }
    x :| x in s;
  }

  lemma MemberIff(ms: set<(int, string)>, u: int, slug: string)
    ensures u in Members(ms, slug) <==> (u, slug) in ms
  {
    if (u, slug) in ms {
      assert (u, slug).0 == u;
    }
  }

  lemma MembersAreKnown(ms: set<(int, string)>, slug: string)
    ensures Members(ms, slug) <= KnownUsers(ms)
  {
  }

  /** The membership rows of `users` enrolled in `slug`. */
  function Enrollments(users: seq<int>, slug: string): set<(int, string)>
  {
    set u | u in users :: (u, slug)
  }

  lemma EnrollmentsFacts(ms: set<(int, string)>, users: seq<int>, slug: string)
    requires forall i :: 0 <= i < |users| ==> users[i] in KnownUsers(ms)
    ensures KnownUsers(ms + Enrollments(users, slug)) == KnownUsers(ms)
    ensures Members(ms + Enrollments(users, slug), slug) == Members(ms, slug) + (set u | u in users)
    ensures forall s :: s != slug ==> Members(ms + Enrollments(users, slug), s) == Members(ms, s)
  {
    var ms' := ms + Enrollments(users, slug);
    forall u | u in users ensures u in Members(ms', slug) {
      assert (u, slug) in ms';
    }
    forall u | u in KnownUsers(ms') ensures u in KnownUsers(ms) {
      var s :| (u, s) in ms';
      if (u, s) !in ms {
        assert u in users;
      }
    }
  }

  /**
   * The `SELECT DISTINCT user_id ... LIMIT limit` of addSegmentToUsers: up
   * to `limit` distinct users out of `eligible`, as many as there are.
   */
  method PickUsers(eligible: set<int>, limit: nat) returns (userIDs: seq<int>)
    ensures forall i :: 0 <= i < |userIDs| ==> userIDs[i] in eligible
    ensures forall i, j :: 0 <= i < j < |userIDs| ==> userIDs[i] != userIDs[j]
    ensures |userIDs| == if limit <= |eligible| then limit else |eligible|
    ensures |set u | u in userIDs| == |userIDs|
  {
    userIDs := [];
    var rest := eligible;
    while |userIDs| < limit && rest != {}
      invariant rest <= eligible
      invariant |userIDs| + |rest| == |eligible|
      invariant |userIDs| <= limit
      invariant forall i :: 0 <= i < |userIDs| ==> userIDs[i] in eligible && userIDs[i] !in rest
      invariant forall i, j :: 0 <= i < j < |userIDs| ==> userIDs[i] != userIDs[j]
      invariant forall v :: v in eligible && v !in rest ==> v in userIDs
      decreases rest
    {
      ghost var w := Element(rest);
      var u :| u in rest;
      userIDs := userIDs + [u];
      rest := rest - {u};
    }
    forall u ensures u in userIDs <==> u in eligible - rest {
      if u in userIDs {
        var i :| 0 <= i < |userIDs| && userIDs[i] == u;
      }
    }
    assert (set u | u in userIDs) == eligible - rest;
    CardinalityOfSubset(rest, eligible);
  }

  /** The insert loop of addSegmentToUsers: one membership and one auto "add" row per user, in order. */
  method EnrollUsers(t: Tables, slug: string, userIDs: seq<int>, now: DateTime) returns (t': Tables)
    requires slug in t.segments
    requires forall i :: 0 <= i < |userIDs| ==> (userIDs[i], slug) !in t.memberships
    requires forall i, j :: 0 <= i < j < |userIDs| ==> userIDs[i] != userIDs[j]
    ensures t'.segments == t.segments
    ensures t'.memberships == t.memberships + Enrollments(userIDs, slug)
    ensures t'.operations == t.operations + AutoRowsFor(userIDs, slug, now)
  {
    t' := t;
    for i := 0 to |userIDs|
      invariant t'.segments == t.segments
      invariant t'.memberships == t.memberships + Enrollments(userIDs[..i], slug)
      invariant t'.operations == t.operations + AutoRowsFor(userIDs[..i], slug, now)
    {
      var u := userIDs[i];
      assert userIDs[..i + 1] == userIDs[..i] + [u];
      EnrollmentsSnoc(userIDs[..i], slug, u);
      AutoRowsForSnoc(userIDs[..i], slug, u, now);
      assert (u, slug) !in Enrollments(userIDs[..i], slug) by {
        EnrollmentsMember(userIDs[..i], slug, u);
        assert forall k :: 0 <= k < i ==> userIDs[..i][k] != u;
      }
      t' := AddUserSegment(t', slug, u, true, now).value;
    }
    assert userIDs[..|userIDs|] == userIDs;
  }

  lemma EnrollmentsSnoc(users: seq<int>, slug: string, u: int)
    ensures Enrollments(users + [u], slug) == Enrollments(users, slug) + {(u, slug)}
  {
    var all := users + [u];
    forall p | p in Enrollments(all, slug) ensures p in Enrollments(users, slug) + {(u, slug)} {
      var v :| v in all && p == (v, slug);
      if v != u { assert v in users; }
    }
  }

  lemma AutoRowsForSnoc(users: seq<int>, slug: string, u: int, now: DateTime)
    ensures AutoRowsFor(users + [u], slug, now) == AutoRowsFor(users, slug, now) + [Operation(u, slug, now, Add, true)]
  {
    assert (users + [u])[..|users|] == users;
  }

  lemma EnrollmentsMember(users: seq<int>, slug: string, u: int)
    ensures (u, slug) in Enrollments(users, slug) <==> exists k :: 0 <= k < |users| && users[k] == u
  {
  }

  lemma AutoRowsForEnrollments(users: seq<int>, slug: string, now: DateTime)
    requires forall i, j :: 0 <= i < j < |users| ==> users[i] != users[j]
    ensures AutoRows(AutoRowsFor(users, slug, now), Enrollments(users, slug), now)
  {
    var rows := AutoRowsFor(users, slug, now);
    forall p | p in Enrollments(users, slug) ensures exists i :: 0 <= i < |rows| && RowPair(rows[i]) == p {
      var j :| 0 <= j < |users| && users[j] == p.0;
      assert RowPair(rows[j]) == p;
    }
  }

  /** The member count after enrolling `picked` fresh users: `have + picked`, capped as PickUsers caps it. */
  lemma EnrolledCount(ms: set<(int, string)>, slug: string, users: seq<int>, amount: int)
    requires |Members(ms, slug)| < amount
    requires forall i :: 0 <= i < |users| ==> users[i] in KnownUsers(ms) - Members(ms, slug)
    requires |set u | u in users| == |users|
    requires var eligible := |KnownUsers(ms) - Members(ms, slug)|;
      |users| == if amount - |Members(ms, slug)| <= eligible then amount - |Members(ms, slug)| else eligible
    ensures |Members(ms, slug) + (set u | u in users)|
        == if amount <= |KnownUsers(ms)| then amount else |KnownUsers(ms)|
  {
    MembersAreKnown(ms, slug);
    CardinalityOfSubset(Members(ms, slug), KnownUsers(ms));
    DisjointUnionCardinality(Members(ms, slug), set u | u in users);
  }

  /**
   * addSegmentToUsers: if the segment already has `amount` members nothing
   * happens; otherwise it enrolls up to `amount - have` known users that do
   * not hold it (as many as there are), writing one auto "add" row per
   * enrollment. Only this segment's members change, and the set of known
   * users stays the same.
   */
  method AddSegmentToUsers(t: Tables, slug: string, amount: int, now: DateTime) returns (t': Tables)
    requires slug in t.segments
    ensures t'.segments == t.segments
    ensures t.memberships <= t'.memberships
    ensures forall p :: p in t'.memberships - t.memberships ==> p.1 == slug
    ensures KnownUsers(t'.memberships) == KnownUsers(t.memberships)
    ensures forall s :: s != slug ==> Members(t'.memberships, s) == Members(t.memberships, s)
    ensures var have := |Members(t.memberships, slug)|;
      |Members(t'.memberships, slug)|
        == if have >= amount then have
           else if amount <= |KnownUsers(t.memberships)| then amount
           else |KnownUsers(t.memberships)|
    ensures |Members(t.memberships, slug)| >= amount ==> t' == t
    ensures |t.operations| <= |t'.operations| && t'.operations[..|t.operations|] == t.operations
    ensures AutoRows(t'.operations[|t.operations|..], t'.memberships - t.memberships, now)
  {
    var num := |Members(t.memberships, slug)|;
    if num >= amount {
      assert t.operations[..|t.operations|] == t.operations;
      return t;
    }
    var eligible := KnownUsers(t.memberships) - Members(t.memberships, slug);
    var userIDs := PickUsers(eligible, amount - num);
    forall i | 0 <= i < |userIDs| ensures (userIDs[i], slug) !in t.memberships {
      MemberIff(t.memberships, userIDs[i], slug);
    }
    t' := EnrollUsers(t, slug, userIDs, now);
    EnrollmentsFacts(t.memberships, userIDs, slug);
    EnrolledCount(t.memberships, slug, userIDs, amount);
    assert t'.memberships - t.memberships == Enrollments(userIDs, slug);
    AutoRowsForEnrollments(userIDs, slug, now);
    assert t'.operations[..|t.operations|] == t.operations;
    assert t'.operations[|t.operations|..] == AutoRowsFor(userIDs, slug, now);
  }

  /** The segments with a positive auto_add_percentage, as `(slug, percentage)` pairs. */
  ghost predicate AutoSegments(t: Tables, segs: seq<(string, Percent)>)
  {
    && (forall i :: 0 <= i < |segs| ==>
          segs[i].0 in t.segments && segs[i].1 == t.segments[segs[i].0].percentage && segs[i].1 > 0)
    && (forall i, j :: 0 <= i < j < |segs| ==> segs[i].0 != segs[j].0)
    && (forall s :: s in t.segments && t.segments[s].percentage > 0 ==> exists i :: 0 <= i < |segs| && segs[i].0 == s)
  }

  /** `SELECT slug, auto_add_percentage FROM segments WHERE auto_add_percentage > 0`. */
  method SelectAutoSegments(t: Tables) returns (segs: seq<(string, Percent)>)
    ensures AutoSegments(t, segs)
  {
    segs := [];
    var rest := set s | s in t.segments && t.segments[s].percentage > 0;
    while rest != {}
      invariant forall s :: s in rest ==> s in t.segments && t.segments[s].percentage > 0
      invariant forall i :: 0 <= i < |segs| ==>
          segs[i].0 in t.segments && segs[i].1 == t.segments[segs[i].0].percentage && segs[i].1 > 0 && segs[i].0 !in rest
      invariant forall i, j :: 0 <= i < j < |segs| ==> segs[i].0 != segs[j].0
      invariant forall s :: s in t.segments && t.segments[s].percentage > 0 && s !in rest ==>
          exists i :: 0 <= i < |segs| && segs[i].0 == s
      decreases rest
    {
      ghost var w := Element(rest);
      var slug :| slug in rest;
      ghost var prev := segs;
      segs := segs + [(slug, t.segments[slug].percentage)];
      rest := rest - {slug};
      forall s | s in t.segments && t.segments[s].percentage > 0 && s !in rest
        ensures exists i :: 0 <= i < |segs| && segs[i].0 == s
      {
        if s == slug {
          assert segs[|segs| - 1].0 == s;
        } else {
          var i :| 0 <= i < |prev| && prev[i].0 == s;
          assert segs[i] == prev[i];
        }
      }
    }
  }

  /** The audit rows of a chain of two steps are the rows of each step, in order. */
  lemma AutoRowsChain(t0: Tables, t1: Tables, t2: Tables, now: DateTime)
    requires t0.memberships <= t1.memberships <= t2.memberships
    requires |t0.operations| <= |t1.operations| && t1.operations[..|t0.operations|] == t0.operations
    requires |t1.operations| <= |t2.operations| && t2.operations[..|t1.operations|] == t1.operations
    requires AutoRows(t1.operations[|t0.operations|..], t1.memberships - t0.memberships, now)
    requires AutoRows(t2.operations[|t1.operations|..], t2.memberships - t1.memberships, now)
    ensures t2.operations[..|t0.operations|] == t0.operations
    ensures AutoRows(t2.operations[|t0.operations|..], t2.memberships - t0.memberships, now)
  {
    var n0, n1 := |t0.operations|, |t1.operations|;
    assert t2.operations[..n0] == t2.operations[..n1][..n0];
    assert t2.operations[n0..] == t1.operations[n0..] + t2.operations[n1..];
    assert t2.memberships - t0.memberships == (t1.memberships - t0.memberships) + (t2.memberships - t1.memberships);
    AutoRowsConcat(t1.operations[n0..], t1.memberships - t0.memberships,
                   t2.operations[n1..], t2.memberships - t1.memberships, now);
  }

  /**
   * AutoAddUserSegments: with N the number of distinct users counted once
   * at the start, every segment with auto_add_percentage p > 0 ends with
   * max(have, floor(N * p / 100)) members; no other segment changes, no
   * user appears or disappears, and every new membership has exactly one
   * auto "add" row stamped `now`.
   */
  method AutoAddUserSegments(t: Tables, now: DateTime) returns (t': Tables)
    ensures t'.segments == t.segments
    ensures t.memberships <= t'.memberships
    ensures KnownUsers(t'.memberships) == KnownUsers(t.memberships)
    ensures forall p :: p in t'.memberships - t.memberships ==>
      p.1 in t.segments && t.segments[p.1].percentage > 0
    ensures forall s :: s in t.segments && t.segments[s].percentage > 0 ==>
      |Members(t'.memberships, s)|
        == Max(|Members(t.memberships, s)|, AutoAddTarget(|KnownUsers(t.memberships)|, t.segments[s].percentage))
    ensures forall s :: !(s in t.segments && t.segments[s].percentage > 0) ==>
      Members(t'.memberships, s) == Members(t.memberships, s)
    ensures |t.operations| <= |t'.operations| && t'.operations[..|t.operations|] == t.operations
    ensures AutoRows(t'.operations[|t.operations|..], t'.memberships - t.memberships, now)
  {
    var count := |KnownUsers(t.memberships)|;
    var segs := SelectAutoSegments(t);
    t' := t;
    assert t.operations[..|t.operations|] == t.operations;
    assert t.operations[|t.operations|..] == [];
    for i := 0 to |segs|
      invariant ToppedUp(t, t', segs, i, count)
      invariant |t.operations| <= |t'.operations| && t'.operations[..|t.operations|] == t.operations
      invariant AutoRows(t'.operations[|t.operations|..], t'.memberships - t.memberships, now)
    {
      var (slug, percentage) := segs[i];
      var prev := t';
      t' := AddSegmentToUsers(t', slug, AutoAddTarget(count, percentage), now);
      AutoRowsChain(t, prev, t', now);
      ToppedUpStep(t, prev, t', segs, i, count);
    }
    forall s | s in t.segments && t.segments[s].percentage > 0
      ensures |Members(t'.memberships, s)|
        == Max(|Members(t.memberships, s)|, AutoAddTarget(|KnownUsers(t.memberships)|, t.segments[s].percentage))
    {
      var j :| 0 <= j < |segs| && segs[j].0 == s;
    }
    forall s | !(s in t.segments && t.segments[s].percentage > 0)
      ensures Members(t'.memberships, s) == Members(t.memberships, s)
    {
      forall j | 0 <= j < |segs| ensures segs[j].0 != s {
        assert segs[j].0 in t.segments && t.segments[segs[j].0].percentage > 0;
      }
    }
  }

  /**
   * What the top-up loop keeps after the first `i` segments of `segs`: the
   * catalog and the known users are unchanged, every new membership is in
   * an auto-enrolled segment, each processed segment has reached
   * max(have, target) members and every other segment is untouched.
   */
  ghost predicate ToppedUp(t: Tables, t': Tables, segs: seq<(string, Percent)>, i: int, count: nat)
    requires 0 <= i <= |segs|
  {
    && t'.segments == t.segments
    && t.memberships <= t'.memberships
    && KnownUsers(t'.memberships) == KnownUsers(t.memberships)
    && (forall p :: p in t'.memberships - t.memberships ==> p.1 in t.segments && t.segments[p.1].percentage > 0)
    && (forall j :: 0 <= j < i ==>
          |Members(t'.memberships, segs[j].0)| == Max(|Members(t.memberships, segs[j].0)|, AutoAddTarget(count, segs[j].1)))
    && (forall s :: (forall j :: 0 <= j < i ==> segs[j].0 != s) ==> Members(t'.memberships, s) == Members(t.memberships, s))
  }

  /** One iteration of the top-up loop: topping up `segs[i]` as AddSegmentToUsers promises extends the progress to `i + 1`. */
  lemma ToppedUpStep(t: Tables, prev: Tables, next: Tables, segs: seq<(string, Percent)>, i: int, count: nat)
    requires AutoSegments(t, segs) && 0 <= i < |segs| && count == |KnownUsers(t.memberships)|
    requires ToppedUp(t, prev, segs, i, count)
    requires next.segments == prev.segments && prev.memberships <= next.memberships
    requires forall p :: p in next.memberships - prev.memberships ==> p.1 == segs[i].0
    requires KnownUsers(next.memberships) == KnownUsers(prev.memberships)
    requires forall s :: s != segs[i].0 ==> Members(next.memberships, s) == Members(prev.memberships, s)
    requires var have, amount := |Members(prev.memberships, segs[i].0)|, AutoAddTarget(count, segs[i].1);
      |Members(next.memberships, segs[i].0)|
        == if have >= amount then have
           else if amount <= |KnownUsers(prev.memberships)| then amount
           else |KnownUsers(prev.memberships)|
    ensures ToppedUp(t, next, segs, i + 1, count)
  {
    var slug := segs[i].0;
    assert Members(prev.memberships, slug) == Members(t.memberships, slug) by {
      forall j | 0 <= j < i ensures segs[j].0 != slug {
        assert segs[j].0 != segs[i].0;
      }
    }
    forall j | 0 <= j < i + 1
      ensures |Members(next.memberships, segs[j].0)| == Max(|Members(t.memberships, segs[j].0)|, AutoAddTarget(count, segs[j].1))
    {
      if j < i {
        assert segs[j].0 != segs[i].0;
      }
    }
    forall s | forall j :: 0 <= j < i + 1 ==> segs[j].0 != s
      ensures Members(next.memberships, s) == Members(t.memberships, s)
    {
      assert segs[i].0 != s;
    }
  }
}
