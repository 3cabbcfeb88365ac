/**
 * internal/service/user.go: the guard clauses in front of the membership
 * storage calls.
 */
module UserService {
  import opened Wrappers
  import opened CustomErrors
  import opened Strings
  import opened DateTimes
  import Memberships
  import Postgres

  const ErrBothEmptySegments := "segments to add and segments to delete cannot both be empty"
  const ErrInvalidSegmentRepresentation := "segment can only contain uppercase letters"
  const ErrInvalidUserID := "user id can be only positive number"

  /** Every slug of the list is unchanged by upper-casing. */
  predicate AllUpper(segments: seq<string>)
  {
    forall i :: 0 <= i < |segments| ==> UpperInvariant(segments[i])
  }

  /**
   * The checks of UpdateUserSegments, in source order: a positive user id,
   * at least one non-empty list, then the add list and the delete list
   * slug by slug. The slugs are checked as given, without trimming.
   */
  function ValidateUpdate(segmentsToAdd: seq<string>, segmentsToDelete: seq<string>, userID: int): (r: Option<Error>)
    ensures r == None <==>
      userID > 0 && (segmentsToAdd != [] || segmentsToDelete != [])
      && (forall i :: 0 <= i < |segmentsToAdd| ==> !HasLowerLetter(segmentsToAdd[i]))
      && (forall i :: 0 <= i < |segmentsToDelete| ==> !HasLowerLetter(segmentsToDelete[i]))
    ensures userID <= 0 ==> r == Some(Custom("user_id", ErrInvalidUserID))
    ensures userID > 0 && segmentsToAdd == [] && segmentsToDelete == [] ==>
      r == Some(Custom("segments", ErrBothEmptySegments))
    ensures userID > 0 && (exists i :: 0 <= i < |segmentsToAdd| && HasLowerLetter(segmentsToAdd[i])) ==>
      r == Some(Custom("segment to add", ErrInvalidSegmentRepresentation))
    ensures (&& userID > 0
             && (forall i :: 0 <= i < |segmentsToAdd| ==> !HasLowerLetter(segmentsToAdd[i]))
             && (exists i :: 0 <= i < |segmentsToDelete| && HasLowerLetter(segmentsToDelete[i]))) ==>
      r == Some(Custom("segment to delete", ErrInvalidSegmentRepresentation))
  {
    if userID <= 0 then Some(Custom("user_id", ErrInvalidUserID))
    else if |segmentsToAdd| == 0 && |segmentsToDelete| == 0 then Some(Custom("segments", ErrBothEmptySegments))
    else if !AllUpper(segmentsToAdd) then Some(Custom("segment to add", ErrInvalidSegmentRepresentation))
    else if !AllUpper(segmentsToDelete) then Some(Custom("segment to delete", ErrInvalidSegmentRepresentation))
    else None
  }

  /**
   * UpdateUserSegments: a request that fails the checks leaves the store
   * untouched; one that passes reaches storage with the lists and the user
   * id exactly as given.
   */
  method UpdateUserSegments(db: Postgres.Storage, segmentsToAdd: seq<string>, segmentsToDelete: seq<string>,
                            userID: int, now: DateTime) returns (err: Option<Error>)
    modifies db
    ensures ValidateUpdate(segmentsToAdd, segmentsToDelete, userID).Some? ==>
      err == ValidateUpdate(segmentsToAdd, segmentsToDelete, userID) && db.Snapshot() == old(db.Snapshot())
    ensures ValidateUpdate(segmentsToAdd, segmentsToDelete, userID).None? ==>
      var r := Memberships.UpdateUserSegments(old(db.Snapshot()), userID, segmentsToAdd, segmentsToDelete, now);
      && (r.Ok? ==> err == None && db.Snapshot() == r.value)
      && (r.Err? ==> err == Some(r.error) && db.Snapshot() == old(db.Snapshot()))
  {
    err := ValidateUpdate(segmentsToAdd, segmentsToDelete, userID);
    if err.Some? {
      return;
    }
    err := db.UpdateUserSegments(segmentsToAdd, segmentsToDelete, userID, now);
  }

  /** GetActiveSegments: a non-positive user id is rejected; otherwise the user's slugs, each once. */
  method GetActiveSegments(db: Postgres.Storage, userID: int) returns (slugs: seq<string>, err: Option<Error>)
    ensures userID <= 0 ==> slugs == [] && err == Some(Custom("user_id", ErrInvalidUserID))
    ensures userID > 0 ==> err == None && (forall s :: s in slugs <==> (userID, s) in db.memberships)
    ensures forall i, j :: 0 <= i < j < |slugs| ==> slugs[i] != slugs[j]
  {
    if userID <= 0 {
      return [], Some(Custom("user_id", ErrInvalidUserID));
    }
    slugs := db.GetActiveSegments(userID);
    err := None;
  }
}
