/**
 * internal/service/segment.go: the slug and percentage checks that run
 * before a segment request reaches storage.
 */
module SegmentService {
  import opened Wrappers
  import opened CustomErrors
  import opened Strings
  import opened Models
  import SegmentTable
  import Postgres

  const ErrEmptySlug := "empty slug"
  const ErrInvalidSlugRepresentation := "slug can only contain uppercase letters"
  const ErrInvalidPercentageZero := "percentage cannot be zero"
  const ErrInvalidPercentageFormat := "invalid percentage format (e.g. 100%, 99%, 1%)"
  const ErrInvalidPercentageTooBig := "percentage cannot be more than 100"

  /** The largest int64, the bound of strconv.ParseInt(_, 10, 64). */
  const MaxInt64: nat := 0x7FFF_FFFF_FFFF_FFFF

  /**
   * The slug checks of CreateSegment and DeleteSegment: trim, then reject
   * the empty slug, then reject a slug that upper-casing would change.
   */
  function NormalizeSlug(slug: string): (r: Result<string, Error>)
    ensures r.Ok? <==> TrimSpace(slug) != [] && !HasLowerLetter(TrimSpace(slug))
    ensures r.Ok? ==> r.value == TrimSpace(slug)
    ensures TrimSpace(slug) == [] ==> r == Err(Custom("slug", ErrEmptySlug))
    ensures TrimSpace(slug) != [] && HasLowerLetter(TrimSpace(slug)) ==>
      r == Err(Custom("slug", ErrInvalidSlugRepresentation))
  {
    var s := TrimSpace(slug);
    if s == [] then Err(Custom("slug", ErrEmptySlug))
    else if !UpperInvariant(s) then Err(Custom("slug", ErrInvalidSlugRepresentation))
    else Ok(s)
  }

  /** A slug that passed the checks passes them again unchanged. */
  lemma NormalizeSlugIdempotent(slug: string)
    requires NormalizeSlug(slug).Ok?
    ensures NormalizeSlug(NormalizeSlug(slug).value) == NormalizeSlug(slug)
  {
    TrimSpaceIdempotent(slug);
  }

  /** The regular expression `^\d+%$`: one or more ASCII digits, then a percent sign, nothing else. */
  predicate WellFormedPercentage(s: string)
  {
    |s| >= 2 && s[|s| - 1] == '%' && AllDigits(s[..|s| - 1])
  }

  /**
   * A left-to-right matcher for `^\d+%$`: `seen` records that at least one
   * digit has been read; a `%` must then be the last character.
   */
  function ScanPercentage(s: string, seen: bool): bool
    decreases |s|
  {
    if s == [] then false
    else if s[0] == '%' then seen && |s| == 1
    else IsDigit(s[0]) && ScanPercentage(s[1..], true)
  }

  /** The predicate accepts exactly the strings the matcher accepts. */
  lemma {:induction false} ScanPercentageAgrees(s: string, seen: bool)
    ensures ScanPercentage(s, seen) <==> |s| >= 1 && s[|s| - 1] == '%' && AllDigits(s[..|s| - 1])
                                          && (seen || |s| >= 2)
    ensures ScanPercentage(s, false) <==> WellFormedPercentage(s)
    decreases |s|
  {
    if s != [] && s[0] != '%' {
      var tail := s[1..];
      ScanPercentageAgrees(tail, true);
      if |s| >= 2 {
        assert s[..|s| - 1] == [s[0]] + tail[..|tail| - 1];
      }
    }
  }

  /** The number a well-formed percentage spells, before any range check. */
  function PercentageValue(s: string): nat
    requires WellFormedPercentage(s)
  {
    DigitsValue(s[..|s| - 1])
  }

  /** The text of strconv.ErrRange from strconv.ParseInt on `digits`. */
  function ParseIntRangeMessage(digits: string): string
  {
    "strconv.ParseInt: parsing \"" + digits + "\": value out of range"
  }

  /**
   * validatePercentage: the empty string means 0 (no auto-enrollment);
   * otherwise the text must be `N%` with 1 <= N <= 100, and the first
   * failing check in the order format, int64 range, > 100, zero names
   * the error.
   */
  function ValidatePercentage(s: string): (r: Result<Percent, Error>)
    ensures r.Ok? <==> s == [] || (WellFormedPercentage(s) && 1 <= PercentageValue(s) <= 100)
    ensures r.Ok? ==> (r.value == 0 <==> s == [])
    ensures r.Ok? && s != [] ==> r.value == PercentageValue(s)
    ensures r.Err? ==> r.error.Custom? && r.error.field == "percentage"
    ensures s != [] && !WellFormedPercentage(s) ==> r == Err(Custom("percentage", ErrInvalidPercentageFormat))
    ensures WellFormedPercentage(s) && PercentageValue(s) > MaxInt64 ==>
      r == Err(Custom("percentage", ParseIntRangeMessage(s[..|s| - 1])))
    ensures WellFormedPercentage(s) && 100 < PercentageValue(s) <= MaxInt64 ==>
      r == Err(Custom("percentage", ErrInvalidPercentageTooBig))
    ensures WellFormedPercentage(s) && PercentageValue(s) == 0 ==>
      r == Err(Custom("percentage", ErrInvalidPercentageZero))
  {
    if s == [] then Ok(0)
    else if !WellFormedPercentage(s) then Err(Custom("percentage", ErrInvalidPercentageFormat))
    else
      var digits := s[..|s| - 1];
      var percentage := DigitsValue(digits);
      if percentage > MaxInt64 then Err(Custom("percentage", ParseIntRangeMessage(digits)))
      else if percentage > 100 then Err(Custom("percentage", ErrInvalidPercentageTooBig))
      else if percentage == 0 then Err(Custom("percentage", ErrInvalidPercentageZero))
      else Ok(percentage)
  }

  /** Every percentage 1..100 written as `N%` validates to itself. */
  lemma ValidatePercentageRoundTrip(p: int)
    requires 1 <= p <= 100
    ensures ValidatePercentage(Itoa(p) + "%") == Ok(p)
  {
    var s := Itoa(p) + "%";
    ItoaRoundTrip(p);
    assert s[..|s| - 1] == Itoa(p);
  }

  /**
   * CreateSegment up to the storage call: both inputs are trimmed, the
   * slug is checked first, then the percentage; on success the trimmed
   * slug and the validated percentage are what storage receives.
   */
  function CreateSegmentRequest(slug: string, percentageStr: string): (r: Result<(string, Percent), Error>)
    ensures NormalizeSlug(slug).Err? ==> r == Err(NormalizeSlug(slug).error)
    ensures NormalizeSlug(slug).Ok? && ValidatePercentage(TrimSpace(percentageStr)).Err? ==>
      r == Err(ValidatePercentage(TrimSpace(percentageStr)).error)
    ensures r.Ok? <==> NormalizeSlug(slug).Ok? && ValidatePercentage(TrimSpace(percentageStr)).Ok?
    ensures r.Ok? ==> r.value.0 == TrimSpace(slug) && r.value.0 != [] && !HasLowerLetter(r.value.0)
    ensures r.Ok? ==> r.value.1 == ValidatePercentage(TrimSpace(percentageStr)).value
  {
    match NormalizeSlug(slug)
    case Err(e) => Err(e)
    case Ok(s) =>
      match ValidatePercentage(TrimSpace(percentageStr))
      case Err(e) => Err(e)
      case Ok(p) => Ok((s, p))
  }

  /** CreateSegment: storage is reached only with a request that validated, and then does the catalog transition. */
  method CreateSegment(db: Postgres.Storage, slug: string, percentageStr: string) returns (err: Option<Error>)
    modifies db
    ensures var req := CreateSegmentRequest(slug, percentageStr);
      && (req.Err? ==> err == Some(req.error) && db.Snapshot() == old(db.Snapshot()))
      && (req.Ok? ==> (db.segments, err) == SegmentTable.Create(old(db.segments), req.value.0, req.value.1)
                      && db.memberships == old(db.memberships) && db.operations == old(db.operations))
  {
    var req := CreateSegmentRequest(slug, percentageStr);
    if req.Err? {
      return Some(req.error);
    }
    err := db.CreateSegment(req.value.0, req.value.1);
  }

  /**
   * DeleteSegment up to the storage call: the same trim, empty and case
   * checks as CreateSegment; on success the trimmed slug is forwarded.
   */
  function DeleteSegmentRequest(slug: string): (r: Result<string, Error>)
    ensures r.Ok? <==> TrimSpace(slug) != [] && !HasLowerLetter(TrimSpace(slug))
    ensures r.Ok? ==> r.value == TrimSpace(slug)
    ensures r.Err? ==> r.error.Custom? && r.error.field == "slug"
    ensures r.Err? ==> CreateSegmentRequest(slug, "") == Err(r.error)
  {
    NormalizeSlug(slug)
  }
}
