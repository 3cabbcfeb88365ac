/**
 * The parts of Go's `strings` and `strconv` packages that the validators
 * use: TrimSpace, ToUpper/ToLower, decimal digits and Itoa.
 */
module Strings {

  /** unicode.IsSpace: the Latin-1 spaces and the White_Space code points above Latin-1. */
  predicate IsSpace(c: char)
  {
    c == ' ' || c == '\t' || c == '\n' || c == '\r' || c == '\U{000B}' || c == '\U{000C}'
    || c == '\U{0085}' || c == '\U{00A0}' || c == '\U{1680}'
    || ('\U{2000}' <= c <= '\U{200A}')
    || c == '\U{2028}' || c == '\U{2029}' || c == '\U{202F}' || c == '\U{205F}' || c == '\U{3000}'
  }

  function TrimLeft(s: string): (r: string)
    ensures |r| <= |s| && r == s[|s| - |r|..]
    ensures r == [] || !IsSpace(r[0])
    ensures forall i :: 0 <= i < |s| - |r| ==> IsSpace(s[i])
  {
    if s != [] && IsSpace(s[0]) then TrimLeft(s[1..]) else s
  }

  function TrimRight(s: string): (r: string)
    ensures |r| <= |s| && r == s[..|r|]
    ensures r == [] || !IsSpace(r[|r| - 1])
    ensures forall i :: |r| <= i < |s| ==> IsSpace(s[i])
  {
    if s != [] && IsSpace(s[|s| - 1]) then TrimRight(s[..|s| - 1]) else s
  }

  /**
   * strings.TrimSpace: the result is the slice of `s` left after removing
   * every leading and trailing space, and neither of its ends is a space.
   */
  function TrimSpace(s: string): (r: string)
    ensures exists i, j :: 0 <= i <= j <= |s| && r == s[i..j]
                           && (forall k :: 0 <= k < i ==> IsSpace(s[k]))
                           && (forall k :: j <= k < |s| ==> IsSpace(s[k]))
    ensures r == [] || (!IsSpace(r[0]) && !IsSpace(r[|r| - 1]))
  {
    var l := TrimLeft(s);
    var r := TrimRight(l);
    TrimWitness(s, l, r);
    r
  }

  /**
   * When `l` is a suffix of `s` after leading spaces and `r` a prefix of `l`
   * before trailing spaces, `r` is the slice of `s` from `|s| - |l|` to
   * `|s| - |l| + |r|`, with only spaces outside it.
   */
  lemma TrimWitness(s: string, l: string, r: string)
    requires |l| <= |s| && l == s[|s| - |l|..] && forall k :: 0 <= k < |s| - |l| ==> IsSpace(s[k])
    requires |r| <= |l| && r == l[..|r|] && forall k :: |r| <= k < |l| ==> IsSpace(l[k])
    ensures var i, j := |s| - |l|, |s| - |l| + |r|;
      && 0 <= i <= j <= |s| && r == s[i..j]
      && (forall k :: 0 <= k < i ==> IsSpace(s[k]))
      && (forall k :: j <= k < |s| ==> IsSpace(s[k]))
  {
    var i, j := |s| - |l|, |s| - |l| + |r|;
    assert r == l[..|r|] && l == s[i..];
    forall k | 0 <= k < |r| ensures r[k] == s[i..j][k] {
      assert r[k] == l[k];
    }
    forall k | j <= k < |s| ensures IsSpace(s[k]) {
      assert s[k] == l[k - i];
    }
  }

  /** Trimming a string that neither starts nor ends with a space leaves it alone. */
  lemma {:induction false} TrimSpaceIdempotent(s: string)
    ensures TrimSpace(TrimSpace(s)) == TrimSpace(s)
  {
    var t := TrimSpace(s);
    assert TrimLeft(t) == t;
    assert TrimRight(t) == t;
  }

  predicate IsLowerLetter(c: char) { 'a' <= c <= 'z' }

  predicate IsUpperLetter(c: char) { 'A' <= c <= 'Z' }

  function UpperChar(c: char): char
  {
    if IsLowerLetter(c) then (c as int - 32) as char else c
  }

  function LowerChar(c: char): char
  {
    if IsUpperLetter(c) then (c as int + 32) as char else c
  }

  /** strings.ToUpper, on the ASCII letters. */
  function ToUpper(s: string): (r: string)
    ensures |r| == |s|
    ensures forall i :: 0 <= i < |s| ==> r[i] == UpperChar(s[i])
  {
    if s == [] then [] else [UpperChar(s[0])] + ToUpper(s[1..])
  }

  /** strings.ToLower, on the ASCII letters. */
  function ToLower(s: string): (r: string)
    ensures |r| == |s|
    ensures forall i :: 0 <= i < |s| ==> r[i] == LowerChar(s[i])
  {
    if s == [] then [] else [LowerChar(s[0])] + ToLower(s[1..])
  }

  predicate HasLowerLetter(s: string)
  {
    exists i :: 0 <= i < |s| && IsLowerLetter(s[i])
  }

  /**
   * The validators' test `strings.ToUpper(s) == s`: it holds exactly when
   * `s` contains no lower-case letter, so digits, `_` and punctuation pass.
   */
  function UpperInvariant(s: string): (b: bool)
    ensures b <==> !HasLowerLetter(s)
  {
    var u := ToUpper(s);
    assert !HasLowerLetter(s) ==> u == s;
    assert HasLowerLetter(s) ==> exists i :: 0 <= i < |s| && u[i] != s[i];
    u == s
  }

  predicate IsDigit(c: char) { '0' <= c <= '9' }

  predicate AllDigits(s: string)
  {
    forall i :: 0 <= i < |s| ==> IsDigit(s[i])
  }

  /** The value of a string of decimal digits, most significant first. */
  function DigitsValue(s: string): nat
    requires AllDigits(s)
  {
    if s == [] then 0 else DigitsValue(s[..|s| - 1]) * 10 + (s[|s| - 1] as int - '0' as int)
  }

  function DigitChar(d: nat): (c: char)
    requires d < 10
    ensures IsDigit(c) && c as int - '0' as int == d
  {
    ('0' as int + d) as char
  }

  /** The shortest decimal rendering of a natural number. */
  function Digits(n: nat): string
    decreases n
  {
    if n < 10 then [DigitChar(n)] else Digits(n / 10) + [DigitChar(n % 10)]
  }

  /** Digits renders every number as digits that read back as that number. */
  lemma {:induction false} DigitsRoundTrip(n: nat)
    ensures AllDigits(Digits(n)) && |Digits(n)| >= 1
    ensures DigitsValue(Digits(n)) == n
    decreases n
  {
    if n >= 10 {
      DigitsRoundTrip(n / 10);
      var d := Digits(n);
      assert d[..|d| - 1] == Digits(n / 10);
    }
  }

  function Pow10(k: nat): (p: nat)
    ensures p >= 1
  {
    if k == 0 then 1 else 10 * Pow10(k - 1)
  }

  /** A number below 10^w needs at most w digits. */
  lemma {:induction false} DigitsLength(n: nat, w: nat)
    requires w >= 1 && n < Pow10(w)
    ensures |Digits(n)| <= w
    decreases w
  {
    if n >= 10 {
      assert w >= 2;
      assert n / 10 < Pow10(w - 1);
      DigitsLength(n / 10, w - 1);
    }
  }

  function Zeros(k: nat): (z: string)
    ensures |z| == k && AllDigits(z)
    ensures forall i :: 0 <= i < k ==> z[i] == '0'
  {
    if k == 0 then [] else Zeros(k - 1) + ['0']
  }

  /** The digits of `n`, left-padded with zeros to at least `width` characters. */
  function Pad(n: nat, width: nat): string
  {
    if |Digits(n)| < width then Zeros(width - |Digits(n)|) + Digits(n) else Digits(n)
  }

  /** Leading zeros do not change the value of a digit string. */
  lemma {:induction false} ZerosPrefixValue(k: nat, s: string)
    requires AllDigits(s)
    ensures AllDigits(Zeros(k) + s)
    ensures DigitsValue(Zeros(k) + s) == DigitsValue(s)
    decreases |s|
  {
    var z := Zeros(k) + s;
    if s == [] {
      assert z == Zeros(k);
      ZerosValue(k);
    } else {
      assert z[..|z| - 1] == Zeros(k) + s[..|s| - 1];
      ZerosPrefixValue(k, s[..|s| - 1]);
    }
  }

  lemma {:induction false} ZerosValue(k: nat)
    ensures DigitsValue(Zeros(k)) == 0
  {
    if k > 0 {
      assert Zeros(k)[..k - 1] == Zeros(k - 1);
      ZerosValue(k - 1);
    }
  }

  /**
   * A zero-padded field of a number below 10^width is exactly `width`
   * digits long and reads back as the number.
   */
  lemma {:induction false} PadRoundTrip(n: nat, width: nat)
    requires width >= 1 && n < Pow10(width)
    ensures |Pad(n, width)| == width && AllDigits(Pad(n, width))
    ensures DigitsValue(Pad(n, width)) == n
  {
    var d := Digits(n);
    DigitsRoundTrip(n);
    DigitsLength(n, width);
    if |d| < width {
      assert Pad(n, width) == Zeros(width - |d|) + d;
      ZerosPrefixValue(width - |d|, d);
    } else {
      assert Pad(n, width) == d;
    }
  }

  /** A string of k digits spells a number below 10^k. */
  lemma {:induction false} DigitsValueBound(s: string)
    requires AllDigits(s)
    ensures DigitsValue(s) < Pow10(|s|)
    decreases |s|
  {
    if s != [] {
      var init := s[..|s| - 1];
      DigitsValueBound(init);
      assert DigitsValue(s) <= (Pow10(|init|) - 1) * 10 + 9;
    }
  }

  /** Two digit strings of one length that spell the same number are the same string. */
  lemma {:induction false} DigitsValueInjective(a: string, b: string)
    requires AllDigits(a) && AllDigits(b) && |a| == |b|
    requires DigitsValue(a) == DigitsValue(b)
    ensures a == b
    decreases |a|
  {
    if a != [] {
      var n := |a|;
      var da, db := a[n - 1] as int - '0' as int, b[n - 1] as int - '0' as int;
      var va, vb := DigitsValue(a[..n - 1]), DigitsValue(b[..n - 1]);
      assert va * 10 + da == vb * 10 + db;
      assert da == (va * 10 + da) % 10 && db == (vb * 10 + db) % 10;
      assert va == (va * 10 + da) / 10 && vb == (vb * 10 + db) / 10;
      DigitsValueInjective(a[..n - 1], b[..n - 1]);
      assert a == a[..n - 1] + [a[n - 1]] && b == b[..n - 1] + [b[n - 1]];
    }
  }

  /** A fixed-width digit field is the zero-padded rendering of its own value. */
  lemma PadOfDigits(s: string)
    requires AllDigits(s) && |s| >= 1
    ensures Pad(DigitsValue(s), |s|) == s
  {
    DigitsValueBound(s);
    PadRoundTrip(DigitsValue(s), |s|);
    DigitsValueInjective(Pad(DigitsValue(s), |s|), s);
  }

  /** strconv.Itoa (and fmt's %d): a minus sign for negatives, then the digits of the magnitude. */
  function Itoa(n: int): string
  {
    if n < 0 then "-" + Digits(-n) else Digits(n)
  }

  /** Itoa's text reads back as the number it renders. */
  lemma ItoaRoundTrip(n: int)
    ensures n >= 0 ==> AllDigits(Itoa(n)) && DigitsValue(Itoa(n)) == n
    ensures n < 0 ==> Itoa(n)[0] == '-' && AllDigits(Itoa(n)[1..]) && DigitsValue(Itoa(n)[1..]) == -n
  {
    if n < 0 {
      DigitsRoundTrip(-n);
      assert Itoa(n)[1..] == Digits(-n);
    } else {
      DigitsRoundTrip(n);
    }
  }
}
