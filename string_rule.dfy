/** validate.string: a non-empty string that meets every option given. */
module StringRule {
  import opened Text
  import opened Input

  /** The options object. A number option is absent (None) or gives its
      bound; a flag applies when it is true. */
  datatype Options = Options(
    fixedLength: Option<int>,
    min: Option<int>,
    max: Option<int>,
    noRepetition: bool,
    matchName: bool,
    matchFullname: bool,
    matchPostalCode: bool)

  /** The empty options object {}. */
  const NoOptions := Options(None, None, None, false, false, false, false)

  // ---------------------------------------------------------------------
  // noRepetition: the whole string is one shorter unit written at least twice

  /** n is a multiple of p. Written by repeated subtraction rather than as
      n % p == 0 so that the proofs below need no nonlinear arithmetic. */
  predicate IsMultiple(n: nat, p: nat)
    requires p > 0
    decreases n
  {
    if n < p then n == 0 else IsMultiple(n - p, p)
  }

  /** n / p for a multiple n of p. */
  function Quotient(n: nat, p: nat): (k: nat)
    requires p > 0 && IsMultiple(n, p)
    ensures k * p == n
    decreases n
  {
    if n < p then 0 else Quotient(n - p, p) + 1
  }

  lemma {:induction false} MultipleOf(k: nat, p: nat)
    requires p > 0
    ensures IsMultiple(k * p, p)
  {
    if k > 0 {
      assert k * p - p == (k - 1) * p;
      MultipleOf(k - 1, p);
    }
  }

  /** The rule's test: shifting s by p, a proper divisor of its length,
      leaves it unchanged. */
  predicate HasPeriod(s: string, p: nat) {
    0 < p < |s| && IsMultiple(|s|, p) && s[p..] == s[..|s| - p]
  }

  predicate IsRepetition(s: string) {
    exists p :: 0 < p < |s| && HasPeriod(s, p)
  }

  /** u written k times. */
  function Repeat(u: string, k: nat): string {
    if k == 0 then [] else Repeat(u, k - 1) + u
  }

  /** The reading of the option as a reader states it. */
  ghost predicate RepeatedUnit(s: string) {
    exists u: string, k: nat :: |u| > 0 && k >= 2 && s == Repeat(u, k)
  }

  lemma {:induction false} RepeatLength(u: string, k: nat)
    ensures |Repeat(u, k)| == k * |u|
  {
    if k > 0 { RepeatLength(u, k - 1); }
  }

  lemma {:induction false} RepeatFront(u: string, k: nat)
    requires k >= 1
    ensures Repeat(u, k) == u + Repeat(u, k - 1)
  {
    if k > 1 { RepeatFront(u, k - 1); }
  }

  /** The first m characters of a string unchanged by a shift of p are
      unchanged by it too. */
  lemma ShiftPrefix(s: string, p: nat, m: nat)
    requires p <= m && |s| == m + p
    requires s[p..] == s[..m]
    ensures s[..m][p..] == s[..m][..m - p]
    ensures s[m..] == s[..m][m - p..]
  {
    assert s[..m][p..] == s[p..][..m - p];
    assert s[m..] == s[p..][m - p..];
  }

  /** A string unchanged by a shift of p, a divisor of its length, is its
      first p characters repeated. */
  lemma {:induction false} ShiftIsRepeat(s: string, p: nat)
    requires 0 < p <= |s| && IsMultiple(|s|, p)
    requires s[p..] == s[..|s| - p]
    ensures s == Repeat(s[..p], Quotient(|s|, p))
    decreases |s|
  {
    var u := s[..p];
    if |s| > p {
      var m := |s| - p;
      var t := s[..m];
      ShiftPrefix(s, p, m);
      ShiftIsRepeat(t, p);
      assert t[..p] == u;
      assert s == t + s[m..];
    } else {
      assert Repeat(u, 1) == u;
    }
  }

  /** The shift test finds exactly the strings made of a repeated unit. */
  lemma RepetitionIsRepeatedUnit(s: string)
    ensures IsRepetition(s) <==> RepeatedUnit(s)
  {
    if IsRepetition(s) {
      var p :| 0 < p < |s| && HasPeriod(s, p);
      assert Quotient(|s|, p) == Quotient(|s| - p, p) + 1;
      assert Quotient(|s| - p, p) >= 1;
      ShiftIsRepeat(s, p);
    }
    if RepeatedUnit(s) {
      var u: string, k: nat :| |u| > 0 && k >= 2 && s == Repeat(u, k);
      RepeatLength(u, k);
      RepeatLength(u, k - 1);
      MultipleOf(k, |u|);
      RepeatFront(u, k);
      assert s[|u|..] == Repeat(u, k - 1);
      assert s[..|s| - |u|] == Repeat(u, k - 1);
      assert HasPeriod(s, |u|);
    }
  }

  // ---------------------------------------------------------------------
  // Character-class options

  predicate IsNameChar(c: char) { IsLetter(c) || c == '\'' || c == '-' }

  predicate IsFullnameChar(c: char) { IsNameChar(c) || c == ' ' }

  predicate IsName(s: string) { All(s, IsNameChar) }

  predicate IsFullname(s: string) { All(s, IsFullnameChar) }

  /** Six digits, the first of them 1 to 9. */
  predicate IsPostalCode(s: string) {
    |s| == 6 && '1' <= s[0] <= '9' && All(s, IsDigit)
  }

  /** A name is also a full name. */
  lemma NameIsFullname(s: string)
    requires IsName(s)
    ensures IsFullname(s)
  {
  }

  /** The postal codes are the six-digit numbers 100000 to 999999. */
  lemma PostalCodeIsSixDigitNumber(s: string)
    ensures IsPostalCode(s) <==> exists n :: 100000 <= n < 1000000 && s == Numeral(n, 6)
  {
    if IsPostalCode(s) {
      NumeralOfDecimal(s);
      LeadingDigit(s);
      assert s == Numeral(DecimalValue(s), 6);
    }
    if exists n :: 100000 <= n < 1000000 && s == Numeral(n, 6) {
      var n :| 100000 <= n < 1000000 && s == Numeral(n, 6);
      DecimalOfNumeral(n, 6);
      LeadingDigit(s);
    }
  }

  // ---------------------------------------------------------------------
  // The rule

  /** The options are checked in the order they are listed; the first one
      that fails gives the reason. */
  function String(v: Value, o: Options): (r: Verdict)
    ensures CheckText(v).Fail? ==> r == CheckText(v)
    ensures r == Pass ==> CheckText(v) == Pass
  {
    if CheckText(v).Fail? then CheckText(v)
    else
      var s := v.s;
      if o.fixedLength.Some? && |s| != o.fixedLength.value then Fail(LengthMismatch)
      else if o.min.Some? && |s| < o.min.value then Fail(BelowMin)
      else if o.max.Some? && |s| > o.max.value then Fail(AboveMax)
      else if o.noRepetition && IsRepetition(s) then Fail(Repetitive)
      else if o.matchName && !IsName(s) then Fail(NotAName)
      else if o.matchFullname && !IsFullname(s) then Fail(NotAFullname)
      else if o.matchPostalCode && !IsPostalCode(s) then Fail(NotAPostalCode)
      else Pass
  }

  /** Each option on its own, as a condition on the string. */
  ghost predicate Meets(s: string, o: Options) {
    && (o.fixedLength.Some? ==> |s| == o.fixedLength.value)
    && (o.min.Some? ==> |s| >= o.min.value)
    && (o.max.Some? ==> |s| <= o.max.value)
    && (o.noRepetition ==> !RepeatedUnit(s))
    && (o.matchName ==> IsName(s))
    && (o.matchFullname ==> IsFullname(s))
    && (o.matchPostalCode ==> IsPostalCode(s))
  }

  /** A string passes exactly when it is non-empty and meets every option,
      whatever order the options are checked in. */
  lemma StringMeetsAll(s: string, o: Options)
    ensures String(Str(s), o) == Pass <==> s != [] && Meets(s, o)
  {
    RepetitionIsRepeatedUnit(s);
  }
}
