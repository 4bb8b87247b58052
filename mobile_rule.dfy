/** validate.mobile: exactly ten decimal digits, nothing else. */
module MobileRule {
  import opened Text
  import opened Input

  const Length := 10

  function Mobile(v: Value): (r: Verdict)
    ensures CheckText(v).Fail? ==> r == CheckText(v)
    ensures v.Str? && (exists k :: 0 <= k < |v.s| && IsSpace(v.s[k])) ==> r == Fail(ContainsSpace)
    ensures v.Str? && v.s != [] && All(v.s, IsDigit) && |v.s| != Length ==> r == Fail(WrongLength)
    ensures r == Pass ==> v.Str? && |v.s| == Length && All(v.s, IsDigit)
  {
    if CheckText(v).Fail? then CheckText(v)
    else if exists k :: 0 <= k < |v.s| && IsSpace(v.s[k]) then Fail(ContainsSpace)
    else if !All(v.s, IsDigit) then Fail(NonDigit)
    else if |v.s| != Length then Fail(WrongLength)
    else Pass
  }

  /** The accepted strings are exactly the ten-digit numerals: the numbers
      below 10^10 written with leading zeros to ten places. */
  lemma MobileIsTenDigitNumeral(s: string)
    ensures Mobile(Str(s)) == Pass <==> exists n :: 0 <= n < Pow10(Length) && s == Numeral(n, Length)
  {
    if Mobile(Str(s)) == Pass {
      NumeralOfDecimal(s);
      assert s == Numeral(DecimalValue(s), Length);
    }
    if exists n :: 0 <= n < Pow10(Length) && s == Numeral(n, Length) {
      var n :| 0 <= n < Pow10(Length) && s == Numeral(n, Length);
      assert forall k :: 0 <= k < |s| ==> !IsSpace(s[k]) by {
        forall k | 0 <= k < |s| ensures !IsSpace(s[k]) { assert IsDigit(s[k]); }
      }
    }
  }
}
