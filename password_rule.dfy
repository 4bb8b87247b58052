/** validate.password: at least ten characters, a requested strength of at
    least 3, and a strength (the number of distinct characters) of at least
    the requested one. */
module PasswordRule {
  import opened Text
  import opened Input

  const MinLength := 10
  /** The smallest strength a caller may ask for. */
  const LeastStrength := 3

  /** The number of distinct characters of s. */
  function Strength(s: string): (n: nat)
    ensures n <= |s|
  {
    if s == [] then 0
    else
      var init := s[..|s| - 1];
      Strength(init) + if s[|s| - 1] in init then 0 else 1
  }

  ghost function Chars(s: string): set<char> {
    set k | 0 <= k < |s| :: s[k]
  }

  /** Strength counts the set of characters of s. */
  lemma {:induction false} StrengthCountsChars(s: string)
    ensures Strength(s) == |Chars(s)|
  {
    if s != [] {
      var init := s[..|s| - 1];
      var c := s[|s| - 1];
      StrengthCountsChars(init);
      assert Chars(s) == Chars(init) + {c} by {
        forall x | x in Chars(s) ensures x in Chars(init) + {c} {
          var k :| 0 <= k < |s| && s[k] == x;
          if k < |s| - 1 { assert init[k] == x; }
        }
        forall x | x in Chars(init) + {c} ensures x in Chars(s) {
          if x != c {
            var k :| 0 <= k < |init| && init[k] == x;
            assert s[k] == x;
          }
        }
      }
      if c in init {
        var k :| 0 <= k < |init| && init[k] == c;
        assert c in Chars(init);
      } else {
        assert c !in Chars(init);
      }
    }
  }

  function Password(v: Value, minStrength: int): (r: Verdict)
    ensures CheckText(v).Fail? ==> r == CheckText(v)
    ensures v.Str? && v.s != [] && |v.s| < MinLength ==> r == Fail(TooShort)
    ensures v.Str? && |v.s| >= MinLength && minStrength < LeastStrength ==> r == Fail(StrengthRequestTooLow)
  {
    if CheckText(v).Fail? then CheckText(v)
    else if |v.s| < MinLength then Fail(TooShort)
    else if minStrength < LeastStrength then Fail(StrengthRequestTooLow)
    else if Strength(v.s) < minStrength then Fail(TooWeak)
    else Pass
  }

  /** A password passes exactly when it is long enough and the requested
      strength lies between 3 and its number of distinct characters. */
  lemma PasswordAccepts(s: string, minStrength: int)
    ensures Password(Str(s), minStrength) == Pass
        <==> |s| >= MinLength && LeastStrength <= minStrength <= |Chars(s)|
  {
    StrengthCountsChars(s);
  }

  /** Asking for less (but at least 3) never turns a pass into a failure. */
  lemma PasswordMonotone(v: Value, lower: int, higher: int)
    requires LeastStrength <= lower <= higher
    requires Password(v, higher) == Pass
    ensures Password(v, lower) == Pass
  {
  }

  /** Strictly increasing characters are all distinct. */
  lemma {:induction false} IncreasingStrength(s: string)
    requires forall i :: 0 <= i < |s| - 1 ==> s[i] < s[i + 1]
    ensures Strength(s) == |s|
  {
    if s != [] {
      var init := s[..|s| - 1];
      IncreasingStrength(init);
      if |s| > 1 {
        assert forall i :: 0 <= i < |init| ==> init[i] < s[|s| - 1] by {
          forall i | 0 <= i < |init| ensures init[i] < s[|s| - 1] {
            IncreasingBelow(s, i);
          }
        }
      }
    }
  }

  lemma {:induction false} IncreasingBelow(s: string, i: nat)
    requires forall j :: 0 <= j < |s| - 1 ==> s[j] < s[j + 1]
    requires i < |s| - 1
    ensures s[i] < s[|s| - 1]
    decreases |s| - i
  {
    if i + 1 < |s| - 1 { IncreasingBelow(s, i + 1); }
  }
}
