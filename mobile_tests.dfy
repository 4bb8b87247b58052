/** The validate.mobile examples of src/validate.test.js as lemmas. */
module MobileTests {
  import opened Text
  import opened Input
  import opened MobileRule

  /** src/validate.test.js:58-66 */
  lemma MobileRejectsNonText()
    ensures Mobile(Str("")) == Fail(Empty)
    ensures Mobile(Null) == Fail(NotAString)
    ensures Mobile(Undefined) == Fail(NotAString)
    ensures Mobile(Obj) == Fail(NotAString)
  {
  }

  /** src/validate.test.js:68-70 */
  lemma MobileRejectsSpace()
    ensures Mobile(Str("9924 248 236")) == Fail(ContainsSpace)
  {
    assert IsSpace("9924 248 236"[4]);
  }

  /** src/validate.test.js:72-74 */
  lemma MobileRejectsPlus()
    ensures Mobile(Str("+992424823")) == Fail(NonDigit)
  {
    var s := "+992424823";
    assert forall k :: 0 <= k < |s| ==> !IsSpace(s[k]);
    assert !IsDigit(s[0]);
  }

  lemma TwelveDigits() ensures All("919924248232", IsDigit) {}

  lemma NineDigits() ensures All("992424823", IsDigit) {}

  /** src/validate.test.js:76-79 */
  lemma MobileRejectsWrongLength()
    ensures Mobile(Str("919924248232")) == Fail(WrongLength)
    ensures Mobile(Str("992424823")) == Fail(WrongLength)
  {
    TwelveDigits();
    NineDigits();
  }

  /** src/validate.test.js:81-83 */
  lemma MobileAcceptsTenDigits()
    ensures Mobile(Str("9924248232")) == Pass
  {
    var s := "9924248232";
    assert All(s, IsDigit);
    assert forall k :: 0 <= k < |s| ==> !IsSpace(s[k]);
  }
}
