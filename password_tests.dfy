/** The validate.password examples of src/validate.test.js as lemmas. */
module PasswordTests {
  import opened Input
  import opened PasswordRule

  /** src/validate.test.js:89-97 */
  lemma PasswordRejectsNonText()
    ensures Password(Str(""), 5) == Fail(Empty)
    ensures Password(Null, 5) == Fail(NotAString)
    ensures Password(Undefined, 5) == Fail(NotAString)
    ensures Password(Obj, 5) == Fail(NotAString)
  {
  }

  /** "abcdefghia" has nine distinct characters. */
  lemma NineDistinct() ensures Strength("abcdefghia") == 9
  {
    var s := "abcdefghia";
    var init := "abcdefghi";
    IncreasingStrength(init);
    assert s[..|s| - 1] == init;
    assert s[|s| - 1] == init[0];
  }

  /** src/validate.test.js:99-102 */
  lemma PasswordMinLength()
    ensures Password(Str("abcdefghi"), 5) == Fail(TooShort)
    ensures Password(Str("abcdefghia"), 5) == Pass
  {
    NineDistinct();
  }

  /** src/validate.test.js:104-107 */
  lemma PasswordLeastStrength()
    ensures Password(Str("abcdefghia"), 2) == Fail(StrengthRequestTooLow)
    ensures Password(Str("abcdefghia"), 5) == Pass
  {
    NineDistinct();
  }
}
