/** The validate.string examples of src/validate.test.js as lemmas; each
    test sets a single option. */
module StringTests {
  import opened Text
  import opened Input
  import opened StringRule

  /** src/validate.test.js:111-119 */
  lemma StringRejectsNonText()
    ensures String(Str(""), NoOptions) == Fail(Empty)
    ensures String(Null, NoOptions) == Fail(NotAString)
    ensures String(Undefined, NoOptions) == Fail(NotAString)
    ensures String(Obj, NoOptions) == Fail(NotAString)
  {
  }

  /** src/validate.test.js:121-124 */
  lemma StringFixedLength()
    ensures String(Str("abcd"), NoOptions.(fixedLength := Some(5))) == Fail(LengthMismatch)
    ensures String(Str("abcd"), NoOptions.(fixedLength := Some(4))) == Pass
  {
  }

  /** src/validate.test.js:126-131: the minimum is inclusive. */
  lemma StringMin()
    ensures String(Str("abcd"), NoOptions.(min := Some(5))) == Fail(BelowMin)
    ensures String(Str("abcde"), NoOptions.(min := Some(5))) == Pass
    ensures String(Str("abcdef"), NoOptions.(min := Some(5))) == Pass
  {
  }

  /** src/validate.test.js:133-138: the maximum is inclusive. */
  lemma StringMax()
    ensures String(Str("abcdef"), NoOptions.(max := Some(5))) == Fail(AboveMax)
    ensures String(Str("abcde"), NoOptions.(max := Some(5))) == Pass
    ensures String(Str("abcd"), NoOptions.(max := Some(5))) == Pass
  {
  }

  lemma AbabIsRepetition() ensures IsRepetition("ababab")
  {
    assert HasPeriod("ababab", 2);
  }

  lemma YoloIsRepetition() ensures IsRepetition("yoloyolo")
  {
    assert HasPeriod("yoloyolo", 4);
  }

  lemma AbcdeIsNoRepetition() ensures !IsRepetition("abcde")
  {
    var s := "abcde";
    forall p | 0 < p < |s| ensures !HasPeriod(s, p) {
      if p == 1 {
        assert s[1..][0] != s[..4][0];
      } else if p == 2 {
        assert !IsMultiple(1, 2);
        assert !IsMultiple(3, 2);
      } else {
        assert !IsMultiple(5 - p, p);
      }
    }
  }

  /** src/validate.test.js:140-145 */
  lemma StringNoRepetition()
    ensures String(Str("ababab"), NoOptions.(noRepetition := true)) == Fail(Repetitive)
    ensures String(Str("abcde"), NoOptions.(noRepetition := true)) == Pass
    ensures String(Str("yoloyolo"), NoOptions.(noRepetition := true)) == Fail(Repetitive)
  {
    AbabIsRepetition();
    AbcdeIsNoRepetition();
    YoloIsRepetition();
  }

  /** src/validate.test.js:147-155 */
  lemma StringMatchName()
    ensures String(Str("!Tom"), NoOptions.(matchName := true)) == Fail(NotAName)
    ensures String(Str("Tom"), NoOptions.(matchName := true)) == Pass
    ensures String(Str("D'souza"), NoOptions.(matchName := true)) == Pass
    ensures String(Str("Sam-co"), NoOptions.(matchName := true)) == Pass
  {
    assert !IsNameChar("!Tom"[0]);
  }

  lemma FullnamesAccepted()
    ensures IsFullname("Tom Brady") && IsFullname("Samco D'souza")
    ensures IsFullname("Samco") && IsFullname("Sam-co")
  {
  }

  /** src/validate.test.js:157-166 */
  lemma StringMatchFullname()
    ensures String(Str("<Tom Brady"), NoOptions.(matchFullname := true)) == Fail(NotAFullname)
    ensures String(Str("Tom Brady"), NoOptions.(matchFullname := true)) == Pass
    ensures String(Str("Samco D'souza"), NoOptions.(matchFullname := true)) == Pass
    ensures String(Str("Samco"), NoOptions.(matchFullname := true)) == Pass
    ensures String(Str("Sam-co"), NoOptions.(matchFullname := true)) == Pass
  {
    assert !IsFullnameChar("<Tom Brady"[0]);
    FullnamesAccepted();
  }

  /** src/validate.test.js:168-176 */
  lemma StringMatchPostalCode()
    ensures String(Str("010080"), NoOptions.(matchPostalCode := true)) == Fail(NotAPostalCode)
    ensures String(Str("40008"), NoOptions.(matchPostalCode := true)) == Fail(NotAPostalCode)
    ensures String(Str("4000801"), NoOptions.(matchPostalCode := true)) == Fail(NotAPostalCode)
    ensures String(Str("400080"), NoOptions.(matchPostalCode := true)) == Pass
  {
    assert All("400080", IsDigit);
  }
}
