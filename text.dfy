/** Character classes and the small string toolkit the validation rules are
    built from: "every character is in a class", splitting at a separator and
    joining back, the last occurrence of a character, and decimal numerals. */
module Text {

  predicate IsDigit(c: char) { '0' <= c <= '9' }

  predicate IsLetter(c: char) { 'a' <= c <= 'z' || 'A' <= c <= 'Z' }

  predicate IsAlnum(c: char) { IsDigit(c) || IsLetter(c) }

  /** The whitespace characters a mobile number must not contain. */
  predicate IsSpace(c: char) {
    c == ' ' || c == '\t' || c == '\n' || c == '\r' || c == '\U{000B}' || c == '\U{000C}'
  }

  /** Every character of s belongs to the class p. */
  predicate All(s: string, p: char -> bool) {
    forall k :: 0 <= k < |s| ==> p(s[k])
  }

  lemma AllAppend(a: string, b: string, p: char -> bool)
    ensures All(a + b, p) <==> All(a, p) && All(b, p)
  {
    if All(a, p) && All(b, p) {
      forall k | 0 <= k < |a + b| ensures p((a + b)[k]) {
        if k >= |a| { assert (a + b)[k] == b[k - |a|]; }
      }
    }
    if All(a + b, p) {
      forall k | 0 <= k < |a| ensures p(a[k]) { assert a[k] == (a + b)[k]; }
      forall k | 0 <= k < |b| ensures p(b[k]) { assert b[k] == (a + b)[|a| + k]; }
    }
  }

  /** A character outside the class does not occur in a string of the class. */
  lemma AllExcludes(s: string, p: char -> bool, c: char)
    requires All(s, p) && !p(c)
    ensures c !in s
  {
  }

  // ---------------------------------------------------------------------
  // Splitting at a separator and joining back

  /** The pieces of t between occurrences of sep, in order; empty pieces are
      kept, so a string with n separators has n + 1 pieces. */
  function Split(t: string, sep: char): (pieces: seq<string>)
    ensures |pieces| >= 1
    ensures forall i :: 0 <= i < |pieces| ==> sep !in pieces[i]
  {
    if t == [] then [[]]
    else
      var init := Split(t[..|t| - 1], sep);
      var c := t[|t| - 1];
      if c == sep then init + [[]]
      else init[..|init| - 1] + [init[|init| - 1] + [c]]
  }

  /** The pieces written out with sep between neighbours. */
  function Join(pieces: seq<string>, sep: char): string
    requires |pieces| >= 1
  {
    if |pieces| == 1 then pieces[0]
    else pieces[0] + [sep] + Join(pieces[1..], sep)
  }

  lemma {:induction false} JoinSnoc(pieces: seq<string>, sep: char, last: string)
    requires |pieces| >= 1
    ensures Join(pieces + [last], sep) == Join(pieces, sep) + [sep] + last
  {
    if |pieces| > 1 {
      assert (pieces + [last])[1..] == pieces[1..] + [last];
      JoinSnoc(pieces[1..], sep, last);
    }
  }

  lemma {:induction false} SplitNoSep(a: string, sep: char)
    requires sep !in a
    ensures Split(a, sep) == [a]
  {
    if a != [] {
      SplitNoSep(a[..|a| - 1], sep);
      assert a[..|a| - 1] + [a[|a| - 1]] == a;
    }
  }

  lemma {:induction false} SplitSnoc(init: string, sep: char, b: string)
    requires sep !in b
    ensures Split(init + [sep] + b, sep) == Split(init, sep) + [b]
  {
    var t := init + [sep] + b;
    if b == [] {
      assert t[..|t| - 1] == init;
    } else {
      var b' := b[..|b| - 1];
      assert t[..|t| - 1] == init + [sep] + b';
      SplitSnoc(init, sep, b');
      assert b' + [b[|b| - 1]] == b;
    }
  }

  /** Splitting undoes joining, provided no piece holds the separator. */
  lemma {:induction false} SplitJoin(pieces: seq<string>, sep: char)
    requires |pieces| >= 1
    requires forall i :: 0 <= i < |pieces| ==> sep !in pieces[i]
    ensures Split(Join(pieces, sep), sep) == pieces
  {
    var n := |pieces|;
    if n == 1 {
      SplitNoSep(pieces[0], sep);
    } else {
      var init := pieces[..n - 1];
      assert init + [pieces[n - 1]] == pieces;
      JoinSnoc(init, sep, pieces[n - 1]);
      SplitJoin(init, sep);
      SplitSnoc(Join(init, sep), sep, pieces[n - 1]);
    }
  }

  /** Joining undoes splitting. */
  lemma {:induction false} JoinSplit(t: string, sep: char)
    ensures Join(Split(t, sep), sep) == t
  {
    if t != [] {
      var s := t[..|t| - 1];
      var c := t[|t| - 1];
      var init := Split(s, sep);
      JoinSplit(s, sep);
      assert s + [c] == t;
      if c == sep {
        JoinSnoc(init, sep, []);
      } else if |init| == 1 {
        assert Split(t, sep) == [init[0] + [c]];
      } else {
        var front := init[..|init| - 1];
        var last := init[|init| - 1];
        assert front + [last] == init;
        JoinSnoc(front, sep, last);
        JoinSnoc(front, sep, last + [c]);
      }
    }
  }

  /** A character of a joined string is the separator or a character of a piece. */
  lemma {:induction false} JoinChars(pieces: seq<string>, sep: char, c: char)
    requires |pieces| >= 1
    requires c in Join(pieces, sep)
    ensures c == sep || exists i :: 0 <= i < |pieces| && c in pieces[i]
  {
    if |pieces| > 1 && c !in pieces[0] && c != sep {
      JoinChars(pieces[1..], sep, c);
      var i :| 0 <= i < |pieces[1..]| && c in pieces[1..][i];
      assert c in pieces[i + 1];
    }
  }

  /** Every character of t other than sep lies in one of its pieces. */
  lemma SplitChars(t: string, sep: char, c: char)
    requires c in t && c != sep
    ensures exists i :: 0 <= i < |Split(t, sep)| && c in Split(t, sep)[i]
  {
    JoinSplit(t, sep);
    JoinChars(Split(t, sep), sep, c);
  }

  // ---------------------------------------------------------------------
  // Last occurrence of a character

  /** The index of the last c in s, or -1 when s holds no c. */
  function LastIndexOf(s: string, c: char): (r: int)
    ensures -1 <= r < |s|
    ensures r >= 0 ==> s[r] == c
    ensures forall k :: r < k < |s| ==> s[k] != c
  {
    if s == [] then -1
    else if s[|s| - 1] == c then |s| - 1
    else LastIndexOf(s[..|s| - 1], c)
  }

  lemma LastIndexOfAppend(a: string, c: char, b: string)
    requires c !in b
    ensures LastIndexOf(a + [c] + b, c) == |a|
  {
    var s := a + [c] + b;
    var r := LastIndexOf(s, c);
    assert s[|a|] == c;
    assert s[|a| + 1..] == b;
  }

  // ---------------------------------------------------------------------
  // Decimal numerals

  function Pow10(k: nat): (r: nat)
    ensures r >= 1
  {
    if k == 0 then 1 else 10 * Pow10(k - 1)
  }

  function DigitValue(c: char): (d: nat)
    requires IsDigit(c)
    ensures d < 10
  {
    c as int - '0' as int
  }

  function DigitChar(d: nat): (c: char)
    requires d < 10
    ensures IsDigit(c) && DigitValue(c) == d
  {
    ('0' as int + d) as char
  }

  /** The number a string of decimal digits stands for. */
  function DecimalValue(s: string): (n: nat)
    requires All(s, IsDigit)
    ensures n < Pow10(|s|)
  {
    if s == [] then 0
    else
      var init := s[..|s| - 1];
      assert All(init, IsDigit) by { assert forall k :: 0 <= k < |init| ==> init[k] == s[k]; }
      10 * DecimalValue(init) + DigitValue(s[|s| - 1])
  }

  /** n written in exactly width decimal digits, padded with leading zeros
      (and keeping only the low width digits). */
  function Numeral(n: nat, width: nat): (s: string)
    ensures |s| == width && All(s, IsDigit)
  {
    if width == 0 then []
    else Numeral(n / 10, width - 1) + [DigitChar(n % 10)]
  }

  /** Reading a numeral back gives the number, when it fits the width. */
  lemma {:induction false} DecimalOfNumeral(n: nat, width: nat)
    requires n < Pow10(width)
    ensures DecimalValue(Numeral(n, width)) == n
  {
    if width > 0 {
      var s := Numeral(n, width);
      DecimalOfNumeral(n / 10, width - 1);
      assert s[..|s| - 1] == Numeral(n / 10, width - 1);
    }
  }

  /** Writing the value of a digit string back in as many digits gives it back. */
  lemma {:induction false} NumeralOfDecimal(s: string)
    requires All(s, IsDigit)
    ensures Numeral(DecimalValue(s), |s|) == s
  {
    if s != [] {
      var init := s[..|s| - 1];
      var d := DigitValue(s[|s| - 1]);
      assert All(init, IsDigit) by { assert forall k :: 0 <= k < |init| ==> init[k] == s[k]; }
      var n := 10 * DecimalValue(init) + d;
      assert n / 10 == DecimalValue(init) && n % 10 == d;
      NumeralOfDecimal(init);
      assert DigitChar(d) == s[|s| - 1];
      assert init + [s[|s| - 1]] == s;
    }
  }

  /** A digit string starts with a non-zero digit exactly when its value has
      all |s| digits. */
  lemma {:induction false} LeadingDigit(s: string)
    requires |s| >= 1 && All(s, IsDigit)
    ensures s[0] != '0' <==> DecimalValue(s) >= Pow10(|s| - 1)
  {
    if |s| > 1 {
      var init := s[..|s| - 1];
      assert All(init, IsDigit) by { assert forall k :: 0 <= k < |init| ==> init[k] == s[k]; }
      LeadingDigit(init);
      assert init[0] == s[0];
    }
  }
}
