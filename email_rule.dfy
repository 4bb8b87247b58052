/** validate.email: a non-empty string of 6 to 254 characters of the form
    local-part@domain. The local part is a dot-separated run of atoms or a
    quoted string; the domain is a host name ending in an alphabetic
    top-level label, or a bracketed IPv4 address. */
module EmailRule {
  import opened Text
  import opened Input

  const MinLength := 6
  const MaxLength := 254

  /** Characters allowed in an unquoted local part besides letters and digits. */
  predicate IsAtext(c: char) {
    IsAlnum(c) || c == '!' || c == '#' || c == '$' || c == '%' || c == '&' || c == '\''
    || c == '*' || c == '+' || c == '-' || c == '/' || c == '=' || c == '?' || c == '^'
    || c == '_' || c == '`' || c == '{' || c == '|' || c == '}' || c == '~'
  }

  /** Characters allowed between the quotes of a quoted local part: printable
      ASCII other than the quote and the backslash (so '<', '>', '(', ')',
      '@' and spaces are allowed there). */
  predicate IsQtext(c: char) { ' ' <= c <= '~' && c != '"' && c != '\\' }

  predicate IsLabelChar(c: char) { IsAlnum(c) || c == '-' }

  predicate Atom(seg: string) { |seg| > 0 && All(seg, IsAtext) }

  /** Atoms separated by single dots: no leading, trailing or doubled dot. */
  predicate DotAtom(t: string) {
    var atoms := Split(t, '.');
    forall i :: 0 <= i < |atoms| ==> Atom(atoms[i])
  }

  predicate QuotedString(t: string) {
    |t| >= 3 && t[0] == '"' && t[|t| - 1] == '"' && All(t[1..|t| - 1], IsQtext)
  }

  predicate LocalPart(t: string) { DotAtom(t) || QuotedString(t) }

  /** A host label: letters, digits and hyphens, starting and ending with a
      letter or digit. */
  predicate Label(seg: string) {
    |seg| > 0 && IsAlnum(seg[0]) && IsAlnum(seg[|seg| - 1]) && All(seg, IsLabelChar)
  }

  /** The last label of a host name: at least two letters. */
  predicate TopLabel(seg: string) { |seg| >= 2 && All(seg, IsLetter) }

  /** At least two dot-separated labels, the last one a top-level label. */
  predicate HostName(d: string) {
    var labels := Split(d, '.');
    |labels| >= 2
    && (forall i :: 0 <= i < |labels| - 1 ==> Label(labels[i]))
    && TopLabel(labels[|labels| - 1])
  }

  /** One to three decimal digits whose value is at most 255. */
  predicate Octet(seg: string) {
    1 <= |seg| <= 3 && All(seg, IsDigit) && DecimalValue(seg) <= 255
  }

  /** "[a.b.c.d]" with four octets. */
  predicate AddressLiteral(d: string) {
    |d| >= 2 && d[0] == '[' && d[|d| - 1] == ']'
    && var octets := Split(d[1..|d| - 1], '.');
    |octets| == 4 && forall i :: 0 <= i < 4 ==> Octet(octets[i])
  }

  predicate Domain(d: string) { AddressLiteral(d) || HostName(d) }

  /** The rule: after the shared check and the length bounds, the address
      is split at its last '@'. */
  function Email(v: Value): (r: Verdict)
    ensures CheckText(v).Fail? ==> r == CheckText(v)
    ensures r.Pass? ==> v.Str? && MinLength <= |v.s| <= MaxLength
    ensures v.Str? && v.s != [] && |v.s| < MinLength ==> r == Fail(TooShort)
    ensures v.Str? && |v.s| > MaxLength ==> r == Fail(TooLong)
  {
    if CheckText(v).Fail? then CheckText(v)
    else if |v.s| < MinLength then Fail(TooShort)
    else if |v.s| > MaxLength then Fail(TooLong)
    else
      var at := LastIndexOf(v.s, '@');
      if at >= 0 && LocalPart(v.s[..at]) && Domain(v.s[at + 1..]) then Pass
      else Fail(Malformed)
  }

  /** The grammar as a reader states it: some '@' splits s into a local part
      and a domain. */
  ghost predicate WellFormed(s: string) {
    exists i :: 0 <= i < |s| && s[i] == '@' && LocalPart(s[..i]) && Domain(s[i + 1..])
  }

  lemma SplitPiecesAvoid(t: string, sep: char, c: char, p: char -> bool)
    requires c != sep && !p(c)
    requires forall i :: 0 <= i < |Split(t, sep)| ==> All(Split(t, sep)[i], p)
    ensures c !in t
  {
    if c in t {
      SplitChars(t, sep, c);
    }
  }

  /** A domain never contains '@', so the '@' before it is the last one. */
  lemma {:induction false} DomainHasNoAt(d: string)
    requires Domain(d)
    ensures '@' !in d
  {
    if AddressLiteral(d) {
      var inner := d[1..|d| - 1];
      SplitPiecesAvoid(inner, '.', '@', IsDigit);
      assert d == [d[0]] + inner + [d[|d| - 1]];
    } else {
      var labels := Split(d, '.');
      forall i | 0 <= i < |labels| ensures All(labels[i], IsLabelChar) {
        if i < |labels| - 1 { assert Label(labels[i]); }
        else { assert TopLabel(labels[i]); }
      }
      SplitPiecesAvoid(d, '.', '@', IsLabelChar);
    }
  }

  /** An address written as local + "@" + domain, where the domain holds no
      '@', is judged by its two parts. */
  lemma {:induction false} Decompose(local: string, domain: string)
    requires '@' !in domain
    requires MinLength <= |local| + 1 + |domain| <= MaxLength
    ensures Email(Str(local + "@" + domain))
         == if LocalPart(local) && Domain(domain) then Pass else Fail(Malformed)
  {
    var s := local + "@" + domain;
    LastIndexOfAppend(local, '@', domain);
    assert s[..|local|] == local && s[|local| + 1..] == domain;
  }

  /** Every well-formed address of allowed length passes, although only the
      last '@' is tried. */
  lemma EmailComplete(s: string)
    requires MinLength <= |s| <= MaxLength && WellFormed(s)
    ensures Email(Str(s)) == Pass
  {
    var i :| 0 <= i < |s| && s[i] == '@' && LocalPart(s[..i]) && Domain(s[i + 1..]);
    var local, domain := s[..i], s[i + 1..];
    DomainHasNoAt(domain);
    assert s == local + "@" + domain;
    Decompose(local, domain);
  }

  /** The rule's last-'@' split accepts exactly the well-formed
      addresses of allowed length. */
  lemma EmailGrammar(s: string)
    ensures Email(Str(s)) == Pass <==> MinLength <= |s| <= MaxLength && WellFormed(s)
  {
    if MinLength <= |s| <= MaxLength && WellFormed(s) { EmailComplete(s); }
  }

  /** Atoms joined with dots form a dot-atom. */
  lemma DotAtomOf(atoms: seq<string>)
    requires |atoms| >= 1 && forall i :: 0 <= i < |atoms| ==> Atom(atoms[i])
    ensures DotAtom(Join(atoms, '.'))
  {
    forall i | 0 <= i < |atoms| ensures '.' !in atoms[i] {
      assert Atom(atoms[i]);
      AllExcludes(atoms[i], IsAtext, '.');
    }
    SplitJoin(atoms, '.');
  }

  lemma LabelsAvoidDot(labels: seq<string>)
    requires |labels| >= 2
    requires forall i :: 0 <= i < |labels| - 1 ==> Label(labels[i])
    requires TopLabel(labels[|labels| - 1])
    ensures forall i :: 0 <= i < |labels| ==> '.' !in labels[i]
  {
    forall i | 0 <= i < |labels| ensures '.' !in labels[i] {
      if i < |labels| - 1 {
        assert Label(labels[i]);
        AllExcludes(labels[i], IsLabelChar, '.');
      } else {
        assert TopLabel(labels[i]);
        AllExcludes(labels[i], IsLetter, '.');
      }
    }
  }

  /** Labels joined with dots, the last a top-level label, form a host name. */
  lemma HostNameOf(labels: seq<string>)
    requires |labels| >= 2
    requires forall i :: 0 <= i < |labels| - 1 ==> Label(labels[i])
    requires TopLabel(labels[|labels| - 1])
    ensures HostName(Join(labels, '.'))
  {
    LabelsAvoidDot(labels);
    SplitJoin(labels, '.');
  }

  /** Four octets joined with dots and bracketed form an address literal. */
  lemma AddressLiteralOf(octets: seq<string>)
    requires |octets| == 4 && forall i :: 0 <= i < 4 ==> Octet(octets[i])
    ensures AddressLiteral("[" + Join(octets, '.') + "]")
  {
    forall i | 0 <= i < 4 ensures '.' !in octets[i] {
      assert Octet(octets[i]);
      AllExcludes(octets[i], IsDigit, '.');
    }
    SplitJoin(octets, '.');
    var d := "[" + Join(octets, '.') + "]";
    assert d[1..|d| - 1] == Join(octets, '.');
  }

  // ---------------------------------------------------------------------
  // What each production of the grammar accepts

  lemma AtextExcludesBrackets()
    ensures !IsAtext('<') && !IsAtext('>') && !IsAtext('(') && !IsAtext(')')
    ensures !IsAtext('[') && !IsAtext(']')
  {
  }

  lemma AtextExcludesPunctuation()
    ensures !IsAtext(':') && !IsAtext(';') && !IsAtext('@') && !IsAtext('\\')
    ensures !IsAtext(',') && !IsAtext('"') && !IsAtext('.') && !IsAtext(' ')
  {
  }

  /** The characters an unquoted local part may not hold: the specials of
      the address syntax and the space. */
  lemma AtextExcludesSpecials()
    ensures !IsAtext('<') && !IsAtext('>') && !IsAtext('(') && !IsAtext(')')
    ensures !IsAtext('[') && !IsAtext(']') && !IsAtext(':') && !IsAtext(';')
    ensures !IsAtext('@') && !IsAtext('\\') && !IsAtext(',') && !IsAtext('"')
    ensures !IsAtext('.') && !IsAtext(' ')
  {
    AtextExcludesBrackets();
    AtextExcludesPunctuation();
  }

  /** Between quotes those specials are allowed, except the quote and the
      backslash themselves. */
  lemma QtextAllowsSpecials()
    ensures IsQtext('<') && IsQtext('>') && IsQtext('(') && IsQtext(')')
    ensures IsQtext('[') && IsQtext(']') && IsQtext(':') && IsQtext(';')
    ensures IsQtext('@') && IsQtext(',') && IsQtext('.') && IsQtext(' ')
    ensures !IsQtext('"') && !IsQtext('\\')
  {
  }

  predicate AtomList(atoms: seq<string>) {
    |atoms| >= 1 && forall i :: 0 <= i < |atoms| ==> Atom(atoms[i])
  }

  /** The dot-atoms are exactly the atoms joined with single dots. */
  lemma DotAtomIsJoinedAtoms(t: string)
    ensures DotAtom(t) <==> exists atoms :: AtomList(atoms) && t == Join(atoms, '.')
  {
    if DotAtom(t) {
      JoinSplit(t, '.');
      assert AtomList(Split(t, '.'));
    }
    if exists atoms :: AtomList(atoms) && t == Join(atoms, '.') {
      var atoms :| AtomList(atoms) && t == Join(atoms, '.');
      DotAtomOf(atoms);
    }
  }

  /** The quoted local parts are exactly one or more quoted-text characters
      between two quotes. */
  lemma QuotedStringIsQuotedText(t: string)
    ensures QuotedString(t) <==> exists m :: |m| >= 1 && All(m, IsQtext) && t == "\"" + m + "\""
  {
    if QuotedString(t) {
      var m := t[1..|t| - 1];
      assert t == "\"" + m + "\"";
    }
    if exists m :: |m| >= 1 && All(m, IsQtext) && t == "\"" + m + "\"" {
      var m :| |m| >= 1 && All(m, IsQtext) && t == "\"" + m + "\"";
      assert t[1..|t| - 1] == m;
    }
  }

  /** A top-level label is also an ordinary label; one shorter than two
      characters, or holding a digit, is none. */
  lemma TopLabelIsLetterLabel(seg: string)
    ensures TopLabel(seg) ==> Label(seg)
    ensures |seg| < 2 || (exists k :: 0 <= k < |seg| && IsDigit(seg[k])) ==> !TopLabel(seg)
  {
  }

  predicate LabelList(labels: seq<string>) {
    |labels| >= 2
    && (forall i :: 0 <= i < |labels| - 1 ==> Label(labels[i]))
    && TopLabel(labels[|labels| - 1])
  }

  /** The host names are exactly two or more labels joined with dots, the
      last of them a top-level label. */
  lemma HostNameIsJoinedLabels(d: string)
    ensures HostName(d) <==> exists labels :: LabelList(labels) && d == Join(labels, '.')
  {
    if HostName(d) {
      JoinSplit(d, '.');
      assert LabelList(Split(d, '.'));
    }
    if exists labels :: LabelList(labels) && d == Join(labels, '.') {
      var labels :| LabelList(labels) && d == Join(labels, '.');
      HostNameOf(labels);
    }
  }

  /** The octets are exactly the numbers 0 to 255 written in one to three
      digits, leading zeros allowed. */
  lemma OctetIsSmallNumber(seg: string)
    ensures Octet(seg)
        <==> 1 <= |seg| <= 3 && exists n: nat :: n <= 255 && n < Pow10(|seg|) && seg == Numeral(n, |seg|)
  {
    if Octet(seg) {
      NumeralOfDecimal(seg);
      assert seg == Numeral(DecimalValue(seg), |seg|);
    }
    if 1 <= |seg| <= 3 && exists n: nat :: n <= 255 && n < Pow10(|seg|) && seg == Numeral(n, |seg|) {
      var n: nat :| n <= 255 && n < Pow10(|seg|) && seg == Numeral(n, |seg|);
      DecimalOfNumeral(n, |seg|);
    }
  }

  predicate OctetList(octets: seq<string>) {
    |octets| == 4 && forall i :: 0 <= i < 4 ==> Octet(octets[i])
  }

  /** The address literals are exactly four octets joined with dots between
      square brackets. */
  lemma AddressLiteralIsJoinedOctets(d: string)
    ensures AddressLiteral(d) <==> exists octets :: OctetList(octets) && d == "[" + Join(octets, '.') + "]"
  {
    if AddressLiteral(d) {
      var inner := d[1..|d| - 1];
      JoinSplit(inner, '.');
      assert d == "[" + inner + "]";
      assert OctetList(Split(inner, '.'));
    }
    if exists octets :: OctetList(octets) && d == "[" + Join(octets, '.') + "]" {
      var octets :| OctetList(octets) && d == "[" + Join(octets, '.') + "]";
      AddressLiteralOf(octets);
    }
  }
}
