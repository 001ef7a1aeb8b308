/**
 * The e-mail shape check of the login screen's `handleEmailChange`: the
 * anchored regular expression
 *
 *   local "@" domain
 *   local  = atom ("." atom)*  |  '"' any+ '"'
 *   domain = "[" d{1,3} "." d{1,3} "." d{1,3} "." d{1,3} "]"
 *          | (label ".")+ letter{2,}
 *
 * where an atom is one or more characters other than  < > ( ) [ ] \ . , ; : @ "
 * and `\s`, `any` is a character other than a line terminator, `d` a
 * decimal digit and a label one or more ASCII letters, digits or hyphens.
 *
 * `MatchesEmailPattern` gives the language of the expression as it reads:
 * there is SOME way to cut the string into the pieces above.
 * `IsEmail` decides it the way a program would: it cuts at the last `@` and
 * splits each side at its dots. `IsEmailMatchesPattern` proves the two agree
 * on every string.
 *
 * Strings are sequences of code points; the expression carries no `u` flag,
 * so JavaScript runs it on UTF-16 code units, but every class above treats
 * both halves of a surrogate pair as it treats the code point they encode,
 * so the two readings accept the same strings.
 */
module EmailAddress {
  import opened Sequences
  import opened JsText

  /** A character allowed in an unquoted local-part atom. */
  predicate IsAtomChar(c: char)
  {
    !IsSpace(c) && c !in "<>()[]\\.,;:@\""
  }

  /** A character allowed in a domain label: `[a-zA-Z\-0-9]`. */
  predicate IsLabelChar(c: char)
  {
    IsAsciiLetter(c) || IsDecimalDigit(c) || c == '-'
  }

  predicate IsAtom(p: string)
  {
    p != [] && forall i :: 0 <= i < |p| ==> IsAtomChar(p[i])
  }

  predicate IsLabel(p: string)
  {
    p != [] && forall i :: 0 <= i < |p| ==> IsLabelChar(p[i])
  }

  /** The last label, `[a-zA-Z]{2,}`. */
  predicate IsTopLabel(p: string)
  {
    |p| >= 2 && forall i :: 0 <= i < |p| ==> IsAsciiLetter(p[i])
  }

  /** One part of the bracketed address literal, `[0-9]{1,3}`. */
  predicate IsOctet(p: string)
  {
    1 <= |p| <= 3 && forall i :: 0 <= i < |p| ==> IsDecimalDigit(p[i])
  }

  /** The quoted local part `".+"`. The inner `.+` may itself contain quotes
      and `@` signs; only line terminators are excluded. */
  predicate IsQuoted(l: string)
  {
    |l| >= 3 && l[0] == '"' && l[|l| - 1] == '"' &&
    forall i :: 1 <= i < |l| - 1 ==> !IsLineTerminator(l[i])
  }

  // ---------------------------------------------------------------------
  // The language of the expression, read off its structure.

  ghost predicate DotAtomForm(l: string)
  {
    exists atoms: seq<string> ::
      |atoms| > 0 && (forall k :: 0 <= k < |atoms| ==> IsAtom(atoms[k])) &&
      l == Join(atoms, '.')
  }

  ghost predicate AddressLiteralForm(d: string)
  {
    |d| >= 2 && d[0] == '[' && d[|d| - 1] == ']' &&
    exists octets: seq<string> ::
      |octets| == 4 && (forall k :: 0 <= k < 4 ==> IsOctet(octets[k])) &&
      d[1..|d| - 1] == Join(octets, '.')
  }

  ghost predicate HostNameForm(d: string)
  {
    exists parts: seq<string> :: HostNameParts(parts) && d == Join(parts, '.')
  }

  /** Cutting `s` at position `i` gives a local part, `@` and a domain. */
  ghost predicate CutMatches(s: string, i: nat)
  {
    i < |s| && s[i] == '@' &&
    (DotAtomForm(s[..i]) || IsQuoted(s[..i])) &&
    (AddressLiteralForm(s[i + 1..]) || HostNameForm(s[i + 1..]))
  }

  ghost predicate MatchesEmailPattern(s: string)
  {
    exists i: nat :: CutMatches(s, i)
  }

  // ---------------------------------------------------------------------
  // The recogniser.

  predicate IsDotAtom(l: string)
  {
    var atoms := Split(l, '.');
    forall k :: 0 <= k < |atoms| ==> IsAtom(atoms[k])
  }

  predicate IsAddressLiteral(d: string)
  {
    |d| >= 2 && d[0] == '[' && d[|d| - 1] == ']' &&
    var octets := Split(d[1..|d| - 1], '.');
    |octets| == 4 && forall k :: 0 <= k < 4 ==> IsOctet(octets[k])
  }

  predicate IsHostName(d: string)
  {
    HostNameParts(Split(d, '.'))
  }

  predicate IsLocalPart(l: string)
  {
    IsDotAtom(l) || IsQuoted(l)
  }

  predicate IsDomain(d: string)
  {
    IsAddressLiteral(d) || IsHostName(d)
  }

  /** `emailCheckRegex.test(s)`. The domain can hold no `@`, so the only
      place the expression can cut the string is at its last `@`. */
  predicate IsEmail(s: string)
  {
    match LastIndexOf(s, '@')
    case None => false
    case Some(i) => IsLocalPart(s[..i]) && IsDomain(s[i + 1..])
  }

  // ---------------------------------------------------------------------
  // The recogniser decides the language.

  lemma DotAtomIff(l: string)
    ensures IsDotAtom(l) <==> DotAtomForm(l)
  {
    if IsDotAtom(l) {
      JoinSplit(l, '.');
      assert l == Join(Split(l, '.'), '.');
    }
    if DotAtomForm(l) {
      var atoms :| |atoms| > 0 && (forall k :: 0 <= k < |atoms| ==> IsAtom(atoms[k])) &&
                   l == Join(atoms, '.');
      forall k | 0 <= k < |atoms| ensures '.' !in atoms[k] { }
      SplitJoin(atoms, '.');
    }
  }

  lemma AddressLiteralIff(d: string)
    ensures IsAddressLiteral(d) <==> AddressLiteralForm(d)
  {
    if |d| >= 2 && d[0] == '[' && d[|d| - 1] == ']' {
      var inner := d[1..|d| - 1];
      if IsAddressLiteral(d) {
        JoinSplit(inner, '.');
        assert inner == Join(Split(inner, '.'), '.');
      }
      if AddressLiteralForm(d) {
        var octets :| |octets| == 4 && (forall k :: 0 <= k < 4 ==> IsOctet(octets[k])) &&
                      inner == Join(octets, '.');
        forall k | 0 <= k < 4 ensures '.' !in octets[k] { }
        SplitJoin(octets, '.');
      }
    }
  }

  /** The host-name pieces, checked one by one. */
  predicate HostNameParts(parts: seq<string>)
  {
    |parts| >= 2 &&
    (forall k :: 0 <= k < |parts| - 1 ==> IsLabel(parts[k])) &&
    IsTopLabel(parts[|parts| - 1])
  }

  lemma HostNamePartsHaveNoDot(parts: seq<string>)
    requires HostNameParts(parts)
    ensures forall k :: 0 <= k < |parts| ==> '.' !in parts[k]
  {
    forall k | 0 <= k < |parts| ensures '.' !in parts[k] {
      if k < |parts| - 1 {
        assert IsLabel(parts[k]);
      } else {
        assert IsTopLabel(parts[k]);
      }
    }
  }

  lemma HostNameIff(d: string)
    ensures IsHostName(d) <==> HostNameForm(d)
  {
    if IsHostName(d) {
      JoinSplit(d, '.');
      assert HostNameParts(Split(d, '.')) && d == Join(Split(d, '.'), '.');
    }
    if HostNameForm(d) {
      var parts :| HostNameParts(parts) && d == Join(parts, '.');
      HostNamePartsHaveNoDot(parts);
      SplitJoin(parts, '.');
    }
  }

  /** A string the domain alternative accepts holds no `@`. */
  lemma DomainHasNoAt(d: string)
    requires IsDomain(d)
    ensures '@' !in d
  {
    if IsAddressLiteral(d) {
      var inner := d[1..|d| - 1];
      JoinSplit(inner, '.');
      if '@' in inner {
        JoinChars(Split(inner, '.'), '.', '@');
      }
      assert d == [d[0]] + inner + [d[|d| - 1]];
    } else {
      JoinSplit(d, '.');
      if '@' in d {
        JoinChars(Split(d, '.'), '.', '@');
      }
    }
  }

  /** Everything the recogniser accepts, the expression matches. */
  lemma IsEmailSound(s: string)
    requires IsEmail(s)
    ensures MatchesEmailPattern(s)
  {
    var i := LastIndexOf(s, '@').value;
    var l, d := s[..i], s[i + 1..];
    assert IsLocalPart(l) && IsDomain(d);
    DotAtomIff(l);
    AddressLiteralIff(d);
    HostNameIff(d);
    assert CutMatches(s, i);
  }

  /** Everything the expression matches, the recogniser accepts. */
  lemma IsEmailComplete(s: string)
    requires MatchesEmailPattern(s)
    ensures IsEmail(s)
  {
    var i: nat :| CutMatches(s, i);
    var l, d := s[..i], s[i + 1..];
    DotAtomIff(l);
    AddressLiteralIff(d);
    HostNameIff(d);
    assert IsLocalPart(l) && IsDomain(d);
    DomainHasNoAt(d);
    LastIndexOfUnique(s, '@', i);
  }

  /** The recogniser accepts exactly the strings the expression matches. */
  lemma IsEmailMatchesPattern(s: string)
    ensures IsEmail(s) <==> MatchesEmailPattern(s)
  {
    if IsEmail(s) {
      IsEmailSound(s);
    }
    if MatchesEmailPattern(s) {
      IsEmailComplete(s);
    }
  }

  // ---------------------------------------------------------------------
  // What the expression accepts and rejects.

  /** Without an `@` there is nothing to cut at. */
  lemma MissingAtRejected(s: string)
    requires '@' !in s
    ensures !IsEmail(s)
  {
  }

  /** A string whose last character follows a dot is rejected: a host name
      would end in a one-letter (or empty) label and an address literal in an
      empty part. */
  lemma ShortTopLabelRejected(s: string)
    requires |s| >= 2 && s[|s| - 2] == '.'
    ensures !IsEmail(s)
  {
    var at := LastIndexOf(s, '@');
    if at.Some? && at.value + 1 < |s| {
      var d := s[at.value + 1..];
      if |d| >= 2 {
        var c := d[|d| - 1];
        assert d == d[..|d| - 2] + ['.'] + [c];
        if c == '.' {
          SplitDoubleSeparator(d[..|d| - 2], '.', []);
          assert d[..|d| - 2] + ['.', '.'] + [] == d;
        } else {
          SplitLast(d[..|d| - 2], '.', [c]);
        }
        if |d| >= 3 && d[0] == '[' && d[|d| - 1] == ']' {
          var inner := d[1..|d| - 1];
          assert inner == inner[..|inner| - 1] + ['.'] + [];
          SplitLast(inner[..|inner| - 1], '.', []);
        }
      }
    }
  }

  /** Two dots in a row in an unquoted local part leave an empty atom. */
  lemma EmptyAtomRejected(a: string, b: string, d: string)
    requires a == [] || a[0] != '"'
    requires '@' !in d
    ensures !IsEmail(a + ".." + b + "@" + d)
  {
    var l := a + ".." + b;
    var s := l + "@" + d;
    assert s[|l|] == '@' && s[|l| + 1..] == d && s[..|l|] == l;
    LastIndexOfUnique(s, '@', |l|);
    assert l == a + ['.', '.'] + b;
    SplitDoubleSeparator(a, '.', b);
    assert !IsQuoted(l) by {
      if a != [] { assert l[0] == a[0]; }
    }
  }

  // The samples below take the address as a parameter equal to the literal,
  // which keeps the verifier from unfolding the recogniser on the literal.

  lemma HostNameExample(d: string)
    requires d == "example.com"
    ensures IsHostName(d)
  {
    var parts := ["example", "com"];
    assert HostNameParts(parts);
    assert d == Join(parts, '.');
    HostNamePartsHaveNoDot(parts);
    SplitJoin(parts, '.');
  }

  lemma AddressLiteralExample(d: string)
    requires d == "[1.2.3.4]"
    ensures IsAddressLiteral(d)
  {
    var octets := ["1", "2", "3", "4"];
    assert d[1..|d| - 1] == Join(octets, '.');
    forall k | 0 <= k < 4 ensures '.' !in octets[k] && IsOctet(octets[k]) { }
    SplitJoin(octets, '.');
  }

  /** A run of ASCII letters is a local part of a single atom. */
  lemma LettersAreLocalPart(l: string)
    requires l != [] && forall i :: 0 <= i < |l| ==> IsAsciiLetter(l[i])
    ensures IsLocalPart(l)
  {
    assert forall i :: 0 <= i < |l| ==> l[i] != '.';
    SplitNoSeparator(l, '.');
    assert IsAtom(l);
  }

  lemma LocalPartExample(l: string)
    requires l == "user" || l == "a"
    ensures IsLocalPart(l)
  {
    LettersAreLocalPart(l);
  }

  /** `user@example.com` is accepted. */
  lemma AcceptsHostNameExample(s: string)
    requires s == "user@example.com"
    ensures IsEmail(s)
  {
    assert s[..4] == "user" && s[4] == '@' && s[5..] == "example.com";
    LocalPartExample(s[..4]);
    HostNameExample(s[5..]);
    DomainHasNoAt(s[5..]);
    LastIndexOfUnique(s, '@', 4);
  }

  /** `a@[1.2.3.4]` is accepted. */
  lemma AcceptsAddressLiteralExample(s: string)
    requires s == "a@[1.2.3.4]"
    ensures IsEmail(s)
  {
    assert s[..1] == "a" && s[1] == '@' && s[2..] == "[1.2.3.4]";
    AddressLiteralExample(s[2..]);
    DomainHasNoAt(s[2..]);
    LastIndexOfUnique(s, '@', 1);
    LocalPartExample(s[..1]);
  }

  /** `a@b.c` (one-letter last label), `a..b@x.com` (empty atom) and
      `userexample.com` (no `@`) are rejected. */
  lemma RejectsExamples(s1: string, s2: string, s3: string)
    requires s1 == "a@b.c" && s2 == "a..b@x.com" && s3 == "userexample.com"
    ensures !IsEmail(s1) && !IsEmail(s2) && !IsEmail(s3)
  {
    ShortTopLabelRejected(s1);
    assert s2 == "a" + ".." + "b" + "@" + "x.com";
    EmptyAtomRejected("a", "b", "x.com");
    MissingAtRejected(s3);
  }
}
