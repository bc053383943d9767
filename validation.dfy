/**
  The contact-record rules: the phone format, the email shape and the
  normal form of a name.
*/
module Validation {
  import opened PyStr

  /** `\d`, restricted to the ASCII digits. */
  predicate IsDigit(c: char) { '0' <= c <= '9' }

  // ------------------------------------------------------------- phone

  /** One position of a fixed-width regular expression: a literal or `\d`. */
  datatype Atom = Lit(ch: char) | Digit

  predicate AtomMatches(a: Atom, c: char) {
    match a
    case Lit(x) => c == x
    case Digit => IsDigit(c)
  }

  /** `re.match('^' + pat + '$', s)` for a pattern of single-character atoms.
      Python's `$` matches at the end of the string and also just before a
      newline that ends it. */
  predicate MatchesAnchored(pat: seq<Atom>, s: string)
    decreases pat
  {
    if pat == [] then s == [] || s == "\n"
    else s != [] && AtomMatches(pat[0], s[0]) && MatchesAnchored(pat[1..], s[1..])
  }

  /** `\(\d{3}\)\d{3}-\d{4}` */
  const PhonePattern: seq<Atom> :=
    [Lit('('), Digit, Digit, Digit, Lit(')'), Digit, Digit, Digit, Lit('-'), Digit, Digit, Digit, Digit]

  /** `is_valid_phone`: the phone regex matches the whole string. */
  predicate IsValidPhone(phone: string) {
    MatchesAnchored(PhonePattern, phone)
  }

  /** The format `(XXX)XXX-XXXX` as a check of thirteen positions. */
  predicate PhoneShape(p: string) {
    && |p| == 13
    && p[0] == '(' && p[4] == ')' && p[8] == '-'
    && forall i :: 0 <= i < 13 && i != 0 && i != 4 && i != 8 ==> IsDigit(p[i])
  }

  lemma {:induction false} MatchesAnchoredIff(pat: seq<Atom>, s: string)
    ensures MatchesAnchored(pat, s) <==>
      && (|s| == |pat| || (|s| == |pat| + 1 && s[|pat|] == '\n'))
      && forall i :: 0 <= i < |pat| ==> AtomMatches(pat[i], s[i])
    decreases pat
  {
    if pat != [] && s != [] {
      MatchesAnchoredIff(pat[1..], s[1..]);
      if AtomMatches(pat[0], s[0]) && MatchesAnchored(pat[1..], s[1..]) {
        forall i | 0 <= i < |pat| ensures AtomMatches(pat[i], s[i]) {
          if i > 0 { assert pat[1..][i - 1] == pat[i] && s[1..][i - 1] == s[i]; }
        }
      }
      if (|s| == |pat| || (|s| == |pat| + 1 && s[|pat|] == '\n'))
         && forall i :: 0 <= i < |pat| ==> AtomMatches(pat[i], s[i])
      {
        assert AtomMatches(pat[0], s[0]);
        forall i | 0 <= i < |pat| - 1 ensures AtomMatches(pat[1..][i], s[1..][i]) {
          assert AtomMatches(pat[i + 1], s[i + 1]);
        }
      }
    }
  }

  /** What each position of the phone pattern accepts. */
  lemma PhonePatternAt(i: nat, c: char)
    requires i < |PhonePattern|
    ensures AtomMatches(PhonePattern[i], c) <==>
      if i == 0 then c == '(' else if i == 4 then c == ')' else if i == 8 then c == '-' else IsDigit(c)
  {
  }

  /** The regex accepts exactly the thirteen-position format, optionally
      followed by one newline (Python's `$`). */
  lemma PhoneRegex(p: string)
    ensures IsValidPhone(p) <==>
      PhoneShape(p) || (|p| == 14 && p[13] == '\n' && PhoneShape(p[..13]))
  {
    MatchesAnchoredIff(PhonePattern, p);
    if |p| >= 13 {
      var q := p[..13];
      assert forall i :: 0 <= i < 13 ==> q[i] == p[i];
      forall i | 0 <= i < 13 ensures AtomMatches(PhonePattern[i], p[i]) <==>
        if i == 0 then q[i] == '(' else if i == 4 then q[i] == ')' else if i == 8 then q[i] == '-' else IsDigit(q[i])
      {
        PhonePatternAt(i, p[i]);
      }
      assert PhoneShape(q) <==> forall i :: 0 <= i < |PhonePattern| ==> AtomMatches(PhonePattern[i], p[i]);
      assert |p| == 13 ==> p == q;
    }
  }

  /** On stripped input, the only way the regex is met: the thirteen-position format. */
  lemma StrippedPhone(raw: string)
    ensures IsValidPhone(Strip(raw)) <==> PhoneShape(Strip(raw))
  {
    PhoneRegex(Strip(raw));
  }

  /** A character in front of a well-formed phone is rejected. */
  lemma PhoneLeadingRejected(c: char, p: string)
    requires PhoneShape(p)
    ensures !IsValidPhone([c] + p)
  {
    PhoneRegex([c] + p);
    assert ([c] + p)[4] == p[3];
  }

  /** A character after a well-formed phone is rejected, except a newline. */
  lemma PhoneTrailing(p: string, c: char)
    requires PhoneShape(p)
    ensures IsValidPhone(p + [c]) <==> c == '\n'
  {
    PhoneRegex(p + [c]);
    assert (p + [c])[..13] == p;
  }

  lemma PhoneExampleAccepted()
    ensures IsValidPhone("(555)123-4567")
  {
    assert PhoneShape("(555)123-4567");
    PhoneRegex("(555)123-4567");
  }

  lemma PhoneExampleNoParentheses()
    ensures !IsValidPhone("555-123-4567")
  {
    PhoneRegex("555-123-4567");
  }

  lemma PhoneExampleNoDash()
    ensures !IsValidPhone("(555)1234567")
  {
    PhoneRegex("(555)1234567");
  }

  // ------------------------------------------------------------- email

  /** `"@" in email and "." in email`: no other structure is demanded. */
  predicate IsValidEmail(email: string) {
    '@' in email && '.' in email
  }

  /** Lower-casing neither creates nor removes an `@` or a `.`, so the
      stored (lower-cased) email is valid exactly when the checked one is. */
  lemma LowerEmail(email: string)
    ensures IsValidEmail(Lower(email)) <==> IsValidEmail(email)
  {
    var l := Lower(email);
    forall c | c == '@' || c == '.' ensures c in l <==> c in email {
      if c in email {
        var i :| 0 <= i < |email| && email[i] == c;
        assert l[i] == c;
      }
      if c in l {
        var i :| 0 <= i < |l| && l[i] == c;
        assert email[i] == c;
      }
    }
  }

  lemma EmailExamples()
    ensures IsValidEmail(".@")
    ensures IsValidEmail("a@b.com")
    ensures !IsValidEmail("noatsign.com")
    ensures !IsValidEmail("user@localhost")
  {
    assert ".@"[1] == '@';
    assert "a@b.com"[1] == '@' && "a@b.com"[3] == '.';
  }

  // -------------------------------------------------------------- name

  /** The stored form of a name and the key remove and update look up. */
  function NormalizeName(raw: string): string {
    Title(Strip(raw))
  }

  /** The key search looks for. */
  function SearchKey(raw: string): string {
    Lower(Strip(raw))
  }

  /** Names that differ only in case normalise to the same key. */
  lemma NormalizeNameIgnoresCase(a: string, b: string)
    requires Lower(a) == Lower(b)
    ensures NormalizeName(a) == NormalizeName(b)
  {
    LowerStrip(a);
    LowerStrip(b);
    TitleLower(Strip(a));
    TitleLower(Strip(b));
  }

  /** Search terms that differ only in case search for the same key. */
  lemma SearchKeyIgnoresCase(a: string, b: string)
    requires Lower(a) == Lower(b)
    ensures SearchKey(a) == SearchKey(b)
  {
    LowerStrip(a);
    LowerStrip(b);
  }

  /** A term of whitespace only searches for the empty key. */
  lemma BlankSearchKey(raw: string)
    requires AllSpace(raw)
    ensures SearchKey(raw) == ""
  {
    assert raw[..|raw|] == raw && raw[|raw|..] == [];
    StripUnique(raw, |raw|, |raw|);
  }

  /** A stored name is already in normal form. */
  lemma NormalizeNameIdempotent(raw: string)
    ensures NormalizeName(NormalizeName(raw)) == NormalizeName(raw)
  {
    var t := Title(Strip(raw));
    TitleKeepsTrimmed(Strip(raw));
    assert t[..0] == [] && t[|t|..] == [] && t[0..|t|] == t;
    StripUnique(t, 0, |t|);
    TitleIdempotent(Strip(raw));
  }

  /** Searching with a raw name finds what its normal form looks like in lower case. */
  lemma SearchKeyOfName(raw: string)
    ensures Lower(NormalizeName(raw)) == SearchKey(raw)
  {
    LowerTitle(Strip(raw));
  }

  lemma TitleExampleApostrophe()
    ensures Title("o'neil") == "O'Neil"
  {
    var s := "o'neil";
    forall i | 0 <= i < |s| ensures Title(s)[i] == "O'Neil"[i] { TitleAt(s, i); }
  }

  lemma TitleExampleInnerSpaces()
    ensures Title("john   SMITH") == "John   Smith"
  {
    var s := "john   SMITH";
    forall i | 0 <= i < |s| ensures Title(s)[i] == "John   Smith"[i] { TitleAt(s, i); }
  }

  /** Inner spacing is kept; each run of letters is capitalised. */
  lemma NormalizeNameExample()
    ensures NormalizeName("  john   SMITH ") == "John   Smith"
  {
    StripExample();
    TitleExampleInnerSpaces();
  }

  lemma StripExample()
    ensures Strip("  john   SMITH ") == "john   SMITH"
  {
  }
}
