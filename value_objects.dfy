/**
 * The value objects of ContactManagement.Domain.ValueObjects.
 *
 * Each is a datatype holding the validated string; datatype equality is the
 * equality over atomic values that the `ValueObject` base class provides.
 * A nullable input is an `Option<string>`, and `Email`/`PhoneNumber` return
 * `Success(None)` where the source returns `Success(null)`.
 */
module ValueObjects {
  import opened Wrappers
  import opened Common
  import opened Text
  import DomainErrors

  /** The longest name accepted, in UTF-16 code units. */
  const MaxNameLength := 100
  /** The longest e-mail address accepted, in UTF-16 code units. */
  const MaxEmailLength := 255

  datatype Name = Name(value: string) {
    /** Name.Create: required, and at most 100 UTF-16 units; stored verbatim. */
    static function Create(v: Option<string>): (r: Result<Name>)
      ensures r.IsSuccess() <==> !IsNullOrWhiteSpace(v) && Utf16Length(v.value) <= MaxNameLength
      ensures r.IsSuccess() ==> r.value == Name(v.value)
      ensures IsNullOrWhiteSpace(v) ==> r == Result.BadRequest(DomainErrors.ContactNameRequired)
      ensures !IsNullOrWhiteSpace(v) && r.IsFailure() ==> r == Result.BadRequest(DomainErrors.ContactNameTooLong)
    {
      if IsNullOrWhiteSpace(v) then Result.BadRequest(DomainErrors.ContactNameRequired)
      else if Utf16Length(v.value) > MaxNameLength then Result.BadRequest(DomainErrors.ContactNameTooLong)
      else Result.Success(Name(v.value))
    }

    /** Every name Create accepts is non-blank and fits the length limit. */
    predicate Valid() {
      !IsBlank(value) && Utf16Length(value) <= MaxNameLength
    }
  }

  /** Exactly the valid names are produced by Create, and Create takes them back unchanged. */
  lemma NameCreateRoundTrip(n: Name)
    ensures n.Valid() <==> Name.Create(Some(n.value)) == Result.Success(n)
  {
  }

  /** A valid name keeps at least one character after trimming. */
  lemma ValidNameTrimsToNonEmpty(n: Name)
    requires n.Valid()
    ensures Trim(n.value) != []
  {
    TrimEmptyIffBlank(n.value);
  }

  /** Exactly 100 characters is accepted, 101 is too long, and 101 spaces are "required" first. */
  lemma NameLengthBoundary()
    ensures Name.Create(Some(seq(100, _ => 'a'))).IsSuccess()
    ensures Name.Create(Some(seq(101, _ => 'a'))) == Result.BadRequest(DomainErrors.ContactNameTooLong)
    ensures Name.Create(Some(seq(101, _ => ' '))) == Result.BadRequest(DomainErrors.ContactNameRequired)
  {
    var a100: string := seq(100, _ => 'a');
    var a101: string := seq(101, _ => 'a');
    assert a100[0] == 'a' && !IsBlank(a100);
    assert a101[0] == 'a' && !IsBlank(a101);
  }

  // ---------------------------------------------------------------------
  // The e-mail pattern, with the IgnoreCase option:
  //   atom ('.' atom)* '@' (label '.')+ label, then the end of input or a final '\n'.

  /** `[a-z0-9]` under IgnoreCase. */
  predicate IsAlphaNumeric(c: char) {
    ('a' <= c <= 'z') || ('A' <= c <= 'Z') || ('0' <= c <= '9')
  }

  /** The character class of the local part. */
  predicate IsAtomChar(c: char) {
    IsAlphaNumeric(c) || c in "!#$%&'*+/=?^_`{|}~-"
  }

  /** One `[...]+` run of the local part. */
  predicate IsAtom(p: string) {
    |p| > 0 && forall i :: 0 <= i < |p| ==> IsAtomChar(p[i])
  }

  /** `[a-z0-9](?:[a-z0-9-]*[a-z0-9])?`: alphanumeric at both ends, hyphens inside. */
  predicate IsLabel(p: string) {
    && |p| > 0 && IsAlphaNumeric(p[0]) && IsAlphaNumeric(p[|p| - 1])
    && forall i :: 0 <= i < |p| ==> IsAlphaNumeric(p[i]) || p[i] == '-'
  }

  /** The part before '@': dot-separated atoms. */
  predicate IsLocalPart(s: string) {
    var atoms := SplitOn(s, '.');
    forall k :: 0 <= k < |atoms| ==> IsAtom(atoms[k])
  }

  /** The part after '@': at least two dot-separated labels. */
  predicate IsDomain(s: string) {
    var labels := SplitOn(s, '.');
    |labels| >= 2 && forall k :: 0 <= k < |labels| ==> IsLabel(labels[k])
  }

  /**
   * The pattern between `^` and `$`. Neither the local part nor the domain
   * can contain '@', so the input has exactly one '@' and splitting at it is exact.
   */
  predicate MatchesAddress(s: string) {
    var halves := SplitOn(s, '@');
    |halves| == 2 && IsLocalPart(halves[0]) && IsDomain(halves[1])
  }

  /** `EmailRegex().IsMatch(s)`: .NET's `$` also matches just before a final '\n'. */
  predicate EmailRegexIsMatch(s: string) {
    || MatchesAddress(s)
    || (|s| > 0 && s[|s| - 1] == '\n' && MatchesAddress(s[..|s| - 1]))
  }

  datatype Email = Email(value: string) {
    /**
     * Email.Create: blank input means "no e-mail" and succeeds with `None`;
     * otherwise the pattern must match and the length be at most 255.
     */
    static function Create(v: Option<string>): (r: Result<Option<Email>>)
      ensures r.IsSuccess() && r.value == None <==> IsNullOrWhiteSpace(v)
      ensures r.IsSuccess() && r.value != None <==>
                !IsNullOrWhiteSpace(v) && EmailRegexIsMatch(v.value) && Utf16Length(v.value) <= MaxEmailLength
      ensures r.IsSuccess() && r.value != None ==> r.value.value == Email(v.value)
      ensures r.IsFailure() ==> r == Result.BadRequest(DomainErrors.ContactInvalidEmail)
    {
      if IsNullOrWhiteSpace(v) then Result.Success(None)
      else if !EmailRegexIsMatch(v.value) then Result.BadRequest(DomainErrors.ContactInvalidEmail)
      else if Utf16Length(v.value) > MaxEmailLength then Result.BadRequest(DomainErrors.ContactInvalidEmail)
      else Result.Success(Some(Email(v.value)))
    }

    /** Every address Create stores satisfies this. */
    predicate Valid() {
      !IsBlank(value) && EmailRegexIsMatch(value) && Utf16Length(value) <= MaxEmailLength
    }
  }

  /** Exactly the valid addresses are stored by Create, and Create takes them back unchanged. */
  lemma EmailCreateRoundTrip(e: Email)
    ensures e.Valid() <==> Email.Create(Some(e.value)) == Result.Success(Some(e))
  {
  }

  /** `[a-z0-9]` and the other pattern characters are all ASCII. */
  predicate IsAscii(c: char) {
    c <= '\U{007F}'
  }

  predicate AllAscii(s: string) {
    forall i :: 0 <= i < |s| ==> IsAscii(s[i])
  }

  /** Joining ASCII pieces with an ASCII separator gives an ASCII string. */
  lemma {:induction false} JoinAscii(parts: seq<string>, sep: char)
    requires |parts| >= 1 && IsAscii(sep)
    requires forall k :: 0 <= k < |parts| ==> AllAscii(parts[k])
    ensures AllAscii(Join(parts, sep))
  {
    if |parts| > 1 {
      JoinAscii(parts[1..], sep);
      var j := Join(parts[1..], sep);
      var whole := parts[0] + [sep] + j;
      forall i | 0 <= i < |whole| ensures IsAscii(whole[i]) {
        if i < |parts[0]| {
          assert whole[i] == parts[0][i];
        } else if i > |parts[0]| {
          assert whole[i] == j[i - |parts[0]| - 1];
        }
      }
    }
  }

  /** A well-formed local part is ASCII. */
  lemma LocalPartIsAscii(s: string)
    requires IsLocalPart(s)
    ensures AllAscii(s)
  {
    var atoms := SplitOn(s, '.');
    forall k | 0 <= k < |atoms| ensures AllAscii(atoms[k]) {
      assert IsAtom(atoms[k]);
    }
    JoinAscii(atoms, '.');
  }

  /** A well-formed domain is ASCII. */
  lemma DomainIsAscii(s: string)
    requires IsDomain(s)
    ensures AllAscii(s)
  {
    var labels := SplitOn(s, '.');
    forall k | 0 <= k < |labels| ensures AllAscii(labels[k]) {
      assert IsLabel(labels[k]);
    }
    JoinAscii(labels, '.');
  }

  /** Every string the address pattern matches is ASCII. */
  lemma AddressIsAscii(s: string)
    requires MatchesAddress(s)
    ensures AllAscii(s)
  {
    var halves := SplitOn(s, '@');
    LocalPartIsAscii(halves[0]);
    DomainIsAscii(halves[1]);
    forall k | 0 <= k < |halves| ensures AllAscii(halves[k]) {
    }
    JoinAscii(halves, '@');
  }

  lemma {:induction false} CountSnoc(s: string, c: char, d: char)
    ensures Count(s + [d], c) == Count(s, c) + (if d == c then 1 else 0)
  {
    if s != [] {
      assert (s + [d])[1..] == s[1..] + [d];
      CountSnoc(s[1..], c, d);
    }
  }

  /** Whatever the pattern accepts has exactly one '@' and is ASCII. */
  lemma MatchedAddressShape(s: string)
    requires EmailRegexIsMatch(s)
    ensures Count(s, '@') == 1
    ensures AllAscii(s)
  {
    if MatchesAddress(s) {
      AddressIsAscii(s);
      AddressHasOneAt(s);
    } else {
      var t := s[..|s| - 1];
      assert t + ['\n'] == s;
      AddressWithNewlineShape(t);
    }
  }

  lemma AddressWithNewlineShape(t: string)
    requires MatchesAddress(t)
    ensures Count(t + ['\n'], '@') == 1
    ensures AllAscii(t + ['\n'])
  {
    AddressIsAscii(t);
    AddressHasOneAt(t);
    SnocAscii(t, '\n');
    CountSnoc(t, '@', '\n');
  }

  lemma AddressHasOneAt(s: string)
    requires MatchesAddress(s)
    ensures Count(s, '@') == 1
  {
    assert |SplitOn(s, '@')| == 2;
  }

  lemma SnocAscii(s: string, c: char)
    requires AllAscii(s) && IsAscii(c)
    ensures AllAscii(s + [c])
  {
    forall i | 0 <= i < |s + [c]| ensures IsAscii((s + [c])[i]) {
      if i < |s| { assert (s + [c])[i] == s[i]; }
    }
  }

  /**
   * A stored e-mail has exactly one '@', is ASCII, and so its UTF-16 length
   * is its character count, at most 255.
   */
  lemma StoredEmailShape(v: Option<string>, e: Email)
    requires Email.Create(v) == Result.Success(Some(e))
    ensures Count(e.value, '@') == 1
    ensures AllAscii(e.value)
    ensures |e.value| <= MaxEmailLength
  {
    assert v.Some? && e.value == v.value;
    assert EmailRegexIsMatch(e.value) && Utf16Length(e.value) <= MaxEmailLength;
    MatchedAddressShape(e.value);
  }

  /**
   * The `$` anchor lets one trailing line feed through: an address followed
   * by '\n' is accepted and stored with the line feed.
   */
  lemma TrailingNewlineAccepted(s: string)
    requires MatchesAddress(s) && |s| < MaxEmailLength
    ensures Email.Create(Some(s + "\n")) == Result.Success(Some(Email(s + "\n")))
  {
    var t := s + "\n";
    assert t[..|t| - 1] == s;
    assert EmailRegexIsMatch(t);
    MatchedAddressStartsVisible(s);
    assert t[0] == s[0];
    AddressIsAscii(s);
    SnocAscii(s, '\n');
    assert t == s + ['\n'];
  }

  /** An address the pattern accepts starts with an atom character, so it is not blank. */
  lemma MatchedAddressStartsVisible(s: string)
    requires MatchesAddress(s)
    ensures |s| > 0 && !IsWhiteSpace(s[0])
  {
    var halves := SplitOn(s, '@');
    var atoms := SplitOn(halves[0], '.');
    StartsWithAtom(s, halves, atoms);
  }

  /** A string joined from pieces whose first piece is joined from atoms starts with an atom character. */
  lemma StartsWithAtom(s: string, halves: seq<string>, atoms: seq<string>)
    requires |halves| >= 1 && Join(halves, '@') == s
    requires |atoms| >= 1 && Join(atoms, '.') == halves[0] && IsAtom(atoms[0])
    ensures |s| > 0 && !IsWhiteSpace(s[0])
  {
    assert halves[0][0] == atoms[0][0];
    assert s[0] == halves[0][0];
  }

  /** The first piece is a prefix of the joined string. */
  lemma JoinPrefix(parts: seq<string>, sep: char)
    requires |parts| >= 1
    ensures |parts[0]| <= |Join(parts, sep)| && Join(parts, sep)[..|parts[0]|] == parts[0]
  {
  }

  /** An input without '@' is rejected. */
  lemma AddressWithoutAtRejected(s: string)
    requires '@' !in s
    ensures !EmailRegexIsMatch(s)
  {
    if |s| > 0 {
      assert s == s[..|s| - 1] + [s[|s| - 1]];
      assert '@' !in s[..|s| - 1];
    }
  }

  /**
   * An input with one '@' is accepted exactly when the text before it is a
   * local part and the text after it a domain.
   */
  lemma AddressSplitsAtAt(local: string, domain: string)
    requires '@' !in local && '@' !in domain
    requires domain == [] || domain[|domain| - 1] != '\n'
    ensures EmailRegexIsMatch(local + "@" + domain) <==> IsLocalPart(local) && IsDomain(domain)
  {
    SplitAtSoleSeparator(local, '@', domain);
  }

  /** The local part may not be empty, nor start or end with '.'. */
  lemma EdgeDotLocalPartRejected(l: string)
    requires l == [] || l[0] == '.' || l[|l| - 1] == '.'
    ensures !IsLocalPart(l)
  {
    if l != [] && l[0] == '.' {
      LeadingSeparatorGivesEmptyPiece(l, '.');
    } else if l != [] {
      TrailingSeparatorGivesEmptyPiece(l, '.');
      var atoms := SplitOn(l, '.');
      assert !IsAtom(atoms[|atoms| - 1]);
    } else {
      assert SplitOn(l, '.') == [[]];
    }
  }

  /** The domain needs a '.', and may not start or end with one. */
  lemma MalformedDomainRejected(d: string)
    requires '.' !in d || d[0] == '.' || d[|d| - 1] == '.'
    ensures !IsDomain(d)
  {
    if '.' !in d {
      SplitWithoutSeparator(d, '.');
    } else if d[0] == '.' {
      LeadingSeparatorGivesEmptyPiece(d, '.');
    } else {
      TrailingSeparatorGivesEmptyPiece(d, '.');
    }
  }

  /** Two consecutive dots are rejected on either side of '@'. */
  lemma DoubleDotRejected(s: string, i: nat)
    requires i + 1 < |s| && s[i] == '.' && s[i + 1] == '.'
    ensures !IsLocalPart(s) && !IsDomain(s)
  {
    DoubleSeparatorGivesEmptyPiece(s, '.', i);
  }

  /** Two labels joined by '.' form a domain. */
  lemma TwoLabelDomainAccepted(a: string, b: string)
    requires IsLabel(a) && IsLabel(b)
    ensures IsDomain(a + "." + b)
  {
    assert '.' !in a && '.' !in b;
    SplitAtSoleSeparator(a, '.', b);
  }

  /** `atom@label.label` matches the pattern. */
  lemma SimpleAddressMatches(atom: string, a: string, b: string)
    requires IsAtom(atom) && IsLabel(a) && IsLabel(b)
    ensures EmailRegexIsMatch(atom + "@" + (a + "." + b))
  {
    var domain := a + "." + b;
    assert '@' !in atom && '.' !in atom;
    assert '@' !in domain;
    assert domain[|domain| - 1] == b[|b| - 1];
    SplitWithoutSeparator(atom, '.');
    TwoLabelDomainAccepted(a, b);
    AddressSplitsAtAt(atom, domain);
  }

  /** `atom@label.label`, within the length limit, is accepted and stored as given. */
  lemma SimpleAddressAccepted(atom: string, a: string, b: string)
    requires IsAtom(atom) && IsLabel(a) && IsLabel(b)
    requires |atom| + |a| + |b| + 2 <= MaxEmailLength
    ensures var s := atom + "@" + (a + "." + b);
            Email.Create(Some(s)) == Result.Success(Some(Email(s)))
  {
    var s := atom + "@" + (a + "." + b);
    SimpleAddressMatches(atom, a, b);
    MatchedAddressShape(s);
    assert s[0] == atom[0];
  }

  /** An over-long address is rejected even when it matches the pattern. */
  lemma OverlongAddressRejected(s: string)
    requires EmailRegexIsMatch(s) && |s| > MaxEmailLength && !IsBlank(s)
    ensures Email.Create(Some(s)) == Result.BadRequest(DomainErrors.ContactInvalidEmail)
  {
  }

  // ---------------------------------------------------------------------
  // The phone pattern `^\d{10,15}$`, applied to the digits of the input.

  predicate PhonePattern(d: string) {
    10 <= |d| <= 15 && forall i :: 0 <= i < |d| ==> IsDigit(d[i])
  }

  /** `PhoneRegex().IsMatch(d)`, with `$` matching before a final '\n'. */
  predicate PhoneRegexIsMatch(d: string) {
    || PhonePattern(d)
    || (|d| > 0 && d[|d| - 1] == '\n' && PhonePattern(d[..|d| - 1]))
  }

  datatype PhoneNumber = PhoneNumber(value: string) {
    /**
     * PhoneNumber.Create: blank input means "no phone" and succeeds with
     * `None`; otherwise the input must contain 10 to 15 digits, whatever
     * else it contains, and the original formatted string is stored.
     */
    static function Create(v: Option<string>): (r: Result<Option<PhoneNumber>>)
      ensures r.IsSuccess() && r.value == None <==> IsNullOrWhiteSpace(v)
      ensures r.IsSuccess() && r.value != None <==>
                !IsNullOrWhiteSpace(v) && 10 <= |DigitsOf(v.value)| <= 15
      ensures r.IsSuccess() && r.value != None ==> r.value.value == PhoneNumber(v.value)
      ensures r.IsFailure() ==> r == Result.BadRequest(DomainErrors.ContactInvalidPhoneNumber)
    {
      if IsNullOrWhiteSpace(v) then Result.Success(None)
      else
        var digitsOnly := DigitsOf(v.value);
        if !PhoneRegexIsMatch(digitsOnly) then Result.BadRequest(DomainErrors.ContactInvalidPhoneNumber)
        else Result.Success(Some(PhoneNumber(v.value)))
    }

    /** Every number Create stores satisfies this. */
    predicate Valid() {
      !IsBlank(value) && 10 <= |DigitsOf(value)| <= 15
    }
  }

  /** Exactly the valid numbers are stored by Create, and Create takes them back unchanged. */
  lemma PhoneNumberCreateRoundTrip(p: PhoneNumber)
    ensures p.Valid() <==> PhoneNumber.Create(Some(p.value)) == Result.Success(Some(p))
  {
  }

  /** Whether a phone number is accepted depends only on its digits, not on its formatting. */
  lemma PhoneVerdictDependsOnlyOnDigits(a: string, b: string)
    requires !IsBlank(a) && !IsBlank(b) && DigitsOf(a) == DigitsOf(b)
    ensures PhoneNumber.Create(Some(a)).IsSuccess() <==> PhoneNumber.Create(Some(b)).IsSuccess()
  {
  }

  /** Inserting a separator that is not a digit never changes the verdict. */
  lemma PhoneSeparatorsIgnored(a: string, c: char, b: string)
    requires !IsDigit(c) && !IsBlank(a + b)
    ensures PhoneNumber.Create(Some(a + [c] + b)).IsSuccess() <==> PhoneNumber.Create(Some(a + b)).IsSuccess()
  {
    DigitsOfConcat(a + [c], b);
    DigitsOfConcat(a, [c]);
    DigitsOfConcat(a, b);
    assert DigitsOf([c]) == [];
    assert !IsBlank(a + [c] + b) by {
      var i :| 0 <= i < |a + b| && !IsWhiteSpace((a + b)[i]);
      if i < |a| { assert (a + [c] + b)[i] == (a + b)[i]; }
      else { assert (a + [c] + b)[i + 1] == (a + b)[i]; }
    }
  }

  /** A string of digits is accepted exactly when it has 10 to 15 of them. */
  lemma DigitStringVerdict(s: string)
    requires |s| > 0 && forall i :: 0 <= i < |s| ==> IsDigit(s[i])
    ensures PhoneNumber.Create(Some(s)).IsSuccess() <==> 10 <= |s| <= 15
  {
    assert !IsWhiteSpace(s[0]);
  }
}
