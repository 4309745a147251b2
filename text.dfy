/**
 * The string and character primitives of .NET that the value objects and
 * repositories rely on: `char.IsWhiteSpace`, `string.IsNullOrWhiteSpace`,
 * `Trim`, UTF-16 `Length`, `char.IsDigit`, ordinal case folding and splitting.
 */
module Text {
  import opened Wrappers

  /**
   * `char.IsWhiteSpace`: the Unicode space, line and paragraph separators,
   * the controls U+0009..U+000D, and U+0085.
   */
  predicate IsWhiteSpace(c: char) {
    || c == ' ' || ('\t' <= c <= '\r') || c == '\U{0085}' || c == '\U{00A0}'
    || c == '\U{1680}' || ('\U{2000}' <= c <= '\U{200A}')
    || c == '\U{2028}' || c == '\U{2029}' || c == '\U{202F}' || c == '\U{205F}' || c == '\U{3000}'
  }

  /** Every character is white space (true of the empty string). */
  predicate IsBlank(s: string) {
    forall i :: 0 <= i < |s| ==> IsWhiteSpace(s[i])
  }

  /** `string.IsNullOrWhiteSpace`; `None` is `null`. */
  predicate IsNullOrWhiteSpace(v: Option<string>) {
    v.None? || IsBlank(v.value)
  }

  /** `char.IsDigit`, restricted to the ASCII digits. */
  predicate IsDigit(c: char) {
    '0' <= c <= '9'
  }

  /** The number of UTF-16 code units of `s` (`string.Length`). */
  function Utf16Length(s: string): (n: nat)
    ensures |s| <= n <= 2 * |s|
    ensures (forall i :: 0 <= i < |s| ==> s[i] <= '\U{FFFF}') ==> n == |s|
  {
    if s == [] then 0
    else (if s[0] <= '\U{FFFF}' then 1 else 2) + Utf16Length(s[1..])
  }

  /** Leading white space removed. */
  function TrimStart(s: string): (r: string)
    ensures |r| <= |s| && r == s[|s| - |r|..]
    ensures r == [] || !IsWhiteSpace(r[0])
    ensures forall k :: 0 <= k < |s| - |r| ==> IsWhiteSpace(s[k])
    ensures IsBlank(s[..|s| - |r|])
  {
    if |s| > 0 && IsWhiteSpace(s[0]) then
      var r := TrimStart(s[1..]);
      assert s[..|s| - |r|] == [s[0]] + s[1..][..|s| - 1 - |r|];
      r
    else s
  }

  /** Trailing white space removed. */
  function TrimEnd(s: string): (r: string)
    ensures |r| <= |s| && r == s[..|r|]
    ensures r == [] || !IsWhiteSpace(r[|r| - 1])
    ensures forall k :: |r| <= k < |s| ==> IsWhiteSpace(s[k])
    ensures IsBlank(s[|r|..])
  {
    if |s| > 0 && IsWhiteSpace(s[|s| - 1]) then
      var r := TrimEnd(s[..|s| - 1]);
      assert s[|r|..] == s[..|s| - 1][|r|..] + [s[|s| - 1]];
      r
    else s
  }

  /** `string.Trim()`: the slice of `s` left once its blank prefix and blank suffix are cut. */
  function Trim(s: string): (r: string)
    ensures |r| <= |s|
    ensures r == [] || (!IsWhiteSpace(r[0]) && !IsWhiteSpace(r[|r| - 1]))
    ensures exists i, j :: 0 <= i <= j <= |s| && r == s[i..j] && IsBlank(s[..i]) && IsBlank(s[j..])
  {
    var t := TrimStart(s);
    var r := TrimEnd(t);
    BlankEndsCut(s, t, r);
    r
  }

  /** A blank-prefix cut followed by a blank-suffix cut is one slice with blank ends. */
  lemma BlankEndsCut(s: string, t: string, r: string)
    requires |t| <= |s| && t == s[|s| - |t|..] && IsBlank(s[..|s| - |t|])
    requires |r| <= |t| && r == t[..|r|] && IsBlank(t[|r|..])
    ensures exists i, j :: 0 <= i <= j <= |s| && r == s[i..j] && IsBlank(s[..i]) && IsBlank(s[j..])
  {
    var i := |s| - |t|;
    assert s[i + |r|..] == t[|r|..];
    assert r == s[i..i + |r|];
  }

  /** Trimming leaves nothing exactly when the string is blank. */
  lemma TrimEmptyIffBlank(s: string)
    ensures Trim(s) == [] <==> IsBlank(s)
  {
    if Trim(s) == [] {
      assert TrimStart(s) == [];
    }
  }

  /** Leading white space before a string is dropped by TrimStart. */
  lemma {:induction false} TrimStartSkipsBlankPrefix(a: string, s: string)
    requires IsBlank(a)
    ensures TrimStart(a + s) == TrimStart(s)
  {
    if a == [] {
      assert a + s == s;
    } else {
      assert (a + s)[0] == a[0];
      assert (a + s)[1..] == a[1..] + s;
      TrimStartSkipsBlankPrefix(a[1..], s);
    }
  }

  /** Trailing white space after a string is dropped by TrimEnd. */
  lemma {:induction false} TrimEndSkipsBlankSuffix(s: string, b: string)
    requires IsBlank(b)
    ensures TrimEnd(s + b) == TrimEnd(s)
  {
    if b == [] {
      assert s + b == s;
    } else {
      var b' := b[..|b| - 1];
      assert (s + b)[|s + b| - 1] == b[|b| - 1];
      assert (s + b)[..|s + b| - 1] == s + b';
      TrimEndSkipsBlankSuffix(s, b');
    }
  }

  /** TrimStart of a string that is not blank does not reach past it. */
  lemma {:induction false} TrimStartOfNonBlankPrefix(s: string, b: string)
    requires !IsBlank(s)
    ensures TrimStart(s + b) == TrimStart(s) + b
  {
    assert (s + b)[0] == s[0];
    if IsWhiteSpace(s[0]) {
      assert (s + b)[1..] == s[1..] + b;
      assert !IsBlank(s[1..]) by {
        var i :| 0 <= i < |s| && !IsWhiteSpace(s[i]);
        assert s[1..][i - 1] == s[i];
      }
      TrimStartOfNonBlankPrefix(s[1..], b);
    }
  }

  /** Trim ignores white space added on either side. */
  lemma TrimIgnoresPadding(a: string, s: string, b: string)
    requires IsBlank(a) && IsBlank(b)
    ensures Trim(a + s + b) == Trim(s)
  {
    assert a + s + b == a + (s + b);
    TrimStartSkipsBlankPrefix(a, s + b);
    if IsBlank(s) {
      assert IsBlank(s + b) by {
        forall i | 0 <= i < |s + b| ensures IsWhiteSpace((s + b)[i]) {
          if i < |s| { assert (s + b)[i] == s[i]; } else { assert (s + b)[i] == b[i - |s|]; }
        }
      }
      TrimEmptyIffBlank(s + b);
      TrimEmptyIffBlank(s);
      assert TrimStart(s + b) == [];
    } else {
      TrimStartOfNonBlankPrefix(s, b);
      TrimEndSkipsBlankSuffix(TrimStart(s), b);
    }
  }

  /** ASCII lower-casing of one character. */
  function ToLower(c: char): char {
    if 'A' <= c <= 'Z' then (c as int + 32) as char else c
  }

  /** ASCII lower-casing of a string. */
  function Lower(s: string): (r: string)
    ensures |r| == |s|
    ensures forall i :: 0 <= i < |s| ==> r[i] == ToLower(s[i])
  {
    if s == [] then [] else [ToLower(s[0])] + Lower(s[1..])
  }

  /** Case-insensitive equality (ASCII folding). */
  predicate EqualsIgnoreCase(a: string, b: string) {
    Lower(a) == Lower(b)
  }

  /** Case-insensitive equality is reflexive, symmetric, and needs equal lengths. */
  lemma EqualsIgnoreCaseProperties(a: string, b: string)
    ensures EqualsIgnoreCase(a, a)
    ensures EqualsIgnoreCase(a, b) ==> EqualsIgnoreCase(b, a) && |a| == |b|
    ensures EqualsIgnoreCase(a, b) <==> |a| == |b| && forall i :: 0 <= i < |a| ==> ToLower(a[i]) == ToLower(b[i])
  {
    if |a| == |b| && forall i :: 0 <= i < |a| ==> ToLower(a[i]) == ToLower(b[i]) {
      assert Lower(a) == Lower(b);
    }
  }

  /** The characters of `s` that satisfy `char.IsDigit`, in order. */
  function DigitsOf(s: string): (r: string)
    ensures |r| <= |s|
    ensures forall i :: 0 <= i < |r| ==> IsDigit(r[i])
    ensures (forall i :: 0 <= i < |s| ==> IsDigit(s[i])) ==> r == s
  {
    if s == [] then []
    else (if IsDigit(s[0]) then [s[0]] else []) + DigitsOf(s[1..])
  }

  /** The filter keeps every digit of `s`, each as often as it occurs, and nothing else. */
  lemma {:induction false} DigitsOfKeepsEveryDigit(s: string)
    ensures forall c :: multiset(DigitsOf(s))[c] == if IsDigit(c) then multiset(s)[c] else 0
  {
    if s != [] {
      assert s == [s[0]] + s[1..];
      DigitsOfKeepsEveryDigit(s[1..]);
    }
  }

  /** Filtering distributes over concatenation. */
  lemma {:induction false} DigitsOfConcat(a: string, b: string)
    ensures DigitsOf(a + b) == DigitsOf(a) + DigitsOf(b)
  {
    if a == [] {
      assert a + b == b;
    } else {
      assert (a + b)[1..] == a[1..] + b;
      DigitsOfConcat(a[1..], b);
    }
  }

  /** The number of occurrences of `c` in `s`. */
  function Count(s: string, c: char): (n: nat)
    ensures n <= |s|
    ensures n == 0 <==> c !in s
  {
    if s == [] then 0 else (if s[0] == c then 1 else 0) + Count(s[1..], c)
  }

  /** `parts` joined back together with `sep` between neighbours. */
  function Join(parts: seq<string>, sep: char): string
    requires |parts| >= 1
  {
    if |parts| == 1 then parts[0] else parts[0] + [sep] + Join(parts[1..], sep)
  }

  /** Prepending characters to the first piece prepends them to the joined string. */
  lemma {:induction false} JoinExtendFirst(prefix: string, parts: seq<string>, sep: char)
    requires |parts| >= 1
    ensures Join([prefix + parts[0]] + parts[1..], sep) == prefix + Join(parts, sep)
  {
    var q := [prefix + parts[0]] + parts[1..];
    assert q[1..] == parts[1..];
  }

  /** `s.Split(sep)`: the maximal runs between separators, empty runs included. */
  function SplitOn(s: string, sep: char): (parts: seq<string>)
    ensures |parts| == Count(s, sep) + 1
    ensures forall k :: 0 <= k < |parts| ==> sep !in parts[k]
    ensures Join(parts, sep) == s
  {
    if s == [] then [[]]
    else
      var rest := SplitOn(s[1..], sep);
      if s[0] == sep then
        var parts := [[]] + rest;
        assert parts[1..] == rest;
        parts
      else
        JoinExtendFirst([s[0]], rest, sep);
        [[s[0]] + rest[0]] + rest[1..]
  }

  /** Splitting a string with no separator gives the string itself. */
  lemma SplitWithoutSeparator(s: string, sep: char)
    requires sep !in s
    ensures SplitOn(s, sep) == [s]
  {
  }

  /** The first piece is the prefix before the first separator. */
  lemma {:induction false} SplitFirstPiece(s: string, sep: char, i: nat)
    requires i < |s| && s[i] == sep && sep !in s[..i]
    ensures SplitOn(s, sep)[0] == s[..i]
    ensures SplitOn(s, sep)[1..] == SplitOn(s[i + 1..], sep)
  {
    if i > 0 {
      assert s[1..][..i - 1] == s[1..i];
      assert s[1..][i - 1 + 1..] == s[i + 1..];
      SplitFirstPiece(s[1..], sep, i - 1);
    }
  }

  /** A string with exactly one separator splits into the two sides of it. */
  lemma SplitAtSoleSeparator(a: string, sep: char, b: string)
    requires sep !in a && sep !in b
    ensures SplitOn(a + [sep] + b, sep) == [a, b]
  {
    var s := a + [sep] + b;
    assert s[..|a|] == a && s[|a| + 1..] == b;
    SplitFirstPiece(s, sep, |a|);
    SplitWithoutSeparator(b, sep);
  }

  /** A separator in first position makes the first piece empty. */
  lemma LeadingSeparatorGivesEmptyPiece(s: string, sep: char)
    requires |s| > 0 && s[0] == sep
    ensures SplitOn(s, sep)[0] == []
  {
  }

  /** A separator in last position makes the last piece empty. */
  lemma TrailingSeparatorGivesEmptyPiece(s: string, sep: char)
    requires |s| > 0 && s[|s| - 1] == sep
    ensures var parts := SplitOn(s, sep); parts[|parts| - 1] == []
  {
    JoinEndsWithLastPiece(SplitOn(s, sep), sep);
  }

  /** The joined string ends with the last piece. */
  lemma {:induction false} JoinEndsWithLastPiece(parts: seq<string>, sep: char)
    requires |parts| >= 1
    ensures var j := Join(parts, sep);
            var p := parts[|parts| - 1];
            |p| <= |j| && j[|j| - |p|..] == p
  {
    if |parts| > 1 {
      var p := parts[|parts| - 1];
      var rest := Join(parts[1..], sep);
      JoinEndsWithLastPiece(parts[1..], sep);
      assert parts[1..][|parts[1..]| - 1] == p;
      var j := parts[0] + [sep] + rest;
      assert j[|j| - |p|..] == rest[|rest| - |p|..];
    }
  }

  /** Two adjacent separators make an empty piece, which is never the first one. */
  lemma {:induction false} DoubleSeparatorGivesEmptyPiece(s: string, sep: char, i: nat)
    requires i + 1 < |s| && s[i] == sep && s[i + 1] == sep
    ensures exists k :: 1 <= k < |SplitOn(s, sep)| && SplitOn(s, sep)[k] == []
  {
    var parts := SplitOn(s, sep);
    var rest := SplitOn(s[1..], sep);
    if i == 0 {
      LeadingSeparatorGivesEmptyPiece(s[1..], sep);
      assert parts[1] == rest[0];
    } else {
      DoubleSeparatorGivesEmptyPiece(s[1..], sep, i - 1);
      var k :| 1 <= k < |rest| && rest[k] == [];
      if s[0] == sep {
        assert parts[k + 1] == rest[k];
      } else {
        assert parts[k] == rest[k];
      }
    }
  }
}
