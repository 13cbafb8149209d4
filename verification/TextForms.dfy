/** The texts that the readers of hashes, addresses and numbers take, each described by its parts. */
module TextForms {
  import EventIndex
  import Kernel
  import opened Prelude

  // ----------------------------------------------------------- characters

  predicate IsBlankChar(c: char) {
    '\t' <= c <= '\r' || c == ' ' || (127 <= c as int && IsSpace(c))
  }

  predicate IsZeroChar(c: char) {
    c == '0' || (127 <= c as int && !IsSpace(c) && IsForeignZero(c as int))
  }

  predicate IsDigitChar(c: char) {
    || '0' <= c <= '9' || 'a' <= c <= 'f' || 'A' <= c <= 'F'
    || (127 <= c as int && !IsSpace(c) && IsForeignDigit(c as int))
  }

  /** What the integer reader makes of one character. */
  lemma SightedIs(c: char)
    ensures var (seen, marks) := (Sighted(c), "+-_xX");
            && (('\t' <= seen <= '\r' || seen == ' ') <==> IsBlankChar(c))
            && (seen == '0' <==> IsZeroChar(c)) && (IsHexDigit(seen) <==> IsDigitChar(c))
            && (forall mark | mark in marks :: seen == mark <==> c == mark)
  {
    assert "+-_xX" == ['+', '-', '_', 'x', 'X'];
  }

  // ------------------------------------------------- numbers in base 16

  predicate Blanks(s: string) {
    forall i | 0 <= i < |s| :: IsBlankChar(s[i])
  }

  /** Digits, with at most one underscore before each. */
  predicate Run(s: string) {
    && (forall i | 0 <= i < |s| :: s[i] == '_' || IsDigitChar(s[i]))
    && (forall i | 0 < i < |s| :: s[i] != '_' || s[i - 1] != '_')
    && (s != "" ==> s[|s| - 1] != '_')
  }

  predicate RunEndsAt(s: string, n: nat) {
    n <= |s| && Run(s[..n]) && Blanks(s[n..])
  }

  ghost predicate IsRunThenBlanks(s: string) {
    exists n: nat :: RunEndsAt(s, n)
  }

  /** A digit, then more of them, then blanks. */
  ghost predicate IsDigits(s: string) {
    s != "" && IsDigitChar(s[0]) && IsRunThenBlanks(s[1..])
  }

  /** A zero and an x, and possibly an underscore. */
  predicate IsPrefix(s: string) {
    |s| in {2, 3} && IsZeroChar(s[0]) && s[1] in "xX" && (|s| == 3 ==> s[2] == '_')
  }

  /** Digits, with or without the prefix. */
  ghost predicate IsUnsigned(s: string) {
    IsDigits(s) || exists n: nat | n <= |s| :: IsPrefix(s[..n]) && IsDigits(s[n..])
  }

  ghost predicate IsSigned(s: string) {
    IsUnsigned(s) || (s != "" && s[0] in "+-" && IsUnsigned(s[1..]))
  }

  /** Blanks, a sign, the prefix, digits and blanks, of which only the digits have to be there. */
  ghost predicate IsNumber(s: string) {
    exists n: nat | n <= |s| :: Blanks(s[..n]) && IsSigned(s[n..])
  }

  lemma {:induction false} FinishedIff(s: string)
    ensures Reads(s, Finished) <==> Blanks(s)
  {
    if s != "" {
      SightedIs(s[0]);
      if IsBlankChar(s[0]) { FinishedIff(s[1..]); BlanksFrom(s); } else { NeverReads(s[1..]); }
    }
  }

  lemma BlanksFrom(s: string)
    requires s != ""
    ensures Blanks(s) <==> IsBlankChar(s[0]) && Blanks(s[1..])
  {
    var rest := s[1..];
    if IsBlankChar(s[0]) && Blanks(rest) {
      forall i | 0 <= i < |s|
        ensures IsBlankChar(s[i])
      {
        assert i > 0 ==> rest[i - 1] == s[i];
      }
    }
  }

  lemma {:induction false} NeverReads(s: string)
    ensures !Reads(s, Failed)
  {
    if s != "" { NeverReads(s[1..]); }
  }

  lemma RunFrom(s: string)
    requires s != ""
    ensures Run(s) <==>
              && (IsDigitChar(s[0]) || (s[0] == '_' && |s| > 1 && s[1] != '_'))
              && Run(s[1..])
  {
    var rest := s[1..];
    assert forall i | 0 < i < |s| :: s[i] == rest[i - 1];
    assert forall i | 0 <= i < |rest| :: rest[i] == s[i + 1];
  }

  lemma RunEndsAtFrom(s: string, n: nat)
    requires 0 < n <= |s|
    ensures RunEndsAt(s, n) <==>
              && (IsDigitChar(s[0]) || (s[0] == '_' && n > 1 && s[1] != '_'))
              && RunEndsAt(s[1..], n - 1)
  {
    RunFrom(s[..n]);
    assert s[..n][1..] == s[1..][..n - 1] && s[n..] == s[1..][n - 1..];
  }

  lemma FromRunThenBlanks(s: string, n: nat)
    requires s != "" && RunEndsAt(s, n)
    ensures Blanks(s) || (IsDigitChar(s[0]) && IsRunThenBlanks(s[1..])) || (s[0] == '_' && IsDigits(s[1..]))
  {
    if n == 0 {
      assert s[0..] == s;
    } else {
      RunEndsAtFrom(s, n);
      if s[0] == '_' { RunEndsAtFrom(s[1..], n - 1); }
    }
  }

  lemma BlanksAreRunThenBlanks(s: string)
    requires Blanks(s)
    ensures IsRunThenBlanks(s)
  {
    assert s[0..] == s && RunEndsAt(s, 0);
  }

  lemma DigitThenRun(s: string)
    requires s != "" && IsDigitChar(s[0]) && IsRunThenBlanks(s[1..])
    ensures IsRunThenBlanks(s)
  {
    var n: nat :| RunEndsAt(s[1..], n);
    RunEndsAtFrom(s, n + 1);
  }

  lemma UnderscoreThenDigits(s: string)
    requires s != "" && s[0] == '_' && IsDigits(s[1..])
    ensures IsRunThenBlanks(s)
  {
    DigitThenRun(s[1..]);
    var n: nat :| RunEndsAt(s[1..], n);
    if n > 0 { RunEndsAtFrom(s, n + 1); }
  }

  lemma RunThenBlanksFrom(s: string)
    requires s != ""
    ensures IsRunThenBlanks(s) <==>
              Blanks(s) || (IsDigitChar(s[0]) && IsRunThenBlanks(s[1..])) || (s[0] == '_' && IsDigits(s[1..]))
  {
    if n: nat :| RunEndsAt(s, n) { FromRunThenBlanks(s, n); }
    if Blanks(s) { BlanksAreRunThenBlanks(s); }
    if IsDigitChar(s[0]) && IsRunThenBlanks(s[1..]) { DigitThenRun(s); }
    if s[0] == '_' && IsDigits(s[1..]) { UnderscoreThenDigits(s); }
  }

  lemma {:induction false} DigitIff(s: string)
    ensures Reads(s, Digit) <==> IsRunThenBlanks(s)
    decreases |s|
  {
    if s == "" {
      assert RunEndsAt(s, 0);
    } else {
      SightedIs(s[0]);
      BlanksFrom(s);
      RunThenBlanksFrom(s);
      if IsBlankChar(s[0]) {
        FinishedIff(s[1..]);
      } else if s[0] == '_' {
        UnderscoreIff(s[1..]);
      } else if IsDigitChar(s[0]) {
        DigitIff(s[1..]);
      } else {
        NeverReads(s[1..]);
      }
    }
  }

  lemma {:induction false} UnderscoreIff(s: string)
    ensures Reads(s, Underscore) <==> IsDigits(s)
    decreases |s|
  {
    if s != "" {
      SightedIs(s[0]);
      if IsDigitChar(s[0]) { DigitIff(s[1..]); } else { NeverReads(s[1..]); }
    }
  }

  lemma RadixIff(s: string)
    ensures Reads(s, Radix) <==> IsDigits(s) || (s != "" && s[0] == '_' && IsDigits(s[1..]))
  {
    if s != "" {
      SightedIs(s[0]);
      UnderscoreIff(s);
      UnderscoreIff(s[1..]);
      if s[0] != '_' && !IsDigitChar(s[0]) { NeverReads(s[1..]); }
    }
  }

  lemma ZeroIff(s: string)
    ensures Reads(s, Zero) <==> IsRunThenBlanks(s) || (s != "" && s[0] in "xX" && Reads(s[1..], Radix))
  {
    DigitIff(s);
    if s != "" {
      SightedIs(s[0]);
      assert s[0] in "xX" ==> !IsDigitChar(s[0]) && !IsBlankChar(s[0]);
      if s[0] in "xX" { NeverReads(s[1..]); }
    }
  }

  lemma PrefixedIff(s: string)
    ensures (exists n: nat | n <= |s| :: IsPrefix(s[..n]) && IsDigits(s[n..])) <==>
              && |s| >= 2 && IsZeroChar(s[0]) && s[1] in "xX"
              && (IsDigits(s[2..]) || (|s| >= 3 && s[2] == '_' && IsDigits(s[3..])))
  {
    if n: nat :| n <= |s| && IsPrefix(s[..n]) && IsDigits(s[n..]) {
      assert s[..n][0] == s[0] && s[..n][1] == s[1];
    }
    if |s| >= 2 && IsZeroChar(s[0]) && s[1] in "xX" {
      assert IsPrefix(s[..2]);
      assert |s| >= 3 && s[2] == '_' ==> IsPrefix(s[..3]);
    }
  }

  lemma SignedIff(s: string)
    ensures Reads(s, Signed) <==> IsUnsigned(s)
  {
    PrefixedIff(s);
    UnderscoreIff(s);
    if s != "" {
      SightedIs(s[0]);
      if IsZeroChar(s[0]) {
        ZeroIff(s[1..]);
        if |s| >= 2 { RadixIff(s[2..]); }
      }
    }
  }

  lemma {:induction false} BlankIff(s: string)
    ensures Reads(s, Blank) <==> IsNumber(s)
  {
    NumberFrom(s);
    SignedIff(s);
    if s != "" {
      SightedIs(s[0]);
      if IsBlankChar(s[0]) { BlankIff(s[1..]); }
      if s[0] in "+-" { SignedIff(s[1..]); }
    }
  }

  lemma NumberFrom(s: string)
    ensures IsNumber(s) <==> IsSigned(s) || (s != "" && IsBlankChar(s[0]) && IsNumber(s[1..]))
  {
    assert s[..0] == "" && s[0..] == s;
    if s != "" {
      forall n: nat | 0 < n <= |s|
        ensures Blanks(s[..n]) <==> IsBlankChar(s[0]) && Blanks(s[1..][..n - 1])
        ensures s[n..] == s[1..][n - 1..]
      {
        BlanksFrom(s[..n]);
        assert s[..n][1..] == s[1..][..n - 1];
      }
    }
  }

  /** The integer reader takes exactly the numbers. */
  lemma Base16Iff(s: string)
    ensures IsBase16(s) <==> IsNumber(s)
  {
    BlankIff(s);
  }

  // ------------------------------------------------- hashes and addresses

  ghost predicate Is0x(s: string, body: string, n: nat) {
    s == "0x" + body && |body| == n
  }

  lemma BodyIs(s: string, n: nat)
    ensures |s| == n + 2 && s[..2] == "0x" <==> exists body :: Is0x(s, body, n)
    ensures forall body | Is0x(s, body, n) :: s[2..] == body
  {
    if |s| == n + 2 && s[..2] == "0x" { assert Is0x(s, s[2..], n); }
  }

  /** A hash is 0x and a number of 64 characters, in the reader's sense. */
  lemma HashIff(s: string)
    ensures IsHash(s) <==> exists body :: Is0x(s, body, 64) && IsNumber(body)
  {
    BodyIs(s, 64);
    if |s| == 66 { Base16Iff(s[2..]); }
  }

  /** A canonical hash is 0x and 64 of the sixteen digits. */
  lemma CanonicalHashIff(s: string)
    ensures IsCanonicalHash(s) <==> exists body :: Is0x(s, body, 64) && forall c | c in body :: c in "0123456789abcdef"
  {
    BodyIs(s, 64);
    assert forall c :: IsLowerHexDigit(c) <==> c in "0123456789abcdef";
    if |s| == 66 { assert forall i | 2 <= i < 66 :: s[i] == s[2..][i - 2]; }
  }

  /** An address is 0x and a number of 40 characters. */
  lemma AddressIff(s: string)
    ensures Kernel.IsAddress(s) <==> exists body :: Is0x(s, body, 40) && IsNumber(body)
  {
    BodyIs(s, 40);
    if |s| == 42 { Base16Iff(s[2..]); }
  }

  /** The event index takes the 64 characters with or without 0x before them. */
  lemma IndexHashIff(s: string)
    ensures EventIndex.IsIndexHash(s) <==>
              || (exists body :: Is0x(s, body, 64) && IsNumber(body))
              || (|s| == 64 && !("0x" <= s) && IsNumber(s))
  {
    HashIff(s);
    Base16Iff(s);
    assert "0x" <= s <==> |s| >= 2 && s[..2] == "0x";
  }

  predicate AreZeros(s: string) {
    |s| == 64 && forall i | 0 <= i < 64 :: s[i] == '0'
  }

  lemma ZeroHashIff(s: string)
    ensures EventIndex.IsZeroHash(s) <==> AreZeros(s) || exists body :: Is0x(s, body, 64) && AreZeros(body)
  {
    BodyIs(s, 64);
    if |s| >= 2 && s[..2] == "0x" {
      assert s[..2][1] == 'x' && s[1] in s;
      if |s| == 66 { assert Is0x(s, s[2..], 64); }
    }
  }

  // --------------------------------------------------------- case and space

  predicate CapitalOf(a: char, b: char) {
    'A' <= a <= 'Z' && b as int == a as int + 32
  }

  predicate SameLetter(a: char, b: char) {
    a == b || CapitalOf(a, b) || CapitalOf(b, a)
  }

  predicate SameLetters(a: string, b: string) {
    |a| == |b| && forall i | 0 <= i < |a| :: SameLetter(a[i], b[i])
  }

  lemma LowerCharSameIff(a: char, b: char)
    ensures LowerChar(a) == LowerChar(b) <==> SameLetter(a, b)
  {
  }

  /** Case folding identifies exactly the texts that differ in capitals. */
  lemma LowerSameIff(a: string, b: string)
    ensures Lower(a) == Lower(b) <==> SameLetters(a, b)
  {
    var (a', b') := (Lower(a), Lower(b));
    if |a| == |b| {
      forall i | 0 <= i < |a|
        ensures a'[i] == b'[i] <==> SameLetter(a[i], b[i])
      {
        LowerCharSameIff(a[i], b[i]);
      }
    }
  }

  lemma BlankParts(a: string, b: string)
    ensures IsBlank(a + b) <==> IsBlank(a) && IsBlank(b)
  {
    var s := a + b;
    if IsBlank(s) {
      assert forall i | 0 <= i < |a| :: a[i] == s[i];
      assert forall i | 0 <= i < |b| :: b[i] == s[|a| + i];
    }
  }

  /** The text from i to j is what is left of s without the white space around it. */
  predicate StripsTo(s: string, i: nat, j: nat) {
    && i <= j <= |s| && IsBlank(s[..i]) && IsBlank(s[j..])
    && (i < j ==> !IsSpace(s[i]) && !IsSpace(s[j - 1]))
  }

  lemma SpaceBefore(c: char, s: string, i: nat, j: nat)
    requires IsSpace(c) && StripsTo(s, i, j)
    ensures StripsTo([c] + s, i + 1, j + 1) && ([c] + s)[i + 1..j + 1] == s[i..j]
  {
    var longer := [c] + s;
    BlankParts([c], s[..i]);
    assert longer[..i + 1] == [c] + s[..i] && longer[j + 1..] == s[j..];
  }

  lemma SpaceAfter(s: string, c: char, i: nat, j: nat)
    requires IsSpace(c) && StripsTo(s, i, j)
    ensures StripsTo(s + [c], i, j) && (s + [c])[i..j] == s[i..j]
  {
    var longer := s + [c];
    BlankParts(s[j..], [c]);
    assert longer[..i] == s[..i] && longer[j..] == s[j..] + [c];
  }

  lemma StripBefore(s: string, i: nat, j: nat)
    requires s != "" && IsSpace(s[0]) && StripsTo(s[1..], i, j) && Strip(s[1..]) == s[1..][i..j]
    ensures StripsTo(s, i + 1, j + 1) && Strip(s) == s[i + 1..j + 1]
  {
    assert s == [s[0]] + s[1..];
    SpaceBefore(s[0], s[1..], i, j);
  }

  lemma StripAfter(s: string, i: nat, j: nat)
    requires s != "" && !IsSpace(s[0]) && IsSpace(s[|s| - 1])
    requires StripsTo(s[..|s| - 1], i, j) && Strip(s[..|s| - 1]) == s[..|s| - 1][i..j]
    ensures StripsTo(s, i, j) && Strip(s) == s[i..j]
  {
    assert s == s[..|s| - 1] + [s[|s| - 1]];
    SpaceAfter(s[..|s| - 1], s[|s| - 1], i, j);
  }

  lemma StripNothing(s: string)
    requires s != "" ==> !IsSpace(s[0]) && !IsSpace(s[|s| - 1])
    ensures StripsTo(s, 0, |s|) && Strip(s) == s[0..|s|]
  {
  }

  /** Stripping takes the white space before and after, and no more. */
  lemma {:induction false} StripIs(s: string) returns (i: nat, j: nat)
    ensures StripsTo(s, i, j) && Strip(s) == s[i..j]
    decreases |s|
  {
    if s != "" && IsSpace(s[0]) {
      i, j := StripIs(s[1..]);
      StripBefore(s, i, j);
      i, j := i + 1, j + 1;
    } else if s != "" && IsSpace(s[|s| - 1]) {
      i, j := StripIs(s[..|s| - 1]);
      StripAfter(s, i, j);
    } else {
      StripNothing(s);
      i, j := 0, |s|;
    }
  }
}
