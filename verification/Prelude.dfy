/** Value types shared by every component: options, results, bytes and the
    case folding that the program applies to hexadecimal text. */
module Prelude {
  datatype Option<+T> = None | Some(value: T)

  datatype Result<+T, +E> = Ok(value: T) | Err(error: E)

  newtype Byte = x: int | 0 <= x < 256

  type Bytes = seq<Byte>

  function LowerChar(c: char): char {
    if 'A' <= c <= 'Z' then (c as int + 32) as char else c
  }

  /** Case folding of ASCII letters, the only letters that a hash may contain. */
  function Lower(s: string): (r: string)
    ensures |r| == |s|
    ensures forall i | 0 <= i < |s| :: r[i] == LowerChar(s[i])
  {
    if s == "" then "" else [LowerChar(s[0])] + Lower(s[1..])
  }

  lemma LowerIdempotent(s: string)
    ensures Lower(Lower(s)) == Lower(s)
  {
    var once, twice := Lower(s), Lower(Lower(s));
    assert forall i | 0 <= i < |s| :: twice[i] == once[i];
  }

  predicate IsLowerHexDigit(c: char) {
    '0' <= c <= '9' || 'a' <= c <= 'f'
  }

  predicate IsHexDigit(c: char) {
    IsLowerHexDigit(LowerChar(c))
  }

  /** White space as text-stripping sees it. */
  predicate IsSpace(c: char) {
    var n := c as int;
    || 0x09 <= n <= 0x0D || 0x1C <= n <= 0x20 || n == 0x85 || n == 0xA0 || n == 0x1680
    || 0x2000 <= n <= 0x200A || n == 0x2028 || n == 0x2029 || n == 0x202F || n == 0x205F || n == 0x3000
  }

  /** The text without white space around it. */
  function Strip(s: string): string {
    if s != "" && IsSpace(s[0]) then Strip(s[1..])
    else if s != "" && IsSpace(s[|s| - 1]) then Strip(s[..|s| - 1])
    else s
  }

  predicate Distinct<T(==, !new)>(s: seq<T>) {
    forall i, j | 0 <= i < j < |s| :: s[i] != s[j]
  }

  // ---------------------------------------------------- reading base 16 text

  /** The code points of the zeros of decimal digits outside ASCII; the other digits follow them. */
  predicate IsForeignZero(n: int) {
    n in {0x660, 0x6F0, 0x7C0, 0x966, 0x9E6, 0xA66, 0xAE6, 0xB66, 0xBE6, 0xC66, 0xCE6, 0xD66, 0xDE6, 0xE50, 0xED0,
          0xF20, 0x1040, 0x1090, 0x17E0, 0x1810, 0x1946, 0x19D0, 0x1A80, 0x1A90, 0x1B50, 0x1BB0, 0x1C40, 0x1C50,
          0xA620, 0xA8D0, 0xA900, 0xA9D0, 0xA9F0, 0xAA50, 0xABF0, 0xFF10, 0x104A0, 0x10D30, 0x11066, 0x110F0,
          0x11136, 0x111D0, 0x112F0, 0x11450, 0x114D0, 0x11650, 0x116C0, 0x11730, 0x118E0, 0x11950, 0x11C50, 0x11D50,
          0x11DA0, 0x11F50, 0x16A60, 0x16AC0, 0x16B50, 0x1E140, 0x1E2F0, 0x1E4F0, 0x1E950, 0x1FBF0, 0x1D7CE, 0x1D7D8,
          0x1D7E2, 0x1D7EC, 0x1D7F6}
  }

  predicate IsForeignDigit(n: int) {
    exists zero | n - 10 < zero <= n :: IsForeignZero(zero)
  }

  /** A character as the integer reader sees it: foreign digits are digits, foreign spaces are
      spaces, and anything else outside ASCII is no part of a number. */
  function Sighted(c: char): char {
    if c as int < 127 then c
    else if IsSpace(c) then ' '
    else if IsForeignZero(c as int) then '0'
    else if IsForeignDigit(c as int) then '1'
    else '?'
  }

  /** How far the integer reader has come. */
  datatype Reading = Blank | Signed | Zero | Radix | Digit | Underscore | Finished | Failed

  function Read(state: Reading, c: char): Reading {
    var blank := '\t' <= c <= '\r' || c == ' ';
    match state
    case Blank => if blank then Blank else if c == '+' || c == '-' then Signed else ReadFirst(c)
    case Signed => ReadFirst(c)
    case Zero => if c == 'x' || c == 'X' then Radix else ReadNext(c, blank)
    case Radix => if c == '_' then Underscore else ReadDigit(c)
    case Digit => ReadNext(c, blank)
    case Underscore => ReadDigit(c)
    case Finished => if blank then Finished else Failed
    case Failed => Failed
  }

  function ReadFirst(c: char): Reading {
    if c == '0' then Zero else ReadDigit(c)
  }

  function ReadDigit(c: char): Reading {
    if IsHexDigit(c) then Digit else Failed
  }

  function ReadNext(c: char, blank: bool): Reading {
    if blank then Finished else if c == '_' then Underscore else ReadDigit(c)
  }

  predicate Reads(s: string, state: Reading) {
    if s == "" then state in {Zero, Digit, Finished} else Reads(s[1..], Read(state, Sighted(s[0])))
  }

  /** Text that the integer reader takes in base 16: digits of either case with single
      underscores between them, after an optional sign and an optional 0x, with spaces around. */
  predicate IsBase16(s: string) {
    Reads(s, Blank)
  }

  predicate IsLowerHexText(s: string) {
    forall i | 0 <= i < |s| :: IsLowerHexDigit(s[i])
  }

  lemma {:induction false} HexTextReads(s: string, state: Reading)
    requires IsLowerHexText(s) && state in {Zero, Digit}
    ensures Reads(s, state)
  {
    if s != "" { HexTextReads(s[1..], Digit); }
  }

  lemma HexTextIsBase16(s: string)
    requires s != "" && IsLowerHexText(s)
    ensures IsBase16(s)
  {
    HexTextReads(s[1..], Read(Blank, s[0]));
  }

  /** One digit n times. */
  function DigitText(digit: char, n: nat): (s: string)
    requires IsLowerHexDigit(digit) && 0 < n
    ensures |s| == n && IsBase16(s) && forall i | 0 <= i < n :: s[i] == digit
  {
    HexTextIsBase16(seq(n, _ => digit));
    seq(n, _ => digit)
  }

  // ------------------------------------------------------------------ hashes

  /** A 32-byte value as the program accepts it: 0x and 64 characters that read as a number
      in base 16. */
  predicate IsHash(s: string) {
    |s| == 66 && s[..2] == "0x" && IsBase16(s[2..])
  }

  /** The same with 64 lower-case digits. */
  predicate IsCanonicalHash(s: string) {
    && |s| == 66
    && s[..2] == "0x"
    && forall i | 2 <= i < 66 :: IsLowerHexDigit(s[i])
  }

  lemma CanonicalHashIsLower(s: string)
    requires IsCanonicalHash(s)
    ensures IsHash(s) && Lower(s) == s
  {
    assert s[0] == s[..2][0] == '0' && s[1] == s[..2][1] == 'x';
    assert forall i | 0 <= i < |s| :: Lower(s)[i] == s[i];
    HexTextIsBase16(s[2..]);
  }

  predicate IsBlank(s: string) {
    forall i | 0 <= i < |s| :: IsSpace(s[i])
  }

  lemma TimesOrdered(a: int, b: int, k: int)
    requires a <= b && 0 <= k
    ensures a * k <= b * k
  {
  }

  lemma OneMoreTimes(n: int, k: int)
    ensures (n + 1) * k == n * k + k
  {
  }

  /** An arbitrary but fixed element of a set. */
  ghost function Any<T>(s: set<T>): (x: T)
    requires s != {}
    ensures x in s
  {
    var x :| x in s;
    x
  }

  /** Some element of a set, in whatever order the set is stored. */
  method Pick<T(==)>(s: set<T>) returns (x: T)
    requires s != {}
    ensures x in s
  {
    x :| x in s;
  }
}
