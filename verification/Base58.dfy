/** Base-58 decoding, shown to be a bijection by an encoder that inverts it both ways. */
module Base58 {
  import opened Prelude
  import opened Radix

  const ALPHABET := "123456789" + "ABCDEFGH" + "JKLMN" + "PQRSTUVWXYZ" + "abcdefghijk" + "mnopqrstuvwxyz"

  predicate IsSymbol(c: char) {
    || '1' <= c <= '9' || 'A' <= c <= 'H' || 'J' <= c <= 'N'
    || 'P' <= c <= 'Z' || 'a' <= c <= 'k' || 'm' <= c <= 'z'
  }

  /** The position of a symbol in the alphabet. */
  function Index(c: char): (i: nat)
    requires IsSymbol(c)
    ensures i < 58
  {
    var n := c as int;
    if c <= '9' then n - '1' as int
    else if c <= 'H' then n - 'A' as int + 9
    else if c <= 'N' then n - 'J' as int + 17
    else if c <= 'Z' then n - 'P' as int + 22
    else if c <= 'k' then n - 'a' as int + 33
    else n - 'm' as int + 44
  }

  function Symbol(i: nat): (c: char)
    requires i < 58
    ensures IsSymbol(c) && Index(c) == i
  {
    if i < 9 then ('1' as int + i) as char
    else if i < 17 then ('A' as int + i - 9) as char
    else if i < 22 then ('J' as int + i - 17) as char
    else if i < 33 then ('P' as int + i - 22) as char
    else if i < 44 then ('a' as int + i - 33) as char
    else ('m' as int + i - 44) as char
  }

  lemma SymbolIsAlphabet(i: nat)
    requires i < 58
    ensures |ALPHABET| == 58 && Symbol(i) == ALPHABET[i]
  {
  }

  lemma SymbolOfIndex(c: char)
    requires IsSymbol(c)
    ensures Symbol(Index(c)) == c
  {
  }

  predicate IsText(s: string) {
    forall i | 0 <= i < |s| :: IsSymbol(s[i])
  }

  ghost function Indices(s: string): (r: seq<nat>)
    requires IsText(s)
    ensures |r| == |s| && forall i | 0 <= i < |s| :: r[i] == Index(s[i])
  {
    if s == "" then [] else Indices(s[..|s| - 1]) + [Index(s[|s| - 1])]
  }

  ghost function Symbols(ds: seq<nat>): (s: string)
    requires forall i | 0 <= i < |ds| :: ds[i] < 58
    ensures |s| == |ds| && IsText(s) && forall i | 0 <= i < |ds| :: s[i] == Symbol(ds[i])
  {
    if ds == [] then "" else Symbols(ds[..|ds| - 1]) + [Symbol(ds[|ds| - 1])]
  }

  ghost function Octets(bs: Bytes): (r: seq<nat>)
    ensures |r| == |bs| && forall i | 0 <= i < |bs| :: r[i] == bs[i] as nat
  {
    if bs == [] then [] else Octets(bs[..|bs| - 1]) + [bs[|bs| - 1] as nat]
  }

  ghost function ToBytes(ds: seq<nat>): (bs: Bytes)
    requires forall i | 0 <= i < |ds| :: ds[i] < 256
    ensures |bs| == |ds| && forall i | 0 <= i < |ds| :: bs[i] == ds[i] as Byte
  {
    if ds == [] then [] else ToBytes(ds[..|ds| - 1]) + [ds[|ds| - 1] as Byte]
  }

  /** How many entries at the front equal `x`. */
  function Leading<T(==)>(s: seq<T>, x: T): (k: nat)
    ensures k <= |s| && (forall i | 0 <= i < k :: s[i] == x) && (k < |s| ==> s[k] != x)
  {
    if s == [] || s[0] != x then 0 else 1 + Leading(s[1..], x)
  }

  lemma {:induction false} LeadingIs<T>(s: seq<T>, x: T, k: nat)
    requires k <= |s| && (forall i | 0 <= i < k :: s[i] == x) && (k < |s| ==> s[k] != x)
    ensures Leading(s, x) == k
  {
    if k > 0 {
      assert s[1..][..k - 1] == s[1..k];
      LeadingIs(s[1..], x, k - 1);
    }
  }

  function Repeat<T>(x: T, n: nat): (s: seq<T>)
    ensures |s| == n && forall i | 0 <= i < n :: s[i] == x
  {
    if n == 0 then [] else Repeat(x, n - 1) + [x]
  }

  /** Decoding in positional terms: one zero byte for each leading '1', then the number. */
  ghost function Decode(s: string): Option<Bytes> {
    if !IsText(s) then None
    else
      var n := Value(Indices(s), 58);
      DigitsCanonical(n, 256);
      Some(Repeat(0, Leading(s, '1')) + ToBytes(Digits(n, 256)))
  }

  ghost function Encode(bs: Bytes): string {
    var n := Value(Octets(bs), 256);
    DigitsCanonical(n, 58);
    Repeat('1', Leading(bs, 0)) + Symbols(Digits(n, 58))
  }

  // --------------------------------------------------------- the code's loop

  function BitLength(n: nat): nat {
    if n == 0 then 0 else 1 + BitLength(n / 2)
  }

  lemma BitLengthOfByte(n: nat)
    requires 0 < n < 256
    ensures 1 <= BitLength(n) <= 8
  {
    assert BitLength(n / 2) <= 7 by {
      assert n / 2 < 128;
      assert n / 4 < 64 && n / 2 / 2 == n / 4;
      assert n / 4 / 2 == n / 8 < 32;
      assert n / 8 / 2 == n / 16 < 16;
      assert n / 16 / 2 == n / 32 < 8;
      assert n / 32 / 2 == n / 64 < 4;
      assert n / 64 / 2 == n / 128 < 2;
      assert n / 128 / 2 == 0;
      assert BitLength(n / 128) <= 1;
      assert BitLength(n / 64) <= 2;
      assert BitLength(n / 32) <= 3;
      assert BitLength(n / 16) <= 4;
      assert BitLength(n / 8) <= 5;
      assert BitLength(n / 4) <= 6;
    }
  }

  lemma BitLengthShift(n: nat)
    requires 256 <= n
    ensures BitLength(n) == 8 + BitLength(n / 256)
  {
    assert n / 2 / 2 == n / 4 && n / 4 / 2 == n / 8 && n / 8 / 2 == n / 16 && n / 16 / 2 == n / 32;
    assert n / 32 / 2 == n / 64 && n / 64 / 2 == n / 128 && n / 128 / 2 == n / 256;
    assert BitLength(n / 128) == 1 + BitLength(n / 256);
    assert BitLength(n / 64) == 2 + BitLength(n / 256);
    assert BitLength(n / 32) == 3 + BitLength(n / 256);
    assert BitLength(n / 16) == 4 + BitLength(n / 256);
    assert BitLength(n / 8) == 5 + BitLength(n / 256);
    assert BitLength(n / 4) == 6 + BitLength(n / 256);
    assert BitLength(n / 2) == 7 + BitLength(n / 256);
  }

  /** Rounding the bit length up to whole bytes counts the base-256 digits. */
  lemma {:induction false} ByteCount(n: nat)
    ensures |Digits(n, 256)| == (BitLength(n) + 7) / 8
  {
    if n >= 256 {
      ByteCount(n / 256);
      BitLengthShift(n);
    } else if n > 0 {
      BitLengthOfByte(n);
      assert Digits(n / 256, 256) == [];
    }
  }

  /** Big-endian bytes of a fixed length. */
  method FixedBytes(number: nat, length: nat) returns (body: Bytes)
    requires |Digits(number, 256)| == length
    ensures |body| == length && forall i | 0 <= i < length :: body[i] as nat == Digits(number, 256)[i]
  {
    body := [];
    var rest := number;
    while |body| < length
      invariant |body| <= length && |Digits(rest, 256)| == length - |body|
      invariant Digits(rest, 256) == Digits(number, 256)[..length - |body|]
      invariant forall i | 0 <= i < |body| :: body[i] as nat == Digits(number, 256)[length - |body| + i]
      decreases length - |body|
    {
      assert Digits(rest, 256) == Digits(rest / 256, 256) + [rest % 256];
      body := [(rest % 256) as Byte] + body;
      rest := rest / 256;
    }
  }

  lemma ValueStep(value: string, i: nat)
    requires i < |value| && IsText(value[..i + 1])
    ensures IsText(value[..i]) && IsSymbol(value[i])
    ensures Value(Indices(value[..i + 1]), 58) == Value(Indices(value[..i]), 58) * 58 + Index(value[i])
  {
    var ds := Indices(value[..i + 1]);
    assert value[..i + 1][i] == value[i] && value[..i + 1][..i] == value[..i];
    assert ds[..i] == Indices(value[..i]);
  }

  method Base58Decode(value: string) returns (r: Option<Bytes>)
    ensures r == Decode(value)
  {
    var number := 0;
    for i := 0 to |value|
      invariant IsText(value[..i])
      invariant number == Value(Indices(value[..i]), 58)
    {
      if !IsSymbol(value[i]) { return None; }
      ValueStep(value, i);
      number := number * 58 + Index(value[i]);
    }
    assert value[..|value|] == value;
    ByteCount(number);
    DigitsCanonical(number, 256);
    var body := FixedBytes(number, (BitLength(number) + 7) / 8);
    assert body == ToBytes(Digits(number, 256));
    return Some(Repeat(0, Leading(value, '1')) + body);
  }

  // ------------------------------------------------------------- the bijection

  lemma SplitLeading<T>(s: seq<T>, x: T)
    ensures s == Repeat(x, Leading(s, x)) + s[Leading(s, x)..]
  {
  }

  /** Digits with leading zeros: the zeros, and the digits of the value. */
  lemma SplitDigits(ds: seq<nat>, base: nat)
    requires 2 <= base && forall i | 0 <= i < |ds| :: ds[i] < base
    ensures ds == Repeat(0, Leading(ds, 0)) + Digits(Value(ds, base), base)
  {
    var k := Leading(ds, 0);
    SplitLeading(ds, 0);
    ValueLeadingZeros(Repeat(0, k), ds[k..], base);
    DigitsOfValue(ds[k..], base);
  }

  lemma LeadingOnesAreZeros(s: string)
    requires IsText(s)
    ensures Leading(s, '1') == Leading(Indices(s), 0)
  {
    var k := Leading(s, '1');
    if k < |s| { SymbolOfIndex(s[k]); }
    LeadingIs(Indices(s), 0, k);
  }

  lemma LeadingZeroOctets(bs: Bytes)
    ensures Leading(bs, 0) == Leading(Octets(bs), 0)
  {
    LeadingIs(Octets(bs), 0, Leading(bs, 0));
  }

  lemma LeadingOfPadded<T>(x: T, k: nat, rest: seq<T>)
    requires rest != [] ==> rest[0] != x
    ensures Leading(Repeat(x, k) + rest, x) == k
  {
    LeadingIs(Repeat(x, k) + rest, x, k);
  }

  lemma DecodedParts(s: string)
    requires IsText(s)
    ensures var (bs, n) := (Decode(s).value, Value(Indices(s), 58));
            && Octets(bs) == Repeat(0, Leading(s, '1')) + Digits(n, 256)
            && Value(Octets(bs), 256) == n
            && Leading(bs, 0) == Leading(s, '1')
  {
    var (bs, n, k) := (Decode(s).value, Value(Indices(s), 58), Leading(s, '1'));
    DigitsCanonical(n, 256);
    assert Octets(bs) == Repeat(0, k) + Digits(n, 256);
    ValueLeadingZeros(Repeat(0, k), Digits(n, 256), 256);
    ValueOfDigits(n, 256);
    LeadingOfPadded<Byte>(0, k, ToBytes(Digits(n, 256)));
  }

  lemma CanonicalSymbols(ds: seq<nat>)
    requires Canonical(ds, 58)
    ensures ds != [] ==> Symbols(ds)[0] != '1'
  {
  }

  lemma PaddedIndex(k: nat, ds: seq<nat>, i: nat)
    requires forall j | 0 <= j < |ds| :: ds[j] < 58
    requires i < k + |ds|
    ensures var c := (Repeat('1', k) + Symbols(ds))[i];
            IsSymbol(c) && Index(c) == (Repeat(0, k) + ds)[i]
  {
    if i >= k { assert (Repeat('1', k) + Symbols(ds))[i] == Symbol(ds[i - k]); }
  }

  lemma IndicesOfPadded(k: nat, ds: seq<nat>)
    requires forall i | 0 <= i < |ds| :: ds[i] < 58
    ensures IsText(Repeat('1', k) + Symbols(ds))
    ensures Indices(Repeat('1', k) + Symbols(ds)) == Repeat(0, k) + ds
  {
    var (s, r) := (Repeat('1', k) + Symbols(ds), Repeat(0, k) + ds);
    forall i | 0 <= i < |s|
      ensures IsSymbol(s[i]) && Index(s[i]) == r[i]
    {
      PaddedIndex(k, ds, i);
    }
    assert |Indices(s)| == |r|;
    assert forall i | 0 <= i < |r| :: Indices(s)[i] == r[i];
  }

  lemma EncodedParts(bs: Bytes)
    ensures var (s, n) := (Encode(bs), Value(Octets(bs), 256));
            && IsText(s)
            && Indices(s) == Repeat(0, Leading(bs, 0)) + Digits(n, 58)
            && Value(Indices(s), 58) == n
            && Leading(s, '1') == Leading(bs, 0)
  {
    var (s, n, k) := (Encode(bs), Value(Octets(bs), 256), Leading(bs, 0));
    DigitsCanonical(n, 58);
    IndicesOfPadded(k, Digits(n, 58));
    ValueLeadingZeros(Repeat(0, k), Digits(n, 58), 58);
    ValueOfDigits(n, 58);
    CanonicalSymbols(Digits(n, 58));
    LeadingOfPadded('1', k, Symbols(Digits(n, 58)));
  }

  /** Every byte string is decoded from its encoding. */
  lemma DecodeInvertsEncode(bs: Bytes)
    ensures Decode(Encode(bs)) == Some(bs)
  {
    var s := Encode(bs);
    EncodedParts(bs);
    DecodedParts(s);
    LeadingZeroOctets(bs);
    SplitDigits(Octets(bs), 256);
    SameOctets(bs, Decode(s).value);
  }

  lemma SameOctets(bs: Bytes, bs': Bytes)
    requires Octets(bs) == Octets(bs')
    ensures bs == bs'
  {
    assert |bs| == |bs'|;
    assert forall i | 0 <= i < |bs| :: Octets(bs)[i] == bs[i] as nat && Octets(bs')[i] == bs'[i] as nat;
  }

  /** Every string over the alphabet is the encoding of what it decodes to. */
  lemma EncodeInvertsDecode(s: string)
    requires Decode(s).Some?
    ensures Encode(Decode(s).value) == s
  {
    var bs := Decode(s).value;
    DecodedParts(s);
    EncodedParts(bs);
    LeadingOnesAreZeros(s);
    SplitDigits(Indices(s), 58);
    var s' := Encode(bs);
    assert Indices(s') == Indices(s);
    forall i | 0 <= i < |s|
      ensures s'[i] == s[i]
    {
      assert Indices(s)[i] == Index(s[i]) && Indices(s')[i] == Index(s'[i]);
      SymbolOfIndex(s[i]);
      SymbolOfIndex(s'[i]);
    }
  }

  /** Decoding is defined on alphabet strings only, is one-to-one there, reaches every byte
      string, and turns leading '1's into as many leading zero bytes. */
  lemma DecodeIsBijective(s: string, s': string, bs: Bytes)
    ensures Decode(s).Some? <==> IsText(s)
    ensures Decode(s).Some? && Decode(s) == Decode(s') ==> s == s'
    ensures exists t :: Decode(t) == Some(bs)
    ensures Decode(s).Some? ==> Leading(Decode(s).value, 0) == Leading(s, '1')
  {
    DecodeInvertsEncode(bs);
    if Decode(s).Some? {
      EncodeInvertsDecode(s);
      DecodedParts(s);
      if Decode(s) == Decode(s') { EncodeInvertsDecode(s'); }
    }
  }
}
