/** The records of the native-token Genesis plan: their checks and their normal forms. */
module GenesisRecords {
  import opened Ordering
  import opened Prelude

  // ------------------------------------------------------------------- text

  lemma {:induction false} StripTwice(s: string)
    ensures Strip(Strip(s)) == Strip(s)
    decreases |s|
  {
    if s != "" {
      if IsSpace(s[0]) { StripTwice(s[1..]); } else if IsSpace(s[|s| - 1]) { StripTwice(s[..|s| - 1]); }
    }
  }

  predicate TextValid(s: string, most: nat) {
    Strip(s) != "" && |Strip(s)| <= most
  }

  predicate OptTextValid(s: Option<string>, most: nat) {
    s.Some? ==> TextValid(s.value, most)
  }

  function OptStrip(s: Option<string>): Option<string> {
    if s.Some? then Some(Strip(s.value)) else None
  }

  function SecretMarkers(): seq<string> {
    ["private_key", "mnemonic", "seed_phrase", "secret_value"]
  }

  predicate OccursAt(marker: string, s: string, i: int) {
    0 <= i <= |s| - |marker| && Lower(s[i..i + |marker|]) == marker
  }

  predicate Occurs(marker: string, s: string) {
    exists i | 0 <= i <= |s| :: OccursAt(marker, s, i)
  }

  /** Text without a secret marker, in any case of letters. */
  predicate Clean(s: string) {
    forall i | 0 <= i < |SecretMarkers()| :: !Occurs(SecretMarkers()[i], s)
  }

  predicate OptClean(s: Option<string>) {
    s.Some? ==> Clean(s.value)
  }

  lemma SliceOfSlice(s: string, lo: nat, hi: nat, i: nat, n: nat)
    requires lo <= hi <= |s| && i + n <= hi - lo
    ensures s[lo..hi][i..i + n] == s[lo + i..lo + i + n]
  {
    var (inner, outer) := (s[lo..hi][i..i + n], s[lo + i..lo + i + n]);
    assert forall j | 0 <= j < n :: inner[j] == outer[j];
  }

  lemma OccursInSlice(marker: string, s: string, lo: nat, hi: nat)
    requires lo <= hi <= |s| && Occurs(marker, s[lo..hi])
    ensures Occurs(marker, s)
  {
    var i :| 0 <= i <= |s[lo..hi]| && OccursAt(marker, s[lo..hi], i);
    SliceOfSlice(s, lo, hi, i, |marker|);
    assert OccursAt(marker, s, lo + i);
  }

  lemma SliceIsClean(s: string, lo: nat, hi: nat)
    requires lo <= hi <= |s| && Clean(s)
    ensures Clean(s[lo..hi])
  {
    forall k | 0 <= k < |SecretMarkers()|
      ensures !Occurs(SecretMarkers()[k], s[lo..hi])
    {
      if Occurs(SecretMarkers()[k], s[lo..hi]) { OccursInSlice(SecretMarkers()[k], s, lo, hi); }
    }
  }

  lemma {:induction false} StripIsClean(s: string)
    requires Clean(s)
    ensures Clean(Strip(s))
    decreases |s|
  {
    if s != "" {
      if IsSpace(s[0]) {
        SliceIsClean(s, 1, |s|);
        assert s[1..|s|] == s[1..];
        StripIsClean(s[1..]);
      } else if IsSpace(s[|s| - 1]) {
        SliceIsClean(s, 0, |s| - 1);
        assert s[0..|s| - 1] == s[..|s| - 1];
        StripIsClean(s[..|s| - 1]);
      }
    }
  }

  /** An account address: 20 hexadecimal bytes of either case, not all zero. */
  predicate AddressValid(s: string) {
    && |s| == 42 && s[0] == '0' && s[1] == 'x'
    && (forall i | 2 <= i < 42 :: IsHexDigit(s[i]))
    && exists i | 2 <= i < 42 :: s[i] != '0'
  }

  lemma LowerAddress(s: string)
    requires AddressValid(s)
    ensures AddressValid(Lower(s)) && Lower(Lower(s)) == Lower(s)
  {
    LowerIdempotent(s);
    var i :| 2 <= i < 42 && s[i] != '0';
    assert Lower(s)[i] != '0';
    forall j | 2 <= j < 42
      ensures IsHexDigit(Lower(s)[j])
    {
      assert Lower(s)[j] == LowerChar(s[j]) && Lower(Lower(s))[j] == LowerChar(Lower(s)[j]);
    }
  }

  function LowerAll(names: seq<string>): (r: seq<string>)
    ensures |r| == |names| && forall i | 0 <= i < |r| :: r[i] == Lower(names[i])
  {
    if names == [] then [] else LowerAll(names[..|names| - 1]) + [Lower(names[|names| - 1])]
  }

  predicate AddressesValid(names: seq<string>) {
    (forall i | 0 <= i < |names| :: AddressValid(names[i])) && Distinct(LowerAll(names))
  }

  lemma LowerAllTwice(names: seq<string>)
    requires AddressesValid(names)
    ensures AddressesValid(LowerAll(names)) && LowerAll(LowerAll(names)) == LowerAll(names)
  {
    forall i | 0 <= i < |names|
      ensures AddressValid(LowerAll(names)[i]) && LowerAll(LowerAll(names))[i] == LowerAll(names)[i]
    {
      LowerAddress(names[i]);
    }
  }

  // ------------------------------------------------------------------ sorting

  predicate InOrder(names: seq<string>) {
    forall i, j | 0 <= i < j < |names| :: !LexLess(names[j], names[i])
  }

  function Keys<T>(s: seq<T>, key: T -> string): (r: seq<string>)
    ensures |r| == |s| && forall i | 0 <= i < |r| :: r[i] == key(s[i])
  {
    seq(|s|, i requires 0 <= i < |s| => key(s[i]))
  }

  function Insert<T>(s: seq<T>, x: T, key: T -> string): (r: seq<T>)
    ensures |r| == |s| + 1
  {
    if s == [] || !LexLess(key(x), key(s[|s| - 1])) then s + [x]
    else Insert(s[..|s| - 1], x, key) + [s[|s| - 1]]
  }

  /** A stable sort by key, code point by code point. */
  function Sorted<T>(s: seq<T>, key: T -> string): (r: seq<T>)
    ensures |r| == |s|
  {
    if s == [] then [] else Insert(Sorted(s[..|s| - 1], key), s[|s| - 1], key)
  }

  lemma {:induction false} InsertInOrder<T>(s: seq<T>, x: T, key: T -> string)
    requires InOrder(Keys(s, key))
    ensures var r := Keys(Insert(s, x, key), key);
            InOrder(r) && forall i | 0 <= i < |r| :: r[i] == key(x) || r[i] in Keys(s, key)
  {
    var (n, r) := (|s| - 1, Insert(s, x, key));
    if s == [] || !LexLess(key(x), key(s[n])) {
      forall i | 0 <= i < |s|
        ensures !LexLess(key(x), key(s[i]))
      {
        if LexLess(key(x), key(s[i])) && i < n {
          assert !LexLess(Keys(s, key)[n], Keys(s, key)[i]);
          NotLessTransitive(key(x), key(s[n]), key(s[i]));
        }
      }
      assert forall i | 0 <= i < |s| :: r[i] == s[i] && key(s[i]) == Keys(s, key)[i];
    } else {
      var rest := Insert(s[..n], x, key);
      assert forall i | 0 <= i < n :: Keys(s[..n], key)[i] == Keys(s, key)[i];
      InsertInOrder(s[..n], x, key);
      forall i | 0 <= i < |rest|
        ensures !LexLess(key(s[n]), key(rest[i]))
        ensures key(rest[i]) == key(x) || key(rest[i]) in Keys(s, key)
      {
        assert Keys(rest, key)[i] == key(rest[i]);
        if key(rest[i]) == key(x) {
          LexAsymmetric(key(x), key(s[n]));
        } else {
          var j :| 0 <= j < n && Keys(s[..n], key)[j] == key(rest[i]);
          assert !LexLess(Keys(s, key)[n], Keys(s, key)[j]);
        }
      }
      assert forall i | 0 <= i < |rest| :: r[i] == rest[i];
      assert key(s[n]) == Keys(s, key)[n];
    }
  }

  lemma LexAsymmetric(a: string, b: string)
    requires LexLess(a, b)
    ensures !LexLess(b, a)
  {
    if LexLess(b, a) {
      LexTransitive(a, b, a);
      LexTrichotomy(a, a);
    }
  }

  lemma NotLessTransitive(a: string, b: string, c: string)
    requires !LexLess(a, b) && !LexLess(b, c)
    ensures !LexLess(a, c)
  {
    LexTrichotomy(a, b);
    LexTrichotomy(b, c);
    if LexLess(a, c) {
      if a != b && b != c { LexTransitive(c, b, a); LexAsymmetric(a, c); }
    }
  }

  lemma {:induction false} SortedInOrder<T>(s: seq<T>, key: T -> string)
    ensures InOrder(Keys(Sorted(s, key), key))
  {
    if s != [] {
      SortedInOrder(s[..|s| - 1], key);
      InsertInOrder(Sorted(s[..|s| - 1], key), s[|s| - 1], key);
    }
  }

  /** What is in order already is left alone. */
  lemma {:induction false} SortedLeavesOrdered<T>(s: seq<T>, key: T -> string)
    requires InOrder(Keys(s, key))
    ensures Sorted(s, key) == s
  {
    if s != [] {
      var n := |s| - 1;
      assert forall i | 0 <= i < n :: Keys(s[..n], key)[i] == Keys(s, key)[i];
      SortedLeavesOrdered(s[..n], key);
      if n > 0 { assert !LexLess(Keys(s, key)[n], Keys(s, key)[n - 1]); }
      assert s[..n] + [s[n]] == s;
    }
  }

  function Same(s: string): string { s }

  lemma KeysOfSame(names: seq<string>)
    ensures Keys(names, Same) == names
  {
  }

  /** Text is canonical when sorting does not move it. */
  predicate Canonical(names: seq<string>) {
    names == Sorted(names, Same)
  }

  lemma CanonicalIff(names: seq<string>)
    ensures Canonical(names) <==> InOrder(names)
  {
    KeysOfSame(names);
    SortedInOrder(names, Same);
    KeysOfSame(Sorted(names, Same));
    if InOrder(names) { SortedLeavesOrdered(names, Same); }
  }
}
