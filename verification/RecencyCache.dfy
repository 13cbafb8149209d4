/** Bounded ordered dictionaries: the eviction that gossip applies to seen votes, vote
    packets and finalizations, and what it amounts to over a whole history of touches. */
module RecencyCache {
  import opened Prelude

  function Without<T(==, !new)>(s: seq<T>, x: T): (r: seq<T>)
    ensures forall y :: y in r <==> y in s && y != x
  {
    if s == [] then []
    else
      var rest := Without(s[1..], x);
      assert s == [s[0]] + s[1..];
      if s[0] == x then rest else [s[0]] + rest
  }

  lemma {:induction false} WithoutDistinct<T(!new)>(s: seq<T>, x: T)
    requires Distinct(s)
    ensures Distinct(Without(s, x))
  {
    if s != [] {
      var rest := Without(s[1..], x);
      WithoutDistinct(s[1..], x);
      assert s[0] !in rest;
    }
  }

  lemma DistinctAppend<T(!new)>(s: seq<T>, x: T)
    requires Distinct(s) && x !in s
    ensures Distinct(s + [x])
  {
  }

  /** One touch of a dictionary that keeps at most `cap` keys, oldest first: a known key
      moves to the end; a new one is appended and the oldest may fall out. */
  function Touch<T(==, !new)>(keys: seq<T>, x: T, cap: nat): seq<T> {
    if x in keys then Without(keys, x) + [x] else Newest(keys + [x], cap)
  }

  function Newest<T>(s: seq<T>, cap: nat): seq<T> {
    if |s| <= cap then s else s[|s| - cap..]
  }

  ghost function Touches<T(!new)>(history: seq<T>, cap: nat): seq<T> {
    if history == [] then [] else Touch(Touches(history[..|history| - 1], cap), history[|history| - 1], cap)
  }

  /** Everything ever touched, in the order of the last touch. */
  ghost function Recency<T(!new)>(history: seq<T>): seq<T> {
    if history == [] then []
    else Without(Recency(history[..|history| - 1]), history[|history| - 1]) + [history[|history| - 1]]
  }

  lemma {:induction false} RecencyLists<T(!new)>(history: seq<T>)
    ensures Distinct(Recency(history))
    ensures forall x :: x in Recency(history) <==> x in history
  {
    if history != [] {
      var n := |history| - 1;
      RecencyLists(history[..n]);
      assert history == history[..n] + [history[n]];
      WithoutDistinct(Recency(history[..n]), history[n]);
      DistinctAppend(Without(Recency(history[..n]), history[n]), history[n]);
    }
  }

  lemma {:induction false} WithoutSplit<T(!new)>(a: seq<T>, b: seq<T>, x: T)
    ensures Without(a + b, x) == Without(a, x) + Without(b, x)
  {
    if a == [] {
      assert a + b == b;
    } else {
      assert (a + b)[1..] == a[1..] + b;
      WithoutSplit(a[1..], b, x);
    }
  }

  lemma {:induction false} WithoutAbsent<T(!new)>(s: seq<T>, x: T)
    requires x !in s
    ensures Without(s, x) == s
  {
    if s != [] {
      assert x !in s[1..];
      WithoutAbsent(s[1..], x);
    }
  }

  lemma {:induction false} WithoutPresent<T(!new)>(s: seq<T>, x: T)
    requires Distinct(s) && x in s
    ensures |Without(s, x)| == |s| - 1
  {
    if s[0] == x {
      assert x !in s[1..];
      WithoutAbsent(s[1..], x);
    } else {
      WithoutPresent(s[1..], x);
    }
  }

  lemma TouchKnown<T(!new)>(evicted: seq<T>, kept: seq<T>, x: T)
    requires x in kept && x !in evicted && Distinct(kept)
    ensures Without(kept, x) + [x] == Newest(Without(evicted + kept, x) + [x], |kept|)
  {
    WithoutSplit(evicted, kept, x);
    WithoutAbsent(evicted, x);
    WithoutPresent(kept, x);
    assert Without(evicted + kept, x) + [x] == evicted + (Without(kept, x) + [x]);
  }

  lemma TouchNew<T(!new)>(evicted: seq<T>, kept: seq<T>, x: T, cap: nat)
    requires x !in kept && 0 < cap && |kept| <= cap && (evicted != [] ==> |kept| == cap)
    ensures Newest(kept + [x], cap) == Newest(Without(evicted + kept, x) + [x], cap)
  {
    WithoutSplit(evicted, kept, x);
    WithoutAbsent(kept, x);
    var older := Without(evicted, x);
    assert Without(evicted + kept, x) + [x] == older + (kept + [x]);
    if evicted == [] {
      assert older == [];
      assert older + (kept + [x]) == kept + [x];
    } else {
      assert (older + (kept + [x]))[|older| + 1..] == (kept + [x])[1..];
    }
  }

  /** Touching the newest keys of a list leaves the newest keys of the touched list. */
  lemma TouchNewest<T(!new)>(all: seq<T>, x: T, cap: nat)
    requires Distinct(all) && 0 < cap
    ensures Touch(Newest(all, cap), x, cap) == Newest(Without(all, x) + [x], cap)
  {
    var kept := Newest(all, cap);
    var evicted := all[..|all| - |kept|];
    assert all == evicted + kept;
    if x in kept {
      TouchKnown(evicted, kept, x);
      WithoutPresent(all, x);
    } else {
      TouchNew(evicted, kept, x, cap);
    }
  }

  /** The cache is exact: after any history it holds the `cap` most recently touched
      distinct keys, in order of recency. */
  lemma {:induction false} CacheIsExact<T(!new)>(history: seq<T>, cap: nat)
    requires 0 < cap
    ensures Touches(history, cap) == Newest(Recency(history), cap)
  {
    if history != [] {
      var n := |history| - 1;
      CacheIsExact(history[..n], cap);
      RecencyLists(history[..n]);
      TouchNewest(Recency(history[..n]), history[n], cap);
    }
  }

  // ------------------------------------------------ when a touch reports "new"

  /** The last position at which `x` was touched. */
  ghost predicate IsLastTouch<T(!new)>(history: seq<T>, x: T, i: nat) {
    i < |history| && history[i] == x && x !in history[i + 1..]
  }

  ghost function Elements<T(!new)>(s: seq<T>): set<T> {
    set x | x in s
  }

  /** Behind a key, in order of recency, stand exactly the keys touched after it. */
  lemma {:induction false} RecencyPosition<T(!new)>(history: seq<T>, x: T, i: nat) returns (p: nat)
    requires IsLastTouch(history, x, i)
    ensures p < |Recency(history)| && Recency(history)[p] == x
    ensures Elements(Recency(history)[p + 1..]) == Elements(history[i + 1..])
    decreases |history|
  {
    var n := |history| - 1;
    var (before, last) := (history[..n], history[n]);
    var r := Recency(before);
    RecencyLists(before);
    if i == n {
      p := |Recency(history)| - 1;
    } else {
      assert last in history[i + 1..];
      assert history[i + 1..] == before[i + 1..] + [last];
      var q := RecencyPosition(before, x, i);
      var behind := r[q + 1..];
      assert r == r[..q] + ([x] + behind);
      WithoutSplit(r[..q], [x] + behind, last);
      WithoutSplit([x], behind, last);
      WithoutAbsent([x], last);
      var (front, back) := (Without(r[..q], last), Without(behind, last));
      assert Recency(history) == front + ([x] + (back + [last]));
      p := |front|;
      assert Recency(history)[p + 1..] == back + [last];
      forall y
        ensures y in back + [last] <==> y in history[i + 1..]
      {
        assert y in behind <==> y in Elements(behind);
        assert y in before[i + 1..] <==> y in Elements(before[i + 1..]);
      }
    }
  }

  lemma {:induction false} DistinctCount<T(!new)>(s: seq<T>)
    requires Distinct(s)
    ensures |Elements(s)| == |s|
  {
    if s != [] {
      DistinctCount(s[1..]);
      assert Elements(s) == Elements(s[1..]) + {s[0]};
      assert s[0] !in s[1..];
    }
  }

  lemma NotTouchedLater<T(!new)>(history: seq<T>, x: T, i: nat)
    requires IsLastTouch(history, x, i)
    ensures forall k | i < k < |history| :: history[k] != x
  {
    assert forall k | i < k < |history| :: history[i + 1..][k - i - 1] == history[k];
  }

  /** A key is reported new exactly when it was never touched, or when at least `cap` other
      distinct keys have been touched since. */
  lemma ReportedNewIff<T(!new)>(history: seq<T>, x: T, cap: nat)
    requires 0 < cap
    ensures x !in Touches(history, cap) <==>
            (x !in history || exists i: nat :: IsLastTouch(history, x, i) && |Elements(history[i + 1..])| >= cap)
  {
    CacheIsExact(history, cap);
    RecencyLists(history);
    var r := Recency(history);
    if x in history {
      var i := LastTouch(history, x);
      var p := RecencyPosition(history, x, i);
      DistinctCount(r[p + 1..]);
      forall j: nat | IsLastTouch(history, x, j)
        ensures j == i
      {
        NotTouchedLater(history, x, i);
        NotTouchedLater(history, x, j);
      }
      assert |r| - 1 - p == |Elements(history[i + 1..])|;
      assert x in Newest(r, cap) <==> |r| - p <= cap;
    }
  }

  lemma {:induction false} LastTouch<T(!new)>(history: seq<T>, x: T) returns (i: nat)
    requires x in history
    ensures IsLastTouch(history, x, i)
  {
    var n := |history| - 1;
    if history[n] == x {
      i := n;
    } else {
      i := LastTouch(history[..n], x);
      assert history[i + 1..] == history[..n][i + 1..] + [history[n]];
    }
  }
}
