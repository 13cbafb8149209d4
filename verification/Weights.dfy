/** Total weight of a finite set of keys. */
module Weights {
  import opened Prelude

  ghost function Weight<K>(w: map<K, nat>, s: set<K>): nat
    requires s <= w.Keys
  {
    if s == {} then 0
    else
      var x :| x in s;
      w[x] + Weight(w, s - {x})
  }

  lemma {:induction false} WeightRemove<K>(w: map<K, nat>, s: set<K>, x: K)
    requires s <= w.Keys && x in s
    ensures Weight(w, s) == w[x] + Weight(w, s - {x})
    decreases |s|
  {
    var y :| y in s && Weight(w, s) == w[y] + Weight(w, s - {y});
    if y != x {
      WeightRemove(w, s - {y}, x);
      WeightRemove(w, s - {x}, y);
      assert s - {y} - {x} == s - {x} - {y};
    }
  }

  lemma WeightInsert<K>(w: map<K, nat>, s: set<K>, x: K)
    requires s <= w.Keys && x in w && x !in s
    ensures Weight(w, s + {x}) == w[x] + Weight(w, s)
  {
    WeightRemove(w, s + {x}, x);
    assert s + {x} - {x} == s;
  }

  /** Inclusion and exclusion. */
  lemma {:induction false} WeightUnion<K>(w: map<K, nat>, a: set<K>, b: set<K>)
    requires a <= w.Keys && b <= w.Keys
    ensures Weight(w, a + b) + Weight(w, a * b) == Weight(w, a) + Weight(w, b)
    decreases |b|
  {
    if b == {} {
      assert a + b == a && a * b == {};
    } else {
      var x :| x in b;
      var rest := b - {x};
      WeightUnion(w, a, rest);
      WeightRemove(w, b, x);
      if x in a {
        assert a + b == a + rest;
        assert a * b == a * rest + {x};
        WeightInsert(w, a * rest, x);
      } else {
        assert a + b == (a + rest) + {x};
        assert a * b == a * rest;
        WeightInsert(w, a + rest, x);
      }
    }
  }

  lemma WeightMonotone<K>(w: map<K, nat>, a: set<K>, b: set<K>)
    requires a <= b <= w.Keys
    ensures Weight(w, a) <= Weight(w, b)
  {
    WeightUnion(w, a, b - a);
    assert a + (b - a) == b && a * (b - a) == {};
  }

  lemma {:induction false} WeightAgree<K>(w: map<K, nat>, w': map<K, nat>, s: set<K>)
    requires s <= w.Keys && s <= w'.Keys
    requires forall x | x in s :: w[x] == w'[x]
    ensures Weight(w, s) == Weight(w', s)
    decreases |s|
  {
    if s != {} {
      var x :| x in s;
      WeightAgree(w, w', s - {x});
      WeightRemove(w, s, x);
      WeightRemove(w', s, x);
    }
  }

  /** Distinct keys of weight at most `cap` weigh at most `cap` each. */
  lemma {:induction false} WeightCapped<K>(w: map<K, nat>, s: set<K>, cap: nat)
    requires s <= w.Keys
    requires forall x | x in s :: w[x] <= cap
    ensures Weight(w, s) <= |s| * cap
    decreases |s|
  {
    if s != {} {
      var x :| x in s;
      WeightCapped(w, s - {x}, cap);
      WeightRemove(w, s, x);
      assert |s| == |s - {x}| + 1;
      OneMoreTimes(|s - {x}|, cap);
    }
  }

  lemma {:induction false} WeightOfOnes<K>(w: map<K, nat>, s: set<K>)
    requires s <= w.Keys
    requires forall x | x in s :: w[x] == 1
    ensures Weight(w, s) == |s|
    decreases |s|
  {
    if s != {} {
      var x :| x in s;
      WeightOfOnes(w, s - {x});
      WeightRemove(w, s, x);
      assert |s| == |s - {x}| + 1;
    }
  }
}
