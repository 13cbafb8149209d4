/** Block-candidate selection: the greedy choice of executable transactions, and how good
    it is. */
module Candidate {
  import opened Mempool
  import opened Ordering
  import opened Prelude
  import opened Protocol

  type Txs = map<Key, Tx>

  /** The nonces to run next, by sender; a sender not listed starts at 0. */
  type Nonces = map<string, int>

  function NextOf(next: Nonces, sender: string): int {
    if sender in next then next[sender] else 0
  }

  function StartNonces(accounts: Accounts): Nonces {
    map address | address in accounts :: accounts[address].nonce
  }

  /** What the validator earns per unit of gas. */
  function Reward(tx: Tx, baseFee: int): int {
    if tx.maxPriorityFee < tx.maxFee - baseFee then tx.maxPriorityFee else tx.maxFee - baseFee
  }

  predicate Payable(tx: Tx, baseFee: int) {
    tx.maxFee >= baseFee
  }

  /** The executable heads: each sender's next transaction, if it is pending and pays. */
  function Heads(txs: Txs, next: Nonces, baseFee: int): set<Key> {
    set k | k in txs && k.1 == NextOf(next, k.0) && Payable(txs[k], baseFee)
  }

  /** Higher reward first, then lower hash. */
  predicate Preferred(c: Config, txs: Txs, baseFee: int, a: Key, b: Key)
    requires a in txs && b in txs
  {
    || Reward(txs[a], baseFee) > Reward(txs[b], baseFee)
    || (Reward(txs[a], baseFee) == Reward(txs[b], baseFee) && LexLess(c.hashOf(txs[a]), c.hashOf(txs[b])))
  }

  ghost predicate IsBest(c: Config, txs: Txs, baseFee: int, keys: set<Key>, best: Key)
    requires keys <= txs.Keys
  {
    best in keys && forall k | k in keys && k != best :: Preferred(c, txs, baseFee, best, k)
  }

  lemma PreferredIsStrict(c: Config, txs: Txs, baseFee: int, a: Key, b: Key)
    requires a in txs && b in txs && Preferred(c, txs, baseFee, a, b)
    ensures !Preferred(c, txs, baseFee, b, a)
  {
    if LexLess(c.hashOf(txs[a]), c.hashOf(txs[b])) && LexLess(c.hashOf(txs[b]), c.hashOf(txs[a])) {
      LexTransitive(c.hashOf(txs[a]), c.hashOf(txs[b]), c.hashOf(txs[a]));
      LexTrichotomy(c.hashOf(txs[a]), c.hashOf(txs[a]));
    }
  }

  lemma BestIsUnique(c: Config, txs: Txs, baseFee: int, keys: set<Key>, a: Key, b: Key)
    requires keys <= txs.Keys && IsBest(c, txs, baseFee, keys, a) && IsBest(c, txs, baseFee, keys, b)
    ensures a == b
  {
    if a != b { PreferredIsStrict(c, txs, baseFee, a, b); }
  }

  lemma PreferredTransitive(c: Config, txs: Txs, baseFee: int, a: Key, b: Key, d: Key)
    requires a in txs && b in txs && d in txs
    requires Preferred(c, txs, baseFee, a, b) && Preferred(c, txs, baseFee, b, d)
    ensures Preferred(c, txs, baseFee, a, d)
  {
    if Reward(txs[a], baseFee) == Reward(txs[d], baseFee) {
      LexTransitive(c.hashOf(txs[a]), c.hashOf(txs[b]), c.hashOf(txs[d]));
    }
  }

  lemma PreferredTotal(c: Config, txs: Txs, baseFee: int, a: Key, b: Key)
    requires a in txs && b in txs && a != b && DistinctHashes(c, txs)
    ensures Preferred(c, txs, baseFee, a, b) || Preferred(c, txs, baseFee, b, a)
  {
    LexTrichotomy(c.hashOf(txs[a]), c.hashOf(txs[b]));
  }

  lemma {:induction false} BestExists(c: Config, txs: Txs, baseFee: int, keys: set<Key>) returns (best: Key)
    requires keys != {} && keys <= txs.Keys && DistinctHashes(c, txs)
    ensures IsBest(c, txs, baseFee, keys, best)
    decreases |keys|
  {
    var k :| k in keys;
    if keys == {k} {
      best := k;
    } else {
      var other := BestExists(c, txs, baseFee, keys - {k});
      PreferredTotal(c, txs, baseFee, k, other);
      best := if Preferred(c, txs, baseFee, k, other) then k else other;
      forall x | x in keys && x != best
        ensures Preferred(c, txs, baseFee, best, x)
      {
        if x != k && best == k && x != other { PreferredTransitive(c, txs, baseFee, k, other, x); }
      }
    }
  }

  lemma SomeBest(c: Config, txs: Txs, baseFee: int, keys: set<Key>)
    requires keys != {} && keys <= txs.Keys && DistinctHashes(c, txs)
    ensures exists best :: IsBest(c, txs, baseFee, keys, best)
  {
    var best := BestExists(c, txs, baseFee, keys);
  }

  ghost function Best(c: Config, txs: Txs, baseFee: int, keys: set<Key>): (best: Key)
    requires keys != {} && keys <= txs.Keys && DistinctHashes(c, txs)
    ensures IsBest(c, txs, baseFee, keys, best)
  {
    SomeBest(c, txs, baseFee, keys);
    var best :| IsBest(c, txs, baseFee, keys, best);
    best
  }

  function Advance(next: Nonces, key: Key): Nonces {
    next[key.0 := key.1 + 1]
  }

  /** The first `count` choices: always the best executable head. */
  ghost function Picks(c: Config, txs: Txs, next: Nonces, baseFee: int, count: nat): seq<Key>
    requires DistinctHashes(c, txs)
    decreases count
  {
    var heads := Heads(txs, next, baseFee);
    if count == 0 || heads == {} then []
    else
      var best := Best(c, txs, baseFee, heads);
      [best] + Picks(c, txs, Advance(next, best), baseFee, count - 1)
  }

  lemma NextPick(c: Config, txs: Txs, next: Nonces, baseFee: int, count: nat, best: Key)
    requires DistinctHashes(c, txs) && 0 < count
    requires Heads(txs, next, baseFee) != {} && best == Best(c, txs, baseFee, Heads(txs, next, baseFee))
    ensures Picks(c, txs, next, baseFee, count) == [best] + Picks(c, txs, Advance(next, best), baseFee, count - 1)
    ensures best in txs && Payable(txs[best], baseFee) && best.1 == NextOf(next, best.0)
  {
  }

  // ------------------------------------------------------------ what is picked

  /** Fewer picks are the beginning of more picks. */
  lemma {:induction false} PicksArePrefix(c: Config, txs: Txs, next: Nonces, baseFee: int, few: nat, many: nat)
    requires DistinctHashes(c, txs) && few <= many
    ensures Picks(c, txs, next, baseFee, few) <= Picks(c, txs, next, baseFee, many)
    decreases few
  {
    var heads := Heads(txs, next, baseFee);
    if few > 0 && heads != {} {
      PicksArePrefix(c, txs, Advance(next, Best(c, txs, baseFee, heads)), baseFee, few - 1, many - 1);
    }
  }

  /** How many of the keys belong to a sender. */
  function CountOf(keys: seq<Key>, sender: string): nat {
    if keys == [] then 0 else (if keys[0].0 == sender then 1 else 0) + CountOf(keys[1..], sender)
  }

  ghost predicate InNonceOrder(txs: Txs, next: Nonces, baseFee: int, picks: seq<Key>) {
    forall i | 0 <= i < |picks| ::
      && picks[i] in txs && Payable(txs[picks[i]], baseFee)
      && picks[i].1 == NextOf(next, picks[i].0) + CountOf(picks[..i], picks[i].0)
  }

  lemma InNonceOrderStep(txs: Txs, next: Nonces, baseFee: int, best: Key, rest: seq<Key>)
    requires best in txs && Payable(txs[best], baseFee) && best.1 == NextOf(next, best.0)
    requires InNonceOrder(txs, Advance(next, best), baseFee, rest)
    ensures InNonceOrder(txs, next, baseFee, [best] + rest)
  {
    var picks := [best] + rest;
    forall i | 0 <= i < |picks|
      ensures picks[i] in txs && Payable(txs[picks[i]], baseFee)
      ensures picks[i].1 == NextOf(next, picks[i].0) + CountOf(picks[..i], picks[i].0)
    {
      if i > 0 {
        assert picks[i] == rest[i - 1];
        assert picks[..i][1..] == rest[..i - 1] && picks[..i][0] == best;
      }
    }
  }

  /** Each sender's picks take its nonces one after another from the next one; all are pending
      and pay; and picking stops short only when no head is left. */
  lemma {:induction false} PicksInNonceOrder(c: Config, txs: Txs, next: Nonces, baseFee: int, count: nat)
    requires DistinctHashes(c, txs)
    ensures var picks := Picks(c, txs, next, baseFee, count);
            && |picks| <= count
            && InNonceOrder(txs, next, baseFee, picks)
            && (|picks| < count ==> Heads(txs, After(next, picks), baseFee) == {})
    decreases count
  {
    var heads := Heads(txs, next, baseFee);
    if count > 0 && heads != {} {
      var best := Best(c, txs, baseFee, heads);
      var rest := Picks(c, txs, Advance(next, best), baseFee, count - 1);
      NextPick(c, txs, next, baseFee, count, best);
      PicksInNonceOrder(c, txs, Advance(next, best), baseFee, count - 1);
      InNonceOrderStep(txs, next, baseFee, best, rest);
      assert ([best] + rest)[1..] == rest;
    }
  }

  /** The next nonces once these transactions have run. */
  ghost function After(next: Nonces, picks: seq<Key>): Nonces
    decreases |picks|
  {
    if picks == [] then next else After(Advance(next, picks[0]), picks[1..])
  }

  // -------------------------------------------------------------- optimality

  ghost function Total(txs: Txs, baseFee: int, keys: set<Key>): int
    requires keys <= txs.Keys
  {
    if keys == {} then 0
    else
      var k :| k in keys;
      Reward(txs[k], baseFee) + Total(txs, baseFee, keys - {k})
  }

  lemma {:induction false} TotalRemove(txs: Txs, baseFee: int, keys: set<Key>, x: Key)
    requires keys <= txs.Keys && x in keys
    ensures Total(txs, baseFee, keys) == Reward(txs[x], baseFee) + Total(txs, baseFee, keys - {x})
    decreases |keys|
  {
    var y :| y in keys && Total(txs, baseFee, keys) == Reward(txs[y], baseFee) + Total(txs, baseFee, keys - {y});
    if y != x {
      TotalRemove(txs, baseFee, keys - {y}, x);
      TotalRemove(txs, baseFee, keys - {x}, y);
      assert keys - {y} - {x} == keys - {x} - {y};
    }
  }

  ghost function TotalOf(txs: Txs, baseFee: int, picks: seq<Key>): int
    requires forall i | 0 <= i < |picks| :: picks[i] in txs
  {
    if picks == [] then 0 else Reward(txs[picks[0]], baseFee) + TotalOf(txs, baseFee, picks[1..])
  }

  /** A selection of paying transactions that leaves no nonce out. */
  ghost predicate NonceRespecting(txs: Txs, next: Nonces, baseFee: int, keys: set<Key>) {
    && keys <= txs.Keys
    && (forall k | k in keys :: Payable(txs[k], baseFee) && k.1 >= NextOf(next, k.0))
    && (forall k, n | k in keys && NextOf(next, k.0) <= n < k.1 :: (k.0, n) in keys)
  }

  /** Within each sender the reward never rises with the nonce. */
  ghost predicate RewardsFall(txs: Txs, baseFee: int) {
    forall k, k' | k in txs && k' in txs && k'.0 == k.0 && k'.1 == k.1 + 1 && Payable(txs[k], baseFee) &&
      Payable(txs[k'], baseFee) ::
      Reward(txs[k'], baseFee) <= Reward(txs[k], baseFee)
  }

  /** A chosen transaction earns no more than the head of its sender, which is chosen too. */
  lemma {:induction false} HeadEarnsMost(txs: Txs, next: Nonces, baseFee: int, keys: set<Key>, k: Key)
    requires NonceRespecting(txs, next, baseFee, keys) && RewardsFall(txs, baseFee) && k in keys
    ensures var head := (k.0, NextOf(next, k.0));
            && head in keys && head in Heads(txs, next, baseFee)
            && Reward(txs[k], baseFee) <= Reward(txs[head], baseFee)
    decreases k.1 - NextOf(next, k.0)
  {
    if k.1 > NextOf(next, k.0) {
      var previous := (k.0, k.1 - 1);
      assert previous in keys;
      HeadEarnsMost(txs, next, baseFee, keys, previous);
    }
  }

  /** Some chosen transaction is the last of its sender. */
  lemma LastOfSender(keys: set<Key>, k: Key) returns (last: Key)
    requires k in keys
    ensures last in keys && last.0 == k.0 && forall n | n > last.1 :: (last.0, n) !in keys
    decreases keys
  {
    last := k;
    if n :| n > k.1 && (k.0, n) in keys {
      last := LastOfSender(keys - {k}, (k.0, n));
      forall m | m > last.1
        ensures (last.0, m) !in keys
      {
        assert (last.0, m) !in keys - {k};
      }
    }
  }

  lemma WithoutBest(txs: Txs, next: Nonces, baseFee: int, keys: set<Key>, best: Key)
    requires NonceRespecting(txs, next, baseFee, keys) && best in keys && best.1 == NextOf(next, best.0)
    ensures NonceRespecting(txs, Advance(next, best), baseFee, keys - {best})
  {
  }

  lemma NoneOfSender(txs: Txs, next: Nonces, baseFee: int, keys: set<Key>, best: Key, k: Key)
    requires NonceRespecting(txs, next, baseFee, keys) && best !in keys && best.1 == NextOf(next, best.0)
    requires k in keys
    ensures k.0 != best.0
  {
    assert k.0 == best.0 ==> (k.0, best.1) == best;
    assert k == (k.0, k.1);
  }

  lemma WithoutLast(txs: Txs, next: Nonces, baseFee: int, keys: set<Key>, best: Key, last: Key)
    requires NonceRespecting(txs, next, baseFee, keys) && best !in keys && best.1 == NextOf(next, best.0)
    requires last in keys && forall n | n > last.1 :: (last.0, n) !in keys
    ensures NonceRespecting(txs, Advance(next, best), baseFee, keys - {last})
  {
    forall k | k in keys
      ensures k.0 != best.0
    {
      NoneOfSender(txs, next, baseFee, keys, best, k);
    }
    forall k, n | k in keys - {last} && NextOf(Advance(next, best), k.0) <= n < k.1
      ensures (k.0, n) in keys - {last}
    {
      assert k == (k.0, k.1);
      assert (k.0, n) in keys;
    }
  }

  /** The best head earns at least what some chosen transaction earns that can be dropped so
      that the rest still respects the nonces once the best head has run. */
  lemma SomethingToDrop(c: Config, txs: Txs, next: Nonces, baseFee: int, keys: set<Key>)
    returns (best: Key, dropped: Key)
    requires DistinctHashes(c, txs) && RewardsFall(txs, baseFee)
    requires NonceRespecting(txs, next, baseFee, keys) && keys != {}
    ensures Heads(txs, next, baseFee) != {} && best == Best(c, txs, baseFee, Heads(txs, next, baseFee))
    ensures dropped in keys && NonceRespecting(txs, Advance(next, best), baseFee, keys - {dropped})
    ensures Reward(txs[dropped], baseFee) <= Reward(txs[best], baseFee)
  {
    var some :| some in keys;
    HeadEarnsMost(txs, next, baseFee, keys, some);
    best := Best(c, txs, baseFee, Heads(txs, next, baseFee));
    if best in keys {
      dropped := best;
      WithoutBest(txs, next, baseFee, keys, best);
    } else {
      dropped := LastOfSender(keys, some);
      HeadEarnsMost(txs, next, baseFee, keys, dropped);
      WithoutLast(txs, next, baseFee, keys, best, dropped);
    }
  }

  /** As many picks as keys, all pending, worth at least as much. */
  ghost predicate AtLeast(txs: Txs, baseFee: int, picks: seq<Key>, keys: set<Key>) {
    && keys <= txs.Keys
    && |picks| == |keys|
    && (forall i | 0 <= i < |picks| :: picks[i] in txs)
    && TotalOf(txs, baseFee, picks) >= Total(txs, baseFee, keys)
  }

  lemma AtLeastStep(txs: Txs, baseFee: int, rest: seq<Key>, keys: set<Key>, best: Key, dropped: Key)
    requires keys <= txs.Keys && dropped in keys && best in txs
    requires AtLeast(txs, baseFee, rest, keys - {dropped})
    requires Reward(txs[dropped], baseFee) <= Reward(txs[best], baseFee)
    ensures AtLeast(txs, baseFee, [best] + rest, keys)
  {
    TotalRemove(txs, baseFee, keys, dropped);
    assert ([best] + rest)[1..] == rest;
  }

  lemma OneFewer(keys: set<Key>, dropped: Key)
    requires dropped in keys
    ensures |keys - {dropped}| == |keys| - 1
  {
  }

  /** Greedy optimality: if rewards never rise with the nonce, the first k picks earn at least
      as much as any nonce-respecting selection of k paying transactions, and there are k picks
      whenever there is such a selection. */
  lemma {:induction false} GreedyIsOptimal(c: Config, txs: Txs, next: Nonces, baseFee: int, keys: set<Key>)
    requires DistinctHashes(c, txs) && RewardsFall(txs, baseFee)
    requires NonceRespecting(txs, next, baseFee, keys)
    ensures AtLeast(txs, baseFee, Picks(c, txs, next, baseFee, |keys|), keys)
    decreases |keys|
  {
    if keys != {} {
      var best, dropped := SomethingToDrop(c, txs, next, baseFee, keys);
      OneFewer(keys, dropped);
      GreedyIsOptimal(c, txs, Advance(next, best), baseFee, keys - {dropped});
      NextPick(c, txs, next, baseFee, |keys|, best);
      AtLeastStep(txs, baseFee, Picks(c, txs, Advance(next, best), baseFee, |keys| - 1), keys, best, dropped);
    }
  }

  /** A sender's reward rises from one nonce to the next, and another sender's last pending
      transaction is preferred to the first of the two but earns less than the second. */
  ghost predicate HiddenRiches(c: Config, txs: Txs, baseFee: int, poor: Key, rich: Key, other: Key) {
    && poor in txs && rich in txs && other in txs && (other.0, other.1 + 1) !in txs
    && poor.0 != other.0 && rich == (poor.0, poor.1 + 1)
    && Payable(txs[poor], baseFee) && Payable(txs[rich], baseFee) && Payable(txs[other], baseFee)
    && Preferred(c, txs, baseFee, other, poor) && Reward(txs[other], baseFee) < Reward(txs[rich], baseFee)
  }

  lemma {:induction false} NonceBound(keys: set<Key>) returns (n: int)
    ensures forall k | k in keys :: k.1 < n
    decreases |keys|
  {
    if keys == {} {
      n := 0;
    } else {
      var k :| k in keys;
      var m := NonceBound(keys - {k});
      n := if k.1 < m then m else k.1 + 1;
    }
  }

  /** Next nonces at which these two are the only heads. */
  ghost predicate OnlyHeads(txs: Txs, next: Nonces, a: Key, b: Key) {
    && NextOf(next, a.0) == a.1 && NextOf(next, b.0) == b.1
    && forall k | k in txs && k.0 != a.0 && k.0 != b.0 :: k.1 < NextOf(next, k.0)
  }

  lemma SomeNonces(txs: Txs, a: Key, b: Key) returns (next: Nonces)
    requires a.0 != b.0
    ensures OnlyHeads(txs, next, a, b)
  {
    var n := NonceBound(txs.Keys);
    var senders := set k | k in txs :: k.0;
    next := (map s | s in senders :: n)[a.0 := a.1][b.0 := b.1];
  }

  lemma HeadsAreTwo(txs: Txs, next: Nonces, baseFee: int, a: Key, b: Key)
    requires OnlyHeads(txs, next, a, b) && a.0 != b.0
    requires a in txs && b in txs && Payable(txs[a], baseFee) && Payable(txs[b], baseFee)
    ensures Heads(txs, next, baseFee) == {a, b}
    ensures (b.0, b.1 + 1) !in txs ==> Heads(txs, Advance(next, b), baseFee) == {a}
  {
    forall k | k in Heads(txs, next, baseFee)
      ensures k == a || k == b
    {
      assert k == (k.0, k.1);
    }
    forall k | k in Heads(txs, Advance(next, b), baseFee) && (b.0, b.1 + 1) !in txs
      ensures k == a
    {
      assert k == (k.0, k.1);
    }
  }

  lemma GreedTakesTheOther(c: Config, txs: Txs, next: Nonces, baseFee: int, poor: Key, rich: Key, other: Key)
    requires DistinctHashes(c, txs) && HiddenRiches(c, txs, baseFee, poor, rich, other) &&
             OnlyHeads(txs, next, poor, other)
    ensures Picks(c, txs, next, baseFee, 2) == [other, poor]
  {
    HeadsAreTwo(txs, next, baseFee, poor, other);
    assert IsBest(c, txs, baseFee, {poor, other}, other);
    BestIsUnique(c, txs, baseFee, {poor, other}, other, Best(c, txs, baseFee, {poor, other}));
    NextPick(c, txs, next, baseFee, 2, other);
    NextPick(c, txs, Advance(next, other), baseFee, 1, poor);
  }

  /** In any pool with hidden riches there are account nonces at which the first two picks earn
      less than another selection of two. */
  lemma GreedyCanLose(c: Config, txs: Txs, baseFee: int, poor: Key, rich: Key, other: Key) returns (next: Nonces)
    requires DistinctHashes(c, txs) && HiddenRiches(c, txs, baseFee, poor, rich, other)
    ensures NonceRespecting(txs, next, baseFee, {poor, rich})
    ensures var picks := Picks(c, txs, next, baseFee, 2);
            && |picks| == 2 && picks[0] in txs && picks[1] in txs
            && TotalOf(txs, baseFee, picks) < Total(txs, baseFee, {poor, rich})
  {
    next := SomeNonces(txs, poor, other);
    GreedTakesTheOther(c, txs, next, baseFee, poor, rich, other);
    TotalOfTwo(txs, baseFee, poor, rich);
    TotalOfPair(txs, baseFee, other, poor);
  }

  lemma TotalOfPair(txs: Txs, baseFee: int, a: Key, b: Key)
    requires a in txs && b in txs
    ensures TotalOf(txs, baseFee, [a, b]) == Reward(txs[a], baseFee) + Reward(txs[b], baseFee)
  {
    assert [a, b][1..] == [b] && [b][1..] == [];
    assert TotalOf(txs, baseFee, [b]) == Reward(txs[b], baseFee) + TotalOf(txs, baseFee, []);
  }

  lemma TotalOfTwo(txs: Txs, baseFee: int, a: Key, b: Key)
    requires a in txs && b in txs && a != b
    ensures Total(txs, baseFee, {a, b}) == Reward(txs[a], baseFee) + Reward(txs[b], baseFee)
  {
    TotalRemove(txs, baseFee, {a, b}, a);
    TotalRemove(txs, baseFee, {b}, b);
    assert {a, b} - {a} == {b} && {b} - {b} == {};
  }

  // ------------------------------------------------------- exactly when greed wins

  /** Greed wins on a pool: at all account nonces the picks earn at least what any
      nonce-respecting selection of as many paying transactions earns. */
  ghost predicate GreedWins(c: Config, txs: Txs, baseFee: int)
    requires DistinctHashes(c, txs)
  {
    forall next: Nonces, keys | NonceRespecting(txs, next, baseFee, keys) ::
      AtLeast(txs, baseFee, Picks(c, txs, next, baseFee, |keys|), keys)
  }

  /** One transaction of a sender that has none pending, with a hash of its own. */
  ghost predicate Newcomer(c: Config, txs: Txs, tx: Tx) {
    && (forall k | k in txs :: k.0 != tx.sender)
    && c.hashOf(tx) !in HashesOf(c, txs)
  }

  function With(txs: Txs, tx: Tx): Txs {
    txs[KeyOf(tx) := tx]
  }

  /** Greed wins whatever one newcomer is added. */
  ghost predicate GreedWinsAgainstNewcomers(c: Config, txs: Txs, baseFee: int)
    requires DistinctHashes(c, txs)
  {
    forall tx | Newcomer(c, txs, tx) :: DistinctHashes(c, With(txs, tx)) && GreedWins(c, With(txs, tx), baseFee)
  }

  /** Some newcomer pays what a pending transaction pays and has a lower hash. */
  ghost predicate Rivalled(c: Config, txs: Txs, baseFee: int, k: Key)
    requires k in txs
  {
    exists tx :: Newcomer(c, txs, tx) && Payable(tx, baseFee) && Reward(tx, baseFee) == Reward(txs[k], baseFee)
              && LexLess(c.hashOf(tx), c.hashOf(txs[k]))
  }

  lemma FallingRewardsWin(c: Config, txs: Txs, baseFee: int)
    requires DistinctHashes(c, txs) && RewardsFall(txs, baseFee)
    ensures GreedWins(c, txs, baseFee)
  {
    forall next: Nonces, keys | NonceRespecting(txs, next, baseFee, keys)
      ensures AtLeast(txs, baseFee, Picks(c, txs, next, baseFee, |keys|), keys)
    {
      GreedyIsOptimal(c, txs, next, baseFee, keys);
    }
  }

  lemma NewcomerKeepsFalling(c: Config, txs: Txs, baseFee: int, tx: Tx)
    requires Newcomer(c, txs, tx) && RewardsFall(txs, baseFee)
    ensures RewardsFall(With(txs, tx), baseFee)
  {
  }

  lemma NewcomerKeepsHashes(c: Config, txs: Txs, tx: Tx)
    requires Newcomer(c, txs, tx) && DistinctHashes(c, txs)
    ensures KeyOf(tx) !in txs && DistinctHashes(c, With(txs, tx))
  {
    HashesAfterAdd(c, txs, KeyOf(tx), tx);
  }

  lemma RivalWins(c: Config, txs: Txs, baseFee: int, poor: Key, rich: Key, tx: Tx)
    requires DistinctHashes(c, txs) && Newcomer(c, txs, tx) && DistinctHashes(c, With(txs, tx))
    requires poor in txs && rich in txs && rich == (poor.0, poor.1 + 1)
    requires Payable(txs[poor], baseFee) && Payable(txs[rich], baseFee) &&
             Reward(txs[rich], baseFee) > Reward(txs[poor], baseFee)
    requires Payable(tx, baseFee) && Reward(tx, baseFee) == Reward(txs[poor], baseFee) &&
             LexLess(c.hashOf(tx), c.hashOf(txs[poor]))
    ensures !GreedWins(c, With(txs, tx), baseFee)
  {
    var all := With(txs, tx);
    assert all[poor] == txs[poor] && all[rich] == txs[rich] && all[KeyOf(tx)] == tx;
    var next := GreedyCanLose(c, all, baseFee, poor, rich, KeyOf(tx));
    assert |{poor, rich}| == 2;
    assert !AtLeast(all, baseFee, Picks(c, all, next, baseFee, |{poor, rich}|), {poor, rich});
  }

  /** Greed wins against every newcomer, at all account nonces, exactly when no sender's reward
      rises with the nonce; rivals are assumed to exist for the converse. */
  lemma GreedWinsIff(c: Config, txs: Txs, baseFee: int)
    requires DistinctHashes(c, txs)
    requires forall k | k in txs && Payable(txs[k], baseFee) :: Rivalled(c, txs, baseFee, k)
    ensures GreedWinsAgainstNewcomers(c, txs, baseFee) <==> RewardsFall(txs, baseFee)
  {
    if RewardsFall(txs, baseFee) {
      forall tx | Newcomer(c, txs, tx)
        ensures DistinctHashes(c, With(txs, tx)) && GreedWins(c, With(txs, tx), baseFee)
      {
        NewcomerKeepsFalling(c, txs, baseFee, tx);
        NewcomerKeepsHashes(c, txs, tx);
        FallingRewardsWin(c, With(txs, tx), baseFee);
      }
    } else {
      var poor, rich :| poor in txs && rich in txs && rich.0 == poor.0 && rich.1 == poor.1 + 1
                     && Payable(txs[poor], baseFee) && Payable(txs[rich], baseFee)
                     && Reward(txs[rich], baseFee) > Reward(txs[poor], baseFee);
      assert Rivalled(c, txs, baseFee, poor) && rich == (rich.0, rich.1);
      var tx :| Newcomer(c, txs, tx) && Payable(tx, baseFee) && Reward(tx, baseFee) == Reward(txs[poor], baseFee)
             && LexLess(c.hashOf(tx), c.hashOf(txs[poor]));
      NewcomerKeepsHashes(c, txs, tx);
      RivalWins(c, txs, baseFee, poor, rich, tx);
    }
  }

  // --------------------------------------------------------------- gas budget

  /** How many intrinsic charges fit in a gas limit. */
  function Affordable(c: Config, limit: int): nat
    requires c.Valid() && 0 < limit
  {
    limit / c.intrinsicGas
  }

  lemma AffordableIff(c: Config, limit: int, count: nat)
    requires c.Valid() && 0 < limit
    ensures count * c.intrinsicGas + c.intrinsicGas <= limit <==> count < Affordable(c, limit)
    ensures count <= Affordable(c, limit) ==> count * c.intrinsicGas <= limit
  {
    var (q, g) := (limit / c.intrinsicGas, c.intrinsicGas);
    assert limit == q * g + limit % g;
    if count < q { TimesOrdered(count + 1, q, g); } else { TimesOrdered(q, count, g); }
    if count <= q { TimesOrdered(count, q, g); }
    assert (count + 1) * g == count * g + g;
  }

  /** The candidate for a gas limit. */
  ghost function Selection(c: Config, txs: Txs, accounts: Accounts, baseFee: int, limit: int): seq<Key>
    requires c.Valid() && 0 < limit && DistinctHashes(c, txs)
  {
    Picks(c, txs, StartNonces(accounts), baseFee, Affordable(c, limit))
  }

  /** The candidate spends its transactions' intrinsic gas within the limit, stops only when
      gas or executable heads run out, and begins like the candidate for any larger limit. */
  lemma SelectionFillsTheBlock(c: Config, txs: Txs, accounts: Accounts, baseFee: int, limit: int, larger: int)
    requires c.Valid() && 0 < limit <= larger && DistinctHashes(c, txs)
    ensures var picks := Selection(c, txs, accounts, baseFee, limit);
            && |picks| * c.intrinsicGas <= limit
            && (|picks| * c.intrinsicGas + c.intrinsicGas > limit
                || Heads(txs, After(StartNonces(accounts), picks), baseFee) == {})
            && picks <= Selection(c, txs, accounts, baseFee, larger)
  {
    var picks := Selection(c, txs, accounts, baseFee, limit);
    PicksInNonceOrder(c, txs, StartNonces(accounts), baseFee, Affordable(c, limit));
    AffordableIff(c, limit, |picks|);
    AffordableIff(c, larger, Affordable(c, limit));
    AffordableIff(c, limit, Affordable(c, limit));
    if Affordable(c, limit) > Affordable(c, larger) {
      AffordableIff(c, larger, Affordable(c, limit) - 1);
      AffordableIff(c, limit, Affordable(c, limit) - 1);
    }
    PicksArePrefix(c, txs, StartNonces(accounts), baseFee, Affordable(c, limit), Affordable(c, larger));
  }
}
