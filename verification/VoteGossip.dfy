/** The bounded dictionaries of the gossip transport, as it updates them. */
module VoteGossip {
  import opened Finality
  import opened Gossip
  import opened Prelude
  import opened RecencyCache

  const MAX_SEEN_VOTES := 4096
  const MAX_FINALIZATIONS := 256

  /** The digest under which a packet is remembered as seen. */
  datatype FrameDigest = FrameDigest(packet: Packet)

  type RoundKey = (int, int, string)

  function RoundOf(packet: Packet): RoundKey {
    (packet.height, packet.round, packet.blockHash)
  }

  ghost predicate FiledUnder(key: RoundKey, packets: map<string, Packet>) {
    forall id | id in packets :: packets[id].validatorId == id && RoundOf(packets[id]) == key
  }

  /** Every cached packet lies under its own round and its own validator. */
  ghost predicate Filed(votePackets: map<RoundKey, map<string, Packet>>) {
    forall k | k in votePackets :: FiledUnder(k, votePackets[k])
  }

  class ReliableAuthenticatedVoteGossip {
    /** Keys oldest first, as an ordered dictionary keeps them. */
    var seenVotes: seq<FrameDigest>
    var packetRounds: seq<RoundKey>
    var votePackets: map<RoundKey, map<string, Packet>>
    var announced: seq<CertificateHash>
    var finalizations: map<CertificateHash, Announcement>

    ghost predicate Valid()
      reads this
    {
      && Distinct(packetRounds) && (forall k :: k in packetRounds <==> k in votePackets)
      && Distinct(announced) && (forall h :: h in announced <==> h in finalizations)
      && Filed(votePackets)
    }

    constructor ()
      ensures Valid() && seenVotes == [] && packetRounds == [] && announced == []
    {
      seenVotes, packetRounds, votePackets, announced, finalizations := [], [], map[], [], map[];
    }

    method MarkSeen(packet: Packet) returns (isNew: bool)
      modifies this`seenVotes
      ensures isNew <==> FrameDigest(packet) !in old(seenVotes)
      ensures seenVotes == Touch(old(seenVotes), FrameDigest(packet), MAX_SEEN_VOTES)
    {
      var digest := FrameDigest(packet);
      if digest in seenVotes {
        seenVotes := Without(seenVotes, digest) + [digest];
        return false;
      }
      seenVotes := seenVotes + [digest];
      ghost var appended := seenVotes;
      while |seenVotes| > MAX_SEEN_VOTES
        invariant Newest(seenVotes, MAX_SEEN_VOTES) == Newest(appended, MAX_SEEN_VOTES)
        decreases |seenVotes|
      {
        NewestStep(seenVotes, MAX_SEEN_VOTES);
        seenVotes := seenVotes[1..];
      }
      return true;
    }

    method CachePacket(packet: Packet)
      requires Valid()
      modifies this`packetRounds, this`votePackets
      ensures Valid()
      ensures var key := RoundOf(packet);
              && packetRounds == Newest(Without(old(packetRounds), key) + [key], MAX_FINALIZATIONS)
              && key in votePackets
              && votePackets[key] ==
                 (if key in old(votePackets) then old(votePackets)[key] else map[])[packet.validatorId := packet]
              && forall k | k in votePackets && k != key ::
                 k in old(votePackets) && votePackets[k] == old(votePackets)[k]
    {
      var key := RoundOf(packet);
      var packets := if key in votePackets then votePackets[key] else map[];
      assert FiledUnder(key, packets[packet.validatorId := packet]);
      MovedToEnd(packetRounds, key);
      packetRounds, votePackets := Evict(Without(packetRounds, key) + [key],
                                         votePackets[key := packets[packet.validatorId := packet]], MAX_FINALIZATIONS);
    }

    method RememberFinalization(hash: CertificateHash, value: Announcement)
      requires Valid()
      modifies this`announced, this`finalizations
      ensures Valid()
      ensures announced == Newest(Without(old(announced), hash) + [hash], MAX_FINALIZATIONS)
      ensures hash in finalizations && finalizations[hash] == value
      ensures forall h | h in finalizations && h != hash ::
              h in old(finalizations) && finalizations[h] == old(finalizations)[h]
    {
      MovedToEnd(announced, hash);
      announced, finalizations := Evict(Without(announced, hash) + [hash], finalizations[hash := value],
                                        MAX_FINALIZATIONS);
    }
  }

  lemma MovedToEnd<K(!new)>(keys: seq<K>, key: K)
    requires Distinct(keys)
    ensures Distinct(Without(keys, key) + [key])
  {
    WithoutDistinct(keys, key);
    DistinctAppend(Without(keys, key), key);
  }

  lemma NewestStep<K(!new)>(keys: seq<K>, cap: nat)
    requires |keys| > cap
    ensures Newest(keys, cap) == Newest(keys[1..], cap)
  {
  }

  /** Drops the oldest entries until at most `cap` are left. */
  method Evict<K(==, !new), V>(keys: seq<K>, values: map<K, V>, cap: nat) returns (kept: seq<K>, left: map<K, V>)
    requires Distinct(keys) && forall k :: k in keys <==> k in values
    ensures kept == Newest(keys, cap) && Distinct(kept)
    ensures forall k :: k in left <==> k in kept
    ensures forall k | k in left :: k in values && left[k] == values[k]
    ensures 0 < cap && keys != [] ==> keys[|keys| - 1] in kept
  {
    kept, left := keys, values;
    while |kept| > cap
      invariant Newest(kept, cap) == Newest(keys, cap)
      invariant Distinct(kept) && forall k :: k in left <==> k in kept
      invariant forall k | k in left :: k in values && left[k] == values[k]
      decreases |kept|
    {
      NewestStep(kept, cap);
      assert kept == [kept[0]] + kept[1..] && kept[0] !in kept[1..];
      left := left - {kept[0]};
      kept := kept[1..];
    }
    assert 0 < cap && keys != [] ==> kept[|kept| - 1] == keys[|keys| - 1];
  }

  /** The seen-vote cache after any history of packets: exactly the 4096 most recent
      distinct frames, and a frame counts as new exactly when 4096 others came since. */
  lemma SeenVotesAreExact(history: seq<FrameDigest>, digest: FrameDigest)
    ensures Touches(history, MAX_SEEN_VOTES) == Newest(Recency(history), MAX_SEEN_VOTES)
    ensures digest !in Touches(history, MAX_SEEN_VOTES) <==>
            (digest !in history ||
             exists i: nat :: IsLastTouch(history, digest, i) && |Elements(history[i + 1..])| >= MAX_SEEN_VOTES)
  {
    CacheIsExact(history, MAX_SEEN_VOTES);
    ReportedNewIff(history, digest, MAX_SEEN_VOTES);
  }
}
