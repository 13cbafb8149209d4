/** Which announced vote sets a node accepts, with every condition written out, and that their votes
    then rebuild the certificate in any order. */
module GossipReplies {
  import opened Finality
  import opened Gossip
  import opened Ordering
  import opened Prelude
  import opened Votes

  /** The announcement by itself: from this peer, with numbers, time and hashes in their form. */
  ghost predicate SoundHeader(source: string, a: Announcement) {
    && a.source == source && 1 <= a.chainId && 1 <= a.height && 0 <= a.round
    && (a.timestamp.None? || 1 <= a.timestamp.value)
    && IsHash(a.blockHash) && IsHash(a.parentHash) && IsHash(a.stateRoot)
  }

  /** What a packet that came over the wire looks like. */
  ghost predicate InForm(p: Packet) {
    && 1 <= p.chainId && 0 <= p.height && 0 <= p.round && |p.blockHash| == 66 && "0x" <= p.blockHash
    && 1 <= |p.validatorId| <= 128 && 1 <= |p.signature| && 1 <= |p.peerSignature|
    && (p.timestamp.None? || 1 <= p.timestamp.value)
  }

  lemma WellFormedIff(p: Packet)
    ensures p.WellFormed() <==> InForm(p)
  {
    assert "0x" <= p.blockHash <==> |p.blockHash| >= 2 && p.blockHash[..2] == "0x";
  }

  ghost predicate AllInForm(a: Announcement) {
    forall i | 0 <= i < |a.votes| :: InForm(a.votes[i])
  }

  /** A vote in form that repeats what is announced. */
  ghost predicate SoundVote(a: Announcement, p: Packet) {
    && InForm(p)
    && (p.chainId, p.height, p.round) == (a.chainId, a.height, a.round)
    && p.blockHash == a.blockHash && p.timestamp == a.timestamp
  }

  /** Three votes, one of each endpoint. */
  ghost predicate OneVoteEach(endpoints: set<string>, a: Announcement) {
    && |a.votes| == 3 == |endpoints|
    && (forall i | 0 <= i < |a.votes| :: SoundVote(a, a.votes[i]))
    && (forall id | id in endpoints :: HasVoteOf(a, id))
  }

  ghost predicate HasVoteOf(a: Announcement, id: string) {
    exists i :: 0 <= i < |a.votes| && a.votes[i].validatorId == id
  }

  /** What an announcement is refused for before its votes are looked at, the first reason that applies. */
  lemma HeaderErrorIff(source: string, a: Announcement)
    ensures var refusal := HeaderError(source, a);
            var numbers := 1 <= a.chainId && 1 <= a.height && 0 <= a.round;
            var timed := a.timestamp.None? || 1 <= a.timestamp.value;
            && (refusal.None? <==> SoundHeader(source, a) && |a.votes| == 3)
            && (refusal == Some(WrongSource) <==> a.source != source)
            && (refusal == Some(BadNumbers) <==> a.source == source && !numbers)
            && (refusal == Some(BadTimestamp) <==> a.source == source && numbers && !timed)
            && (refusal == Some(BadHash) <==> a.source == source && numbers && timed && !SoundHeader(source, a))
            && (refusal == Some(NotThreeVotes) <==> SoundHeader(source, a) && |a.votes| != 3)
  {
  }

  lemma NamesIff(endpoints: set<string>, a: Announcement)
    ensures endpoints <= Names(a.votes) <==> forall id | id in endpoints :: HasVoteOf(a, id)
  {
    if forall id | id in endpoints :: HasVoteOf(a, id) {
      forall id | id in endpoints
        ensures id in Names(a.votes)
      {
        assert HasVoteOf(a, id);
      }
    }
  }

  ghost predicate NamesAreEndpoints(endpoints: set<string>, a: Announcement) {
    |endpoints| == 3 && (forall id | id in endpoints :: HasVoteOf(a, id)) && a.validatorIds == SortNames(endpoints)
  }

  /** What the votes are refused for: one not in form, then other voters than the endpoints, then one that
      does not repeat the announcement. */
  lemma VotesErrorIff(endpoints: set<string>, a: Announcement)
    requires |a.votes| == 3
    ensures var refusal := VotesError(endpoints, a);
            var named := AllInForm(a) && NamesAreEndpoints(endpoints, a);
            && (refusal.None? <==> OneVoteEach(endpoints, a) && a.validatorIds == SortNames(endpoints))
            && (refusal == Some(BadPacket) <==> !AllInForm(a))
            && (refusal == Some(WrongValidators) <==> AllInForm(a) && !named)
            && (refusal == Some(VoteDiverges) <==>
                  named && exists i :: 0 <= i < |a.votes| && !SoundVote(a, a.votes[i]))
  {
    NamesIff(endpoints, a);
    forall i | 0 <= i < |a.votes|
      ensures a.votes[i].WellFormed() <==> InForm(a.votes[i])
      ensures InForm(a.votes[i]) ==> (SoundVote(a, a.votes[i]) <==> !Diverges(a, a.votes[i]))
    {
      WellFormedIff(a.votes[i]);
    }
  }

  /** The vote hashes are those of the votes, in the order of the announced names. */
  ghost predicate HashesFollow(a: Announcement) {
    && |a.voteHashes| == |a.validatorIds|
    && forall i | 0 <= i < |a.voteHashes| :: HashOfVote(a, a.validatorIds[i], a.voteHashes[i])
  }

  ghost predicate HashOfVote(a: Announcement, id: string, hash: VoteHash) {
    exists j :: 0 <= j < |a.votes| && a.votes[j].validatorId == id &&
      hash == VoteHash(CanonicalVote(Lower(a.blockHash), a.chainId, a.height, a.round, id), a.votes[j].signature)
  }

  lemma SoundVoteHash(a: Announcement, p: Packet)
    requires SoundVote(a, p)
    ensures p.Vote().Hash() ==
            VoteHash(CanonicalVote(Lower(a.blockHash), a.chainId, a.height, a.round, p.validatorId), p.signature)
  {
  }

  lemma OneOfEachName(endpoints: set<string>, a: Announcement, i: nat, j: nat)
    requires OneVoteEach(endpoints, a) && i < |a.votes| && j < |a.votes|
    requires a.votes[i].validatorId == a.votes[j].validatorId
    ensures i == j
  {
    NamesIff(endpoints, a);
    NoOtherNames(endpoints, a.votes);
    if i != j {
      var others := Without(a.votes, i);
      assert Names(others) == Names(a.votes) by {
        forall id | id in Names(a.votes)
          ensures id in Names(others)
        {
          var k :| 0 <= k < |a.votes| && a.votes[k].validatorId == id;
          var m := if k == i then j else k;
          assert others[if m < i then m else m - 1] == a.votes[m];
        }
        forall id | id in Names(others)
          ensures id in Names(a.votes)
        {
          var k :| 0 <= k < |others| && others[k].validatorId == id;
          assert a.votes[if k < i then k else k + 1] == others[k];
        }
      }
      NamesAtMost(others);
      assert false;
    }
  }

  function Without(packets: seq<Packet>, i: nat): (r: seq<Packet>)
    requires i < |packets|
    ensures |r| == |packets| - 1
  {
    packets[..i] + packets[i + 1..]
  }

  lemma HashOfVoteIff(endpoints: set<string>, a: Announcement, id: string, hash: VoteHash)
    requires OneVoteEach(endpoints, a) && id in Names(a.votes)
    ensures HashOfVote(a, id, hash) <==> hash == Find(a.votes, id).Vote().Hash()
  {
    var p := Find(a.votes, id);
    var i :| 0 <= i < |a.votes| && a.votes[i] == p;
    SoundVoteHash(a, p);
    if HashOfVote(a, id, hash) {
      var j :| 0 <= j < |a.votes| && a.votes[j].validatorId == id &&
        hash == VoteHash(CanonicalVote(Lower(a.blockHash), a.chainId, a.height, a.round, id), a.votes[j].signature);
      OneOfEachName(endpoints, a, i, j);
    }
  }

  lemma HashesFollowIff(endpoints: set<string>, a: Announcement)
    requires OneVoteEach(endpoints, a) && a.validatorIds == SortNames(endpoints) && NamesEndpoints(endpoints, a.votes)
    ensures HashesFollow(a) <==> a.voteHashes == Hashes(Arranged(endpoints, a.votes))
  {
    SortNamesMembers(endpoints);
    var (ids, hashes) := (SortNames(endpoints), Hashes(Arranged(endpoints, a.votes)));
    forall i | 0 <= i < |ids| && i < |a.voteHashes|
      ensures HashOfVote(a, ids[i], a.voteHashes[i]) <==> a.voteHashes[i] == hashes[i]
    {
      HashOfVoteIff(endpoints, a, ids[i], a.voteHashes[i]);
    }
  }

  /** An announced vote set is accepted exactly when its header is sound, it holds one sound vote of each
      endpoint, names the endpoints in order, lists the hashes of their votes in that order, and its
      certificate hash is that of the full certificate. The answer is the votes in name order. */
  lemma AcceptedIff(endpoints: set<string>, source: string, a: Announcement)
    ensures Validate(endpoints, source, a).Ok? <==>
              && SoundHeader(source, a) && OneVoteEach(endpoints, a)
              && Ascending(LexLess, a.validatorIds) && Lists(a.validatorIds, endpoints)
              && HashesFollow(a)
              && a.certificateHash == CertificateHash(
                   CertificateBody(Lower(a.blockHash), a.chainId, a.height, a.round, 3, 3,
                                   a.validatorIds, a.voteHashes))
    ensures Validate(endpoints, source, a).Ok? ==> InNameOrder(a, Validate(endpoints, source, a).value)
  {
    HeaderErrorIff(source, a);
    SortNamesLists(endpoints);
    if |a.votes| == 3 {
      VotesErrorIff(endpoints, a);
    }
    if Ascending(LexLess, a.validatorIds) && Lists(a.validatorIds, endpoints) {
      SortNamesUnique(endpoints, a.validatorIds);
    }
    if HeaderError(source, a).None? && VotesError(endpoints, a).None? {
      HashesFollowIff(endpoints, a);
      NamesSize(endpoints);
      ArrangedInOrder(endpoints, a);
    }
  }

  /** What remains when header and votes are sound: the hashes. */
  lemma HashesRefusedIff(endpoints: set<string>, source: string, a: Announcement)
    requires SoundHeader(source, a) && OneVoteEach(endpoints, a) && a.validatorIds == SortNames(endpoints)
    ensures Validate(endpoints, source, a) == Err(BadVoteHashes) <==> !HashesFollow(a)
    ensures Validate(endpoints, source, a) == Err(BadCertificateHash) <==>
              HashesFollow(a) && Validate(endpoints, source, a).Err?
  {
    HeaderErrorIff(source, a);
    VotesErrorIff(endpoints, a);
    HashesFollowIff(endpoints, a);
  }

  /** What is announced: the certificate, the head's parent and state, and the cached votes in name order. */
  ghost predicate IsBuilt(self: string, cert: Certificate, cached: map<string, Packet>, head: Head, a: Announcement) {
    && (a.source, a.chainId, a.height, a.round, a.blockHash) ==
       (self, cert.chainId, cert.height, cert.round, cert.blockHash)
    && (a.parentHash, a.stateRoot) == (head.parentHash, head.stateRoot)
    && (a.certificateHash, a.validatorIds, a.voteHashes) == (cert.certificateHash, cert.validatorIds, cert.voteHashes)
    && |a.votes| == |a.validatorIds|
    && forall i | 0 <= i < |a.votes| ::
         a.validatorIds[i] in cached && a.votes[i] == cached[a.validatorIds[i]] && a.votes[i].timestamp == a.timestamp
  }

  lemma ListingIff(ids: seq<string>, names: set<string>)
    ensures Ascending(LexLess, ids) && Lists(ids, names) <==> SortNames(names) == ids
  {
    SortNamesLists(names);
    if Ascending(LexLess, ids) && Lists(ids, names) { SortNamesUnique(names, ids); }
  }

  lemma OrderedEmptyIff(cached: map<string, Packet>)
    ensures Ordered(cached) == [] <==> cached == map[]
  {
    SortNamesMembers(cached.Keys);
    if cached != map[] {
      var id := Any(cached.Keys);
      assert id in SortNames(cached.Keys);
    }
  }

  lemma BuiltHolds(self: string, cert: Certificate, cached: map<string, Packet>, head: Head)
    requires Build(self, cert, cached, head).Ok?
    ensures IsBuilt(self, cert, cached, head, Build(self, cert, cached, head).value)
  {
    BuiltFields(self, cert, cached, head);
    SortNamesMembers(cached.Keys);
  }

  /** An announcement is built exactly when the cache holds a vote of each signer and of nobody else, at one
      time, and the head is the certified block. Otherwise the first of the three that fails is the answer. */
  lemma BuiltIff(self: string, cert: Certificate, cached: map<string, Packet>, head: Head)
    ensures var r := Build(self, cert, cached, head);
            var complete := Ascending(LexLess, cert.validatorIds) && Lists(cert.validatorIds, cached.Keys);
            var atOnce := cached != map[] && SameTime(cached);
            && (r.Ok? <==> complete && atOnce && head.height == cert.height && head.blockHash == cert.blockHash)
            && (r == Err(IncompleteVoteSet) <==> !complete)
            && (r == Err(TimestampsDisagree) <==> complete && !atOnce)
            && (r == Err(NotTheHead) <==> complete && atOnce && r.Err?)
            && (r.Ok? ==> IsBuilt(self, cert, cached, head, r.value))
  {
    ListingIff(cert.validatorIds, cached.Keys);
    OrderedEmptyIff(cached);
    TimestampsAgreeIff(cached);
    if Build(self, cert, cached, head).Ok? { BuiltHolds(self, cert, cached, head); }
  }

  lemma NamesSize(endpoints: set<string>)
    ensures |SortNames(endpoints)| == |endpoints|
  {
    SortNamesMembers(endpoints);
  }

  ghost predicate InNameOrder(a: Announcement, packets: seq<Packet>) {
    && |packets| == |a.validatorIds|
    && forall i | 0 <= i < |packets| :: packets[i] in a.votes && packets[i].validatorId == a.validatorIds[i]
  }

  lemma ArrangedInOrder(endpoints: set<string>, a: Announcement)
    requires NamesEndpoints(endpoints, a.votes) && a.validatorIds == SortNames(endpoints)
    ensures InNameOrder(a, Arranged(endpoints, a.votes))
  {
    SortNamesMembers(endpoints);
  }

  // ---------------------------------------------------------------- rebuilding

  /** The announced votes, each verified, in any order. */
  ghost predicate VotesInSomeOrder(a: Announcement, ds: seq<Delivery>) {
    && |ds| == |a.votes|
    && (forall i | 0 <= i < |ds| :: ds[i].verified && IsAnnounced(a, ds[i]))
    && (forall i, j | 0 <= i < j < |ds| :: ds[i].vote.validatorId != ds[j].vote.validatorId)
  }

  ghost predicate IsAnnounced(a: Announcement, d: Delivery) {
    exists j :: 0 <= j < |a.votes| && d.vote == Vote(a.chainId, a.height, a.round, a.blockHash,
                                                     a.votes[j].validatorId, a.votes[j].signature)
  }

  lemma AnnouncedVoteAdmissible(endpoints: set<string>, source: string, a: Announcement, d: Delivery)
    requires SoundHeader(source, a) && OneVoteEach(endpoints, a) && IsAnnounced(a, d) && d.vote.validatorId in endpoints
    requires |d.vote.signature| <= 4096
    ensures Admissible(TestnetCommittee(a.chainId, endpoints, a.height), d.vote)
  {
    var j :| 0 <= j < |a.votes| && d.vote == Vote(a.chainId, a.height, a.round, a.blockHash,
                                                  a.votes[j].validatorId, a.votes[j].signature);
    assert SoundVote(a, a.votes[j]);
  }

  lemma AnnouncedName(endpoints: set<string>, a: Announcement, d: Delivery)
    requires OneVoteEach(endpoints, a) && IsAnnounced(a, d)
    ensures d.vote.validatorId in endpoints
  {
    NamesIff(endpoints, a);
    NoOtherNames(endpoints, a.votes);
    var j :| 0 <= j < |a.votes| && d.vote == Vote(a.chainId, a.height, a.round, a.blockHash,
                                                  a.votes[j].validatorId, a.votes[j].signature);
    assert a.votes[j].validatorId in Names(a.votes);
  }

  lemma AnnouncedRound(endpoints: set<string>, source: string, a: Announcement, ds: seq<Delivery>)
    requires SoundHeader(source, a) && OneVoteEach(endpoints, a) && VotesInSomeOrder(a, ds)
    requires forall i | 0 <= i < |ds| :: |ds[i].vote.signature| <= 4096
    ensures OneRound(TestnetCommittee(a.chainId, endpoints, a.height), a.height, a.round, ds)
  {
    forall i | 0 <= i < |ds|
      ensures ds[i].verified && Admissible(TestnetCommittee(a.chainId, endpoints, a.height), ds[i].vote)
      ensures ds[i].vote.height == a.height && ds[i].vote.round == a.round
    {
      assert IsAnnounced(a, ds[i]);
      AnnouncedName(endpoints, a, ds[i]);
      AnnouncedVoteAdmissible(endpoints, source, a, ds[i]);
    }
  }

  ghost function NamesOf(ds: seq<Delivery>): set<string> {
    set i | 0 <= i < |ds| :: ds[i].vote.validatorId
  }

  lemma {:induction false} NamesOfCount(ds: seq<Delivery>)
    requires forall i, j | 0 <= i < j < |ds| :: ds[i].vote.validatorId != ds[j].vote.validatorId
    ensures |NamesOf(ds)| == |ds|
  {
    if ds != [] {
      var n := |ds| - 1;
      NamesOfCount(ds[..n]);
      assert NamesOf(ds) == NamesOf(ds[..n]) + {ds[n].vote.validatorId};
      assert ds[n].vote.validatorId !in NamesOf(ds[..n]);
    }
  }

  lemma EveryoneDelivered(endpoints: set<string>, a: Announcement, ds: seq<Delivery>)
    requires OneVoteEach(endpoints, a) && VotesInSomeOrder(a, ds)
    ensures NamesOf(ds) == endpoints == Names(a.votes)
  {
    NamesIff(endpoints, a);
    NoOtherNames(endpoints, a.votes);
    NamesOfCount(ds);
    forall id | id in NamesOf(ds)
      ensures id in endpoints
    {
      var i :| 0 <= i < |ds| && ds[i].vote.validatorId == id;
      assert IsAnnounced(a, ds[i]);
      AnnouncedName(endpoints, a, ds[i]);
    }
    FullHouse(NamesOf(ds), endpoints);
  }

  lemma DeliveredByName(endpoints: set<string>, source: string, a: Announcement, ds: seq<Delivery>)
    requires SoundHeader(source, a) && OneVoteEach(endpoints, a) && VotesInSomeOrder(a, ds)
    requires OneRound(TestnetCommittee(a.chainId, endpoints, a.height), a.height, a.round, ds)
    ensures VotesByName(a.votes, Ballots(ds))
  {
    EveryoneDelivered(endpoints, a, ds);
    forall id
      ensures id in Ballots(ds) <==> id in Names(a.votes)
    {
      BallotsContain(ds, id);
    }
    forall i | 0 <= i < |a.votes|
      ensures a.votes[i].validatorId in Ballots(ds) && Ballots(ds)[a.votes[i].validatorId] == a.votes[i].Vote()
    {
      DeliveredVote(endpoints, a, ds, i);
    }
  }

  lemma DeliveredVote(endpoints: set<string>, a: Announcement, ds: seq<Delivery>, i: nat)
    requires OneVoteEach(endpoints, a) && VotesInSomeOrder(a, ds) && i < |a.votes|
    requires OneRound(TestnetCommittee(a.chainId, endpoints, a.height), a.height, a.round, ds)
    ensures a.votes[i].validatorId in Ballots(ds) && Ballots(ds)[a.votes[i].validatorId] == a.votes[i].Vote()
  {
    EveryoneDelivered(endpoints, a, ds);
    var id := a.votes[i].validatorId;
    assert id in NamesOf(ds);
    var k :| 0 <= k < |ds| && ds[k].vote.validatorId == id;
    BallotsLookup(TestnetCommittee(a.chainId, endpoints, a.height), a.height, a.round, ds, k);
    assert IsAnnounced(a, ds[k]);
    var j :| 0 <= j < |a.votes| && ds[k].vote == Vote(a.chainId, a.height, a.round, a.blockHash,
                                                      a.votes[j].validatorId, a.votes[j].signature);
    OneOfEachName(endpoints, a, i, j);
    assert SoundVote(a, a.votes[i]);
  }

  /** Feeding the votes of an accepted set to a new machine, verified and in any order, ends in exactly the
      announced certificate: that they are one round of admissible votes follows from acceptance, but for
      the length of the signatures, which the machine bounds and the announcement does not. */
  lemma AcceptedVotesRebuild(endpoints: set<string>, source: string, a: Announcement, ds: seq<Delivery>)
    requires Validate(endpoints, source, a).Ok? && VotesInSomeOrder(a, ds)
    requires forall i | 0 <= i < |ds| :: |ds[i].vote.signature| <= 4096
    ensures var m := Run(TestnetCommittee(a.chainId, endpoints, a.height), FRESH, ds);
            && a.height in m.finalized
            && m.finalized[a.height] == Certificate(a.chainId, a.height, a.round, Lower(a.blockHash), 3, 3,
                                                    a.validatorIds, a.voteHashes, a.certificateHash)
  {
    AcceptedIff(endpoints, source, a);
    AnnouncedRound(endpoints, source, a, ds);
    DeliveredByName(endpoints, source, a, ds);
    AcceptedSetRebuildsCertificate(endpoints, source, a, ds);
  }
}
