/** Finalized vote sets: how a node announces a certificate by its votes and how a peer
    rebuilds the certificate from them. */
module Gossip {
  import opened Finality
  import opened Ordering
  import opened Prelude
  import opened Votes
  import opened Weights

  /** A vote with its transport authentication. */
  datatype Packet = Packet(
    chainId: int,
    height: int,
    round: int,
    blockHash: string,
    validatorId: string,
    signature: Bytes,
    peerSignature: Bytes,
    timestamp: Option<int>)
  {
    /** What decoding a packet from the wire requires. */
    predicate WellFormed() {
      && 0 < chainId && 0 <= height && 0 <= round
      && |blockHash| == 66 && blockHash[..2] == "0x"
      && validatorId != "" && |validatorId| <= 128
      && signature != [] && peerSignature != []
      && (timestamp.Some? ==> 0 < timestamp.value)
    }

    function Vote(): Vote {
      Votes.Vote(chainId, height, round, blockHash, validatorId, signature)
    }
  }

  datatype Head = Head(height: int, blockHash: string, parentHash: string, stateRoot: string)

  datatype Announcement = Announcement(
    source: string,
    chainId: int,
    height: int,
    round: int,
    blockHash: string,
    parentHash: string,
    stateRoot: string,
    timestamp: Option<int>,
    certificateHash: CertificateHash,
    validatorIds: seq<string>,
    voteHashes: seq<VoteHash>,
    votes: seq<Packet>)

  datatype GossipError =
    | IncompleteVoteSet
    | TimestampsDisagree
    | NotTheHead
    | WrongSource
    | BadNumbers
    | BadTimestamp
    | BadHash
    | NotThreeVotes
    | BadPacket
    | WrongValidators
    | VoteDiverges
    | BadVoteHashes
    | BadCertificateHash

  /** The certificate hash as gossip recomputes it: it takes the number of validators for
      both the signed and the total power. */
  function RecomputedHash(chainId: int, height: int, round: int, blockHash: string,
                          ids: seq<string>, hashes: seq<VoteHash>): CertificateHash {
    CertificateHash(CertificateBody(Lower(blockHash), chainId, height, round, |ids|, |ids|, ids, hashes))
  }

  /** Gossip and the finality machine hash a certificate alike exactly when everybody signed
      it and the total power is the head count. */
  lemma RecomputedHashIff(c: Committee, votes: map<Identity, Vote>, height: int, round: int, block: string)
    requires Lower(block) == block
    ensures var cert := Certify(c, votes, height, round, block);
            cert.certificateHash == RecomputedHash(c.chainId, height, round, block, cert.validatorIds,
                                                   cert.voteHashes) <==>
            cert.signedPower == cert.totalPower == |Signers(c, votes, height, round, block)|
  {
    SortNamesMembers(Signers(c, votes, height, round, block));
  }

  function Names(packets: seq<Packet>): set<string> {
    set i | 0 <= i < |packets| :: packets[i].validatorId
  }

  lemma {:induction false} NamesAtMost(packets: seq<Packet>)
    ensures |Names(packets)| <= |packets|
  {
    if packets != [] {
      var last := |packets| - 1;
      NamesAtMost(packets[..last]);
      assert Names(packets) == Names(packets[..last]) + {packets[last].validatorId};
    }
  }

  function Hashes(packets: seq<Packet>): (r: seq<VoteHash>)
    ensures |r| == |packets| && forall i | 0 <= i < |r| :: r[i] == packets[i].Vote().Hash()
  {
    if packets == [] then [] else Hashes(packets[..|packets| - 1]) + [packets[|packets| - 1].Vote().Hash()]
  }

  /** The packets in the order of the given names. */
  function InOrder(packets: seq<Packet>, ids: seq<string>): (r: seq<Packet>)
    requires forall i | 0 <= i < |ids| :: ids[i] in Names(packets)
    ensures |r| == |ids| && forall i | 0 <= i < |r| :: r[i] == Find(packets, ids[i])
  {
    if ids == [] then [] else InOrder(packets, ids[..|ids| - 1]) + [Find(packets, ids[|ids| - 1])]
  }

  function Find(packets: seq<Packet>, id: string): (p: Packet)
    requires id in Names(packets)
    ensures p in packets && p.validatorId == id
  {
    var last := |packets| - 1;
    if packets[last].validatorId == id then packets[last]
    else
      assert Names(packets) == Names(packets[..last]) + {packets[last].validatorId};
      Find(packets[..last], id)
  }

  // ---------------------------------------------------------------- building

  function Build(self: string, cert: Certificate, cached: map<string, Packet>, head: Head)
    : Result<Announcement, GossipError>
  {
    if SortNames(cached.Keys) != cert.validatorIds then Err(IncompleteVoteSet)
    else
      var ordered := Ordered(cached);
      if ordered == [] || exists i | 0 <= i < |ordered| :: ordered[i].timestamp != ordered[0].timestamp then
        Err(TimestampsDisagree)
      else if head.height != cert.height || head.blockHash != cert.blockHash then Err(NotTheHead)
      else
        Ok(Announcement(self, cert.chainId, cert.height, cert.round, cert.blockHash, head.parentHash, head.stateRoot,
                        ordered[0].timestamp, cert.certificateHash, cert.validatorIds, cert.voteHashes, ordered))
  }

  /** The cached packets by name. */
  function Ordered(cached: map<string, Packet>): seq<Packet> {
    SortNamesMembers(cached.Keys);
    Select(cached, SortNames(cached.Keys))
  }

  function Select(cached: map<string, Packet>, ids: seq<string>): (r: seq<Packet>)
    requires forall i | 0 <= i < |ids| :: ids[i] in cached
    ensures |r| == |ids| && forall i | 0 <= i < |r| :: r[i] == cached[ids[i]]
  {
    if ids == [] then [] else Select(cached, ids[..|ids| - 1]) + [cached[ids[|ids| - 1]]]
  }

  // -------------------------------------------------------------- validating

  /** The announced votes are one per endpoint: sorted by name, they name the endpoints. */
  predicate NamesEndpoints(endpoints: set<string>, packets: seq<Packet>) {
    |packets| == |endpoints| && endpoints <= Names(packets)
  }

  predicate Diverges(a: Announcement, p: Packet) {
    || p.chainId != a.chainId || p.height != a.height || p.round != a.round
    || p.blockHash != a.blockHash || p.timestamp != a.timestamp
  }

  lemma NoOtherNames(endpoints: set<string>, packets: seq<Packet>)
    requires NamesEndpoints(endpoints, packets)
    ensures Names(packets) == endpoints
  {
    NamesAtMost(packets);
    FullHouse(endpoints, Names(packets));
  }

  function HeaderError(source: string, a: Announcement): Option<GossipError> {
    if a.source != source then Some(WrongSource)
    else if a.chainId <= 0 || a.height <= 0 || a.round < 0 then Some(BadNumbers)
    else if a.timestamp.Some? && a.timestamp.value <= 0 then Some(BadTimestamp)
    else if !IsHash(a.blockHash) || !IsHash(a.parentHash) || !IsHash(a.stateRoot) then Some(BadHash)
    else if |a.votes| != 3 then Some(NotThreeVotes)
    else None
  }

  function VotesError(endpoints: set<string>, a: Announcement): Option<GossipError> {
    if exists i | 0 <= i < |a.votes| :: !a.votes[i].WellFormed() then Some(BadPacket)
    else if !NamesEndpoints(endpoints, a.votes) || a.validatorIds != SortNames(endpoints) then Some(WrongValidators)
    else if exists i | 0 <= i < |a.votes| :: Diverges(a, a.votes[i]) then Some(VoteDiverges)
    else None
  }

  /** The announced votes in the order of the endpoints' names. */
  function Arranged(endpoints: set<string>, packets: seq<Packet>): seq<Packet>
    requires NamesEndpoints(endpoints, packets)
  {
    SortNamesMembers(endpoints);
    InOrder(packets, SortNames(endpoints))
  }

  function Validate(endpoints: set<string>, source: string, a: Announcement): Result<seq<Packet>, GossipError> {
    if HeaderError(source, a).Some? then Err(HeaderError(source, a).value)
    else if VotesError(endpoints, a).Some? then Err(VotesError(endpoints, a).value)
    else
      var packets := Arranged(endpoints, a.votes);
      if a.voteHashes != Hashes(packets) then Err(BadVoteHashes)
      else if a.certificateHash !=
              RecomputedHash(a.chainId, a.height, a.round, a.blockHash, a.validatorIds, a.voteHashes) then
        Err(BadCertificateHash)
      else Ok(packets)
  }

  /** The committee of a three-validator testnet just below a height. */
  ghost function TestnetCommittee(chainId: int, endpoints: set<string>, height: int): Committee {
    Committee(chainId, map id | id in endpoints :: 1, height - 1)
  }

  /** The votes of a list of packets, by validator. */
  ghost predicate VotesByName(packets: seq<Packet>, ballots: map<string, Vote>) {
    && (forall i | 0 <= i < |packets| ::
        packets[i].validatorId in ballots && ballots[packets[i].validatorId] == packets[i].Vote())
    && ballots.Keys == Names(packets)
  }

  lemma NamedBallots(endpoints: set<string>, a: Announcement, ballots: map<string, Vote>)
    requires VotesError(endpoints, a).None? && VotesByName(a.votes, ballots)
    ensures |endpoints| == |a.votes| && ballots.Keys == endpoints
    ensures forall id | id in ballots :: Lower(ballots[id].blockHash) == Lower(a.blockHash)
  {
    NoOtherNames(endpoints, a.votes);
    forall id | id in endpoints
      ensures Lower(ballots[id].blockHash) == Lower(a.blockHash)
    {
      var i :| 0 <= i < |a.votes| && a.votes[i].validatorId == id;
      assert !Diverges(a, a.votes[i]);
    }
  }

  lemma ArrangedBallots(endpoints: set<string>, packets: seq<Packet>, ballots: map<string, Vote>)
    requires NamesEndpoints(endpoints, packets) && VotesByName(packets, ballots)
    ensures var (r, ids) := (Arranged(endpoints, packets), SortNames(endpoints));
            && |r| == |ids|
            && forall i | 0 <= i < |r| :: ids[i] in ballots && ballots[ids[i]] == r[i].Vote()
  {
    SortNamesMembers(endpoints);
    var (r, ids) := (Arranged(endpoints, packets), SortNames(endpoints));
    forall i | 0 <= i < |r|
      ensures ids[i] in ballots && ballots[ids[i]] == r[i].Vote()
    {
      var p := Find(packets, ids[i]);
      var j :| 0 <= j < |packets| && packets[j] == p;
      assert packets[j].validatorId == ids[i];
    }
  }

  /** What an accepted announcement commits to. */
  ghost predicate Committed(endpoints: set<string>, a: Announcement) {
    && |a.votes| == 3
    && VotesError(endpoints, a).None?
    && a.voteHashes == Hashes(Arranged(endpoints, a.votes))
    && a.certificateHash == RecomputedHash(a.chainId, a.height, a.round, a.blockHash, a.validatorIds, a.voteHashes)
  }

  lemma AcceptedIsCommitted(endpoints: set<string>, source: string, a: Announcement)
    ensures Validate(endpoints, source, a).Ok? <==> HeaderError(source, a).None? && Committed(endpoints, a)
  {
  }

  lemma BoxHolds(endpoints: set<string>, height: int, round: int, ballots: map<string, Vote>)
    requires ballots.Keys == endpoints
    ensures var ids := SortNames(endpoints);
            forall i | 0 <= i < |ids| :: ids[i] in ballots &&
              (height, round, ids[i]) in BallotBox(height, round, ballots)
  {
    SortNamesMembers(endpoints);
  }

  lemma ArrangedHashes(endpoints: set<string>, packets: seq<Packet>, height: int, round: int,
                       ballots: map<string, Vote>)
    requires NamesEndpoints(endpoints, packets) && VotesByName(packets, ballots)
    ensures var (box, ids) := (BallotBox(height, round, ballots), SortNames(endpoints));
            && (forall i | 0 <= i < |ids| :: (height, round, ids[i]) in box)
            && Hashes(Arranged(endpoints, packets)) == VoteHashes(box, height, round, ids)
  {
    NoOtherNames(endpoints, packets);
    ArrangedBallots(endpoints, packets, ballots);
    BoxHolds(endpoints, height, round, ballots);
    BoxHashes(endpoints, height, round, ballots, Arranged(endpoints, packets));
  }

  lemma CommittedHashes(endpoints: set<string>, a: Announcement, ballots: map<string, Vote>)
    requires Committed(endpoints, a) && VotesByName(a.votes, ballots)
    ensures var box := BallotBox(a.height, a.round, ballots);
            && (forall i | 0 <= i < |a.validatorIds| :: (a.height, a.round, a.validatorIds[i]) in box)
            && a.voteHashes == VoteHashes(box, a.height, a.round, a.validatorIds)
  {
    ArrangedHashes(endpoints, a.votes, a.height, a.round, ballots);
  }

  /** The certificate of three agreeing ballots, spelled out. */
  lemma FullCertificate(chainId: int, endpoints: set<string>, height: int, round: int, block: string,
                        ballots: map<string, Vote>)
    requires |endpoints| == 3 && ballots.Keys == endpoints
    requires forall id | id in ballots :: Lower(ballots[id].blockHash) == block
    ensures var box := BallotBox(height, round, ballots);
            var cert := Certify(TestnetCommittee(chainId, endpoints, height), box, height, round, block);
            var ids := SortNames(endpoints);
            && |ids| == 3 && (forall i | 0 <= i < |ids| :: (height, round, ids[i]) in box)
            && var hashes := VoteHashes(box, height, round, ids);
               cert == Certificate(chainId, height, round, block, 3, 3, ids, hashes,
                                   CertificateHash(CertificateBody(block, chainId, height, round, 3, 3, ids, hashes)))
  {
    var c := TestnetCommittee(chainId, endpoints, height);
    var box := BallotBox(height, round, ballots);
    SortNamesMembers(endpoints);
    assert Signers(c, box, height, round, block) == endpoints;
    assert c.powers.Keys == endpoints;
    WeightOfOnes(c.powers, endpoints);
  }

  /** The certificate that an announcement spells out. */
  ghost function Announced(a: Announcement): Certificate {
    Certificate(a.chainId, a.height, a.round, Lower(a.blockHash), 3, 3, a.validatorIds, a.voteHashes, a.certificateHash)
  }

  lemma CommittedCertificate(endpoints: set<string>, a: Announcement, ballots: map<string, Vote>)
    requires Committed(endpoints, a) && VotesByName(a.votes, ballots)
    ensures ballots.Keys == endpoints && |endpoints| == 3
    ensures forall id | id in ballots :: Lower(ballots[id].blockHash) == Lower(a.blockHash)
    ensures var box := BallotBox(a.height, a.round, ballots);
            Certify(TestnetCommittee(a.chainId, endpoints, a.height), box, a.height, a.round, Lower(a.blockHash)) ==
              Announced(a)
  {
    NamedBallots(endpoints, a, ballots);
    CommittedHashes(endpoints, a, ballots);
    FullCertificate(a.chainId, endpoints, a.height, a.round, Lower(a.blockHash), ballots);
  }

  lemma TestnetOfThree(chainId: int, endpoints: set<string>, height: int)
    requires 0 < chainId && 0 < height && |endpoints| == 3
    ensures var c := TestnetCommittee(chainId, endpoints, height);
            c.Valid() && c.powers.Keys == endpoints && |c.powers| == 3
  {
    assert TestnetCommittee(chainId, endpoints, height).powers.Keys == endpoints;
  }

  lemma FreshAwaits(c: Committee, height: int, round: int)
    requires c.Valid() && c.checkpoint <= height <= c.checkpoint + 1
    ensures Invariant(c, FRESH) && Awaiting(c, FRESH, height, round)
  {
    FreshInvariant(c);
  }

  lemma CommittedRebuilds(endpoints: set<string>, a: Announcement, ds: seq<Delivery>)
    requires 0 < a.chainId && 0 < a.height && Committed(endpoints, a)
    requires var c := TestnetCommittee(a.chainId, endpoints, a.height);
             OneRound(c, a.height, a.round, ds) && VotesByName(a.votes, Ballots(ds))
    ensures var m := Run(TestnetCommittee(a.chainId, endpoints, a.height), FRESH, ds);
            a.height in m.finalized && m.finalized[a.height] == Announced(a)
  {
    var c := TestnetCommittee(a.chainId, endpoints, a.height);
    CommittedCertificate(endpoints, a, Ballots(ds));
    TestnetOfThree(a.chainId, endpoints, a.height);
    FreshAwaits(c, a.height, a.round);
    ThreeVotesGiveOneCertificate(c, FRESH, a.height, a.round, Lower(a.blockHash), ds);
  }

  /** Soundness: whatever vote set a node accepts, feeding its votes in any order to a new
      finality machine yields exactly the announced certificate. */
  lemma AcceptedSetRebuildsCertificate(endpoints: set<string>, source: string, a: Announcement, ds: seq<Delivery>)
    requires Validate(endpoints, source, a).Ok?
    requires var c := TestnetCommittee(a.chainId, endpoints, a.height);
             OneRound(c, a.height, a.round, ds) && VotesByName(a.votes, Ballots(ds))
    ensures var m := Run(TestnetCommittee(a.chainId, endpoints, a.height), FRESH, ds);
            a.height in m.finalized && m.finalized[a.height] == Announced(a)
  {
    AcceptedIsCommitted(endpoints, source, a);
    CommittedRebuilds(endpoints, a, ds);
  }

  /** The hashes of packets in name order are the hashes of the recorded votes. */
  lemma BoxHashes(endpoints: set<string>, height: int, round: int, ballots: map<string, Vote>, packets: seq<Packet>)
    requires ballots.Keys == endpoints
    requires |packets| == |SortNames(endpoints)|
    requires forall i | 0 <= i < |packets| :: SortNames(endpoints)[i] in ballots
                                           && ballots[SortNames(endpoints)[i]] == packets[i].Vote()
    ensures VoteHashes(BallotBox(height, round, ballots), height, round, SortNames(endpoints)) == Hashes(packets)
  {
  }

  /** One authenticated vote for a block, whose hash it may write in any case. */
  ghost predicate ReceivedVote(id: string, chainId: int, height: int, round: int, block: string, ballot: Vote,
                               packet: Packet)
  {
    && packet.WellFormed() && packet.validatorId == id && packet.Vote() == ballot
    && packet.chainId == chainId && packet.height == height && packet.round == round
    && Lower(packet.blockHash) == block
  }

  /** Such votes of all three validators. */
  ghost predicate ReceivedRound(endpoints: set<string>, chainId: int, height: int, round: int, block: string,
                                ballots: map<string, Vote>, packets: map<string, Packet>)
  {
    && |endpoints| == 3 && packets.Keys == endpoints && ballots.Keys == endpoints
    && 0 < chainId && 0 < height && 0 <= round && IsCanonicalHash(block)
    && forall id | id in packets :: ReceivedVote(id, chainId, height, round, block, ballots[id], packets[id])
  }

  /** All of them with the hash as the certificate writes it. */
  ghost predicate CachedRound(endpoints: set<string>, chainId: int, height: int, round: int, block: string,
                              ballots: map<string, Vote>, cached: map<string, Packet>)
  {
    && ReceivedRound(endpoints, chainId, height, round, block, ballots, cached)
    && forall id | id in cached :: cached[id].blockHash == block
  }

  ghost function CachedCertificate(endpoints: set<string>, chainId: int, height: int, round: int, block: string,
                                   ballots: map<string, Vote>): Certificate
  {
    Certify(TestnetCommittee(chainId, endpoints, height), BallotBox(height, round, ballots), height, round, block)
  }

  /** The certificate of a round, as its cached votes spell it. */
  ghost predicate Spells(chainId: int, height: int, round: int, block: string, cached: map<string, Packet>,
                         cert: Certificate)
  {
    && cert.chainId == chainId && cert.height == height && cert.round == round && cert.blockHash == block
    && cert.validatorIds == SortNames(cached.Keys)
    && cert.voteHashes == Hashes(Ordered(cached))
    && cert.certificateHash == RecomputedHash(chainId, height, round, block, cert.validatorIds, cert.voteHashes)
  }

  lemma CachedCertificateSpells(endpoints: set<string>, chainId: int, height: int, round: int, block: string,
                                ballots: map<string, Vote>, cached: map<string, Packet>)
    requires CachedRound(endpoints, chainId, height, round, block, ballots, cached)
    ensures Spells(chainId, height, round, block, cached,
                   CachedCertificate(endpoints, chainId, height, round, block, ballots))
  {
    CanonicalHashIsLower(block);
    SortNamesMembers(endpoints);
    FullCertificate(chainId, endpoints, height, round, block, ballots);
    BoxHashes(endpoints, height, round, ballots, Ordered(cached));
  }

  predicate SameTime(cached: map<string, Packet>) {
    forall id, id' | id in cached && id' in cached :: cached[id].timestamp == cached[id'].timestamp
  }

  lemma BuildsIff(self: string, cert: Certificate, cached: map<string, Packet>, head: Head)
    requires cached.Keys != {} && cert.validatorIds == SortNames(cached.Keys)
    ensures Build(self, cert, cached, head).Ok? <==>
              SameTime(cached) && head.height == cert.height && head.blockHash == cert.blockHash
  {
    SortNamesMembers(cached.Keys);
    TimestampsAgreeIff(cached);
    var id := Any(cached.Keys);
    assert Ordered(cached) != [];
  }

  lemma BuiltFields(self: string, cert: Certificate, cached: map<string, Packet>, head: Head)
    requires Build(self, cert, cached, head).Ok?
    ensures var a := Build(self, cert, cached, head).value;
            && a.source == self && a.votes == Ordered(cached) && a.parentHash == head.parentHash &&
               a.stateRoot == head.stateRoot
            && a.chainId == cert.chainId && a.height == cert.height && a.round == cert.round &&
               a.blockHash == cert.blockHash
            && a.validatorIds == cert.validatorIds && a.voteHashes == cert.voteHashes
            && a.certificateHash == cert.certificateHash
            && forall i | 0 <= i < |a.votes| :: a.votes[i].timestamp == a.timestamp
  {
  }

  lemma SpelledAnnouncementPasses(endpoints: set<string>, self: string, chainId: int, height: int, round: int,
                                  block: string, ballots: map<string, Vote>, cached: map<string, Packet>,
                                  cert: Certificate, head: Head)
    requires CachedRound(endpoints, chainId, height, round, block, ballots, cached)
    requires Spells(chainId, height, round, block, cached, cert) && IsHash(head.parentHash) && IsHash(head.stateRoot)
    requires Build(self, cert, cached, head).Ok?
    ensures Validate(endpoints, self, Build(self, cert, cached, head).value) == Ok(Ordered(cached))
  {
    BuiltFields(self, cert, cached, head);
    BuiltPasses(endpoints, self, chainId, height, round, block, ballots, cached, Build(self, cert, cached, head).value);
  }

  /** Completeness: a certificate on which all three validators agree, announced from its
      cached votes, is accepted by every peer with the same endpoints. */
  lemma BuiltAnnouncementAccepted(endpoints: set<string>, self: string, chainId: int, height: int, round: int,
                                  block: string, ballots: map<string, Vote>, cached: map<string, Packet>, head: Head)
    requires CachedRound(endpoints, chainId, height, round, block, ballots, cached)
    requires IsHash(head.parentHash) && IsHash(head.stateRoot)
    ensures var built := Build(self, CachedCertificate(endpoints, chainId, height, round, block, ballots), cached,
                               head);
            && (built.Ok? <==> SameTime(cached) && head.height == height && head.blockHash == block)
            && (built.Ok? ==> Validate(endpoints, self, built.value) == Ok(Ordered(cached)))
  {
    var cert := CachedCertificate(endpoints, chainId, height, round, block, ballots);
    CachedCertificateSpells(endpoints, chainId, height, round, block, ballots, cached);
    BuildsIff(self, cert, cached, head);
    if Build(self, cert, cached, head).Ok? {
      SpelledAnnouncementPasses(endpoints, self, chainId, height, round, block, ballots, cached, cert, head);
    }
  }

  /** The packets that lie in the cache under exactly this block text. */
  function FiledUnderText(packets: map<string, Packet>, block: string): map<string, Packet> {
    map id | id in packets && packets[id].blockHash == block :: packets[id]
  }

  /** An announcement can be built exactly when every vote spelled the hash in lower case, the
      timestamps agree and the head is the finalized block; otherwise spelled votes are missing
      from the cache. What is built, every peer with the same endpoints accepts. */
  lemma AnnouncedIff(endpoints: set<string>, self: string, chainId: int, height: int, round: int, block: string,
                     ballots: map<string, Vote>, packets: map<string, Packet>, head: Head)
    requires ReceivedRound(endpoints, chainId, height, round, block, ballots, packets)
    requires IsHash(head.parentHash) && IsHash(head.stateRoot)
    ensures var built := Build(self, CachedCertificate(endpoints, chainId, height, round, block, ballots),
                               FiledUnderText(packets, block), head);
            && (built.Ok? <==>
                  && (forall id | id in packets :: packets[id].blockHash == block)
                  && SameTime(packets) && head.height == height && head.blockHash == block)
            && ((exists id :: id in packets && packets[id].blockHash != block) ==> built == Err(IncompleteVoteSet))
            && (built.Ok? ==> Validate(endpoints, self, built.value) == Ok(Ordered(packets)))
  {
    var filed := FiledUnderText(packets, block);
    if forall id | id in packets :: packets[id].blockHash == block {
      assert filed == packets;
      assert CachedRound(endpoints, chainId, height, round, block, ballots, packets);
      BuiltAnnouncementAccepted(endpoints, self, chainId, height, round, block, ballots, packets, head);
    } else {
      var id :| id in packets && packets[id].blockHash != block;
      MissingIsIncomplete(endpoints, self, chainId, height, round, block, ballots, packets, head, id);
    }
  }

  lemma DifferentListings(a: set<string>, b: set<string>, x: string)
    requires x in a && x !in b
    ensures SortNames(a) != SortNames(b)
  {
    SortNamesMembers(a);
    SortNamesMembers(b);
    assert x in SortNames(a);
  }

  lemma MissingIsIncomplete(endpoints: set<string>, self: string, chainId: int, height: int, round: int, block: string,
                            ballots: map<string, Vote>, packets: map<string, Packet>, head: Head, id: string)
    requires ReceivedRound(endpoints, chainId, height, round, block, ballots, packets)
    requires id in packets && packets[id].blockHash != block
    ensures Build(self, CachedCertificate(endpoints, chainId, height, round, block, ballots),
                  FiledUnderText(packets, block), head) ==
            Err(IncompleteVoteSet)
  {
    forall other | other in ballots
      ensures Lower(ballots[other].blockHash) == block
    {
      assert ReceivedVote(other, chainId, height, round, block, ballots[other], packets[other]);
    }
    FullCertificate(chainId, endpoints, height, round, block, ballots);
    DifferentListings(endpoints, FiledUnderText(packets, block).Keys, id);
  }

  lemma HeaderPasses(self: string, a: Announcement)
    requires a.source == self && 0 < a.chainId && 0 < a.height && 0 <= a.round && IsCanonicalHash(a.blockHash)
    requires IsHash(a.parentHash) && IsHash(a.stateRoot) && |a.votes| == 3 &&
             (a.timestamp.Some? ==> 0 < a.timestamp.value)
    ensures HeaderError(self, a).None?
  {
    CanonicalHashIsLower(a.blockHash);
  }

  lemma Validates(endpoints: set<string>, self: string, a: Announcement)
    requires HeaderError(self, a).None? && VotesError(endpoints, a).None?
    requires Arranged(endpoints, a.votes) == a.votes && a.voteHashes == Hashes(a.votes)
    requires a.certificateHash == RecomputedHash(a.chainId, a.height, a.round, a.blockHash, a.validatorIds,
                                                 a.voteHashes)
    ensures Validate(endpoints, self, a) == Ok(a.votes)
  {
  }

  lemma BuiltPasses(endpoints: set<string>, self: string, chainId: int, height: int, round: int, block: string,
                    ballots: map<string, Vote>, cached: map<string, Packet>, a: Announcement)
    requires CachedRound(endpoints, chainId, height, round, block, ballots, cached)
    requires a.source == self && a.votes == Ordered(cached) && a.validatorIds == SortNames(endpoints)
    requires a.chainId == chainId && a.height == height && a.round == round && a.blockHash == block
    requires IsHash(a.parentHash) && IsHash(a.stateRoot)
    requires a.voteHashes == Hashes(Ordered(cached))
    requires a.certificateHash == RecomputedHash(chainId, height, round, block, a.validatorIds, a.voteHashes)
    requires forall i | 0 <= i < |a.votes| :: a.votes[i].timestamp == a.timestamp
    ensures Validate(endpoints, self, a) == Ok(Ordered(cached))
  {
    assert forall id | id in cached :: ReceivedVote(id, chainId, height, round, block, ballots[id], cached[id]);
    ArrangedSelected(endpoints, cached);
    BuiltVotesPass(endpoints, chainId, height, round, block, ballots, cached, a);
    HeaderPasses(self, a);
    Validates(endpoints, self, a);
  }

  lemma PacketsAgree(endpoints: set<string>, a: Announcement)
    requires (forall i | 0 <= i < |a.votes| :: a.votes[i].WellFormed() && !Diverges(a, a.votes[i]))
    requires NamesEndpoints(endpoints, a.votes) && a.validatorIds == SortNames(endpoints)
    ensures VotesError(endpoints, a).None?
  {
  }

  lemma BuiltVotesPass(endpoints: set<string>, chainId: int, height: int, round: int, block: string,
                       ballots: map<string, Vote>, cached: map<string, Packet>, a: Announcement)
    requires CachedRound(endpoints, chainId, height, round, block, ballots, cached)
    requires a.votes == Ordered(cached) && a.validatorIds == SortNames(endpoints)
    requires a.chainId == chainId && a.height == height && a.round == round && a.blockHash == block
    requires forall i | 0 <= i < |a.votes| :: a.votes[i].timestamp == a.timestamp
    ensures VotesError(endpoints, a).None? && |a.votes| == 3
    ensures a.timestamp.Some? ==> 0 < a.timestamp.value
  {
    var ids := SortNames(endpoints);
    SortNamesMembers(endpoints);
    forall i | 0 <= i < |a.votes|
      ensures a.votes[i].WellFormed() && !Diverges(a, a.votes[i])
    {
      assert ReceivedVote(ids[i], chainId, height, round, block, ballots[ids[i]], cached[ids[i]]);
    }
    SelectedNames(endpoints, cached);
    PacketsAgree(endpoints, a);
    assert a.votes[0].WellFormed();
  }

  lemma TimestampsAgreeIff(cached: map<string, Packet>)
    ensures var ordered := Ordered(cached);
            (exists i | 0 <= i < |ordered| :: ordered[i].timestamp != ordered[0].timestamp) <==> !SameTime(cached)
  {
    var (ids, ordered) := (SortNames(cached.Keys), Ordered(cached));
    SortNamesMembers(cached.Keys);
    if forall i | 0 <= i < |ordered| :: ordered[i].timestamp == ordered[0].timestamp {
      forall id | id in cached
        ensures cached[id].timestamp == ordered[0].timestamp
      {
        var i :| 0 <= i < |ids| && ids[i] == id;
        assert ordered[i] == cached[id];
      }
    }
  }

  lemma SelectedNames(endpoints: set<string>, cached: map<string, Packet>)
    requires cached.Keys == endpoints && forall id | id in cached :: cached[id].validatorId == id
    ensures NamesEndpoints(endpoints, Ordered(cached))
  {
    var ids := SortNames(endpoints);
    SortNamesMembers(endpoints);
    forall id | id in endpoints
      ensures id in Names(Ordered(cached))
    {
      var i :| 0 <= i < |ids| && ids[i] == id;
      assert Ordered(cached)[i].validatorId == id;
    }
  }

  lemma ArrangedSelected(endpoints: set<string>, cached: map<string, Packet>)
    requires cached.Keys == endpoints && forall id | id in cached :: cached[id].validatorId == id
    ensures NamesEndpoints(endpoints, Ordered(cached)) && Arranged(endpoints, Ordered(cached)) == Ordered(cached)
  {
    var (ids, ordered) := (SortNames(endpoints), Ordered(cached));
    SelectedNames(endpoints, cached);
    SortNamesMembers(endpoints);
    forall i | 0 <= i < |ids|
      ensures Find(ordered, ids[i]) == ordered[i]
    {
      var p := Find(ordered, ids[i]);
      var j :| 0 <= j < |ordered| && ordered[j] == p;
      assert ids[j] == p.validatorId == ids[i];
    }
  }
}
