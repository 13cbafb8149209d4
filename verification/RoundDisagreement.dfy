/** How one height can end in two blocks: from two quorums that may vote apart, a run in which
    they do, each honest vote signed by its journal. */
module RoundDisagreement {
  import opened Agreement
  import opened Finality
  import opened Ordering
  import opened Prelude
  import opened Votes
  import opened Weights
  import Journal = SigningJournal

  /** Some signature of the accepted length. */
  ghost function Stamp(length: nat): (r: Bytes)
    ensures |r| == length
  {
    if length == 0 then [] else Stamp(length - 1) + [0]
  }

  /** What is voted for, and when. */
  datatype Choice = Choice(height: int, round: int, block: string)

  const NEW_JOURNAL := Journal.World(Journal.Disk(None, map[], map[]), None, [])

  /** Everyone but the Byzantine validators with a new journal, and two replicas below the height. */
  ghost function Beginning(c: Committee, byzantine: set<string>, height: int): System {
    System(map id | id in c.powers.Keys - byzantine :: NEW_JOURNAL,
           map[0 := Replica(height - 1, FRESH), 1 := Replica(height - 1, FRESH)])
  }

  lemma {:induction false} RunAppend(c: Committee, s: System, a: seq<Step>, b: seq<Step>)
    ensures Agreement.Run(c, s, a + b) == Agreement.Run(c, Agreement.Run(c, s, a), b)
  {
    if b == [] {
      assert a + b == a;
    } else {
      var n := |b| - 1;
      assert (a + b)[..|a + b| - 1] == a + b[..n];
      RunAppend(c, s, a, b[..n]);
    }
  }

  // ------------------------------------------------------------------ signing

  ghost function Call(c: Committee, id: string, v: Choice): Journal.Event {
    Journal.SignCall(
      Journal.Request(id, v.height, v.round, v.block, CanonicalVote(v.block, c.chainId, v.height, v.round, id)),
      Some(Stamp(64)), true, Journal.Returns)
  }

  /** The journal after it has been opened and asked for this vote. */
  ghost function AfterVote(c: Committee, id: string, w: Journal.World, v: Choice): Journal.World {
    Journal.Step(Journal.Step(w, Journal.OpenJournal(c.chainId)), Call(c, id, v))
  }

  ghost predicate Signable(id: string, v: Choice) {
    Journal.IsValidatorId(id) && 0 < v.height && 0 <= v.round && IsCanonicalHash(v.block)
  }

  /** The tables open, and hold no signature of the validator at this place or beyond it. */
  ghost predicate Ready(c: Committee, id: string, w: Journal.World, v: Choice) {
    && Journal.Open(c.chainId, w.disk).1.Ok?
    && forall slot | slot in w.disk.rows && slot.0 == id ::
         Journal.Before(Journal.MarkOf(slot), Journal.Mark(v.height, v.round))
  }

  /** The journal has signed this vote, and is ready for any vote beyond it. */
  ghost predicate HasSigned(c: Committee, id: string, w: Journal.World, w': Journal.World, v: Choice) {
    && |w'.log| == |w.log| + 1 && w.log <= w'.log
    && Releases(w'.log[|w.log|], c.chainId, (id, v.height, v.round), v.block)
    && Journal.Sound(c.chainId, w'.disk)
    && forall slot | slot in w'.disk.rows && slot.0 == id ::
       !Journal.Before(Journal.Mark(v.height, v.round), Journal.MarkOf(slot))
  }

  /** The journal is open and would sign this vote. */
  ghost predicate Waiting(c: Committee, id: string, w: Journal.World, v: Choice) {
    && w.handle == Some(c.chainId) && Journal.Sound(c.chainId, w.disk)
    && (id, v.height, v.round) !in w.disk.rows
    && (id in w.disk.marks ==> Journal.Before(w.disk.marks[id], Journal.Mark(v.height, v.round)))
    && forall slot | slot in w.disk.rows && slot.0 == id ::
         Journal.Before(Journal.MarkOf(slot), Journal.Mark(v.height, v.round))
  }

  lemma OpenedIsWaiting(c: Committee, id: string, w: Journal.World, v: Choice)
    requires Ready(c, id, w, v)
    ensures var open := Journal.Step(w, Journal.OpenJournal(c.chainId));
            Waiting(c, id, open, v) && open.log == w.log
  {
    var open := Journal.Step(w, Journal.OpenJournal(c.chainId));
    Journal.OpenSucceedsIff(c.chainId, w.disk);
    assert open.disk.rows == w.disk.rows;
    if id in open.disk.marks {
      assert Journal.IsLatest(open.disk.rows, id, open.disk.marks[id]);
    }
  }

  lemma WaitingAccepts(c: Committee, id: string, disk: Journal.Disk, e: Journal.Event, v: Choice)
    requires Signable(id, v) && e == Call(c, id, v) && (id, v.height, v.round) !in disk.rows
    requires id in disk.marks ==> Journal.Before(disk.marks[id], Journal.Mark(v.height, v.round))
    ensures var (disk', result) := Journal.GetOrSign(c.chainId, disk, e.req, e.signed, _ => e.accepted);
            && result == Ok(Stamp(64))
            && disk'.rows.Keys == disk.rows.Keys + {(id, v.height, v.round)}
  {
    assert Journal.RequestError(c.chainId, e.req) == None;
  }

  lemma AcceptedIsLogged(chainId: int, w: Journal.World, e: Journal.Event, disk: Journal.Disk, signature: Bytes)
    requires e.SignCall? && e.fate.Returns? && w.handle == Some(chainId)
    requires Journal.GetOrSign(chainId, w.disk, e.req, e.signed, _ => e.accepted) == (disk, Ok(signature))
    ensures Journal.Step(w, e) ==
            Journal.World(disk, w.handle, w.log +
                          [Journal.Entry(chainId, e.req.Slot(), e.req.blockHash, signature, disk != w.disk, true)])
  {
  }

  lemma OneMoreSigned(c: Committee, id: string, w: Journal.World, w': Journal.World, entry: Journal.Entry, v: Choice)
    requires Waiting(c, id, w, v) && w'.log == w.log + [entry]
    requires Releases(entry, c.chainId, (id, v.height, v.round), v.block)
    requires Journal.Sound(c.chainId, w'.disk) && w'.disk.rows.Keys == w.disk.rows.Keys + {(id, v.height, v.round)}
    ensures HasSigned(c, id, w, w', v)
  {
  }

  lemma WaitingSigns(c: Committee, id: string, w: Journal.World, v: Choice)
    requires Signable(id, v) && Waiting(c, id, w, v)
    ensures HasSigned(c, id, w, Journal.Step(w, Call(c, id, v)), v)
  {
    var e := Call(c, id, v);
    var disk := Journal.GetOrSign(c.chainId, w.disk, e.req, e.signed, _ => e.accepted).0;
    WaitingAccepts(c, id, w.disk, e, v);
    Journal.GetOrSignKeepsSound(c.chainId, w.disk, e.req, e.signed, _ => e.accepted);
    AcceptedIsLogged(c.chainId, w, e, disk, Stamp(64));
    var entry := Journal.Entry(c.chainId, e.req.Slot(), v.block, Stamp(64), disk != w.disk, true);
    OneMoreSigned(c, id, w, Journal.Step(w, e), entry, v);
  }

  /** A journal that opens signs whatever lies beyond its signatures. */
  lemma SignsBeyond(c: Committee, id: string, w: Journal.World, v: Choice)
    requires Signable(id, v) && Ready(c, id, w, v)
    ensures HasSigned(c, id, w, AfterVote(c, id, w, v), v)
  {
    OpenedIsWaiting(c, id, w, v);
    WaitingSigns(c, id, Journal.Step(w, Journal.OpenJournal(c.chainId)), v);
  }

  lemma NewIsReady(c: Committee, id: string, v: Choice)
    requires 0 < c.chainId
    ensures Ready(c, id, NEW_JOURNAL, v)
  {
    Journal.OpenSucceedsIff(c.chainId, NEW_JOURNAL.disk);
  }

  lemma ReadyForLater(c: Committee, id: string, w: Journal.World, w': Journal.World, v: Choice, later: Choice)
    requires HasSigned(c, id, w, w', v) && later.height == v.height && v.round < later.round
    ensures Ready(c, id, w', later)
  {
    Journal.ReopenIsIdentity(c.chainId, c.chainId, w'.disk);
  }

  /** A journal that has room signs one block in one round and then any other block in any later
      round of the same height. */
  lemma JournalSignsTwice(c: Committee, id: string, w: Journal.World, first: Choice, second: Choice)
    requires Signable(id, first) && Signable(id, second) && Ready(c, id, w, first)
    requires first.height == second.height && first.round < second.round
    ensures var w' := AfterVote(c, id, w, first);
            HasSigned(c, id, w, w', first) && HasSigned(c, id, w', AfterVote(c, id, w', second), second)
  {
    SignsBeyond(c, id, w, first);
    var w' := AfterVote(c, id, w, first);
    ReadyForLater(c, id, w, w', first, second);
    SignsBeyond(c, id, w', second);
  }

  // ------------------------------------------------------- everyone's signing

  ghost function Signing(c: Committee, ids: seq<string>, v: Choice): seq<Step> {
    if ids == [] then []
    else
      var (rest, last) := (ids[..|ids| - 1], ids[|ids| - 1]);
      Signing(c, rest, v) + [JournalStep(last, Journal.OpenJournal(c.chainId)), JournalStep(last, Call(c, last, v))]
  }

  /** The journals after these validators have voted. */
  ghost function Voted(c: Committee, journals: map<string, Journal.World>, ids: seq<string>, v: Choice)
    : map<string, Journal.World>
  {
    map id | id in journals :: if id in ids then AfterVote(c, id, journals[id], v) else journals[id]
  }

  lemma TwoSteps(c: Committee, s: System, id: string, first: Journal.Event, second: Journal.Event)
    requires id in s.journals
    ensures Agreement.Run(c, s, [JournalStep(id, first), JournalStep(id, second)]) ==
            s.(journals := s.journals[id := Journal.Step(Journal.Step(s.journals[id], first), second)])
  {
    var steps := [JournalStep(id, first), JournalStep(id, second)];
    assert steps[..1][..0] == [] && steps[..1] == [JournalStep(id, first)];
    assert Agreement.Run(c, s, steps[..1]) == Next(c, s, steps[0]);
  }

  lemma VotedGrows(c: Committee, journals: map<string, Journal.World>, ids: seq<string>, last: string, v: Choice)
    requires last in journals && last !in ids
    ensures Voted(c, journals, ids, v)[last := AfterVote(c, last, Voted(c, journals, ids, v)[last], v)] ==
            Voted(c, journals, ids + [last], v)
  {
  }

  /** Signing touches the journals of those who sign. */
  lemma {:induction false} SigningRuns(c: Committee, s: System, ids: seq<string>, v: Choice)
    requires forall id | id in ids :: id in s.journals
    requires Distinct(ids)
    ensures Agreement.Run(c, s, Signing(c, ids, v)) == s.(journals := Voted(c, s.journals, ids, v))
  {
    if ids == [] {
      assert Voted(c, s.journals, ids, v) == s.journals;
    } else {
      var (rest, last) := (ids[..|ids| - 1], ids[|ids| - 1]);
      SigningRuns(c, s, rest, v);
      var middle := Agreement.Run(c, s, Signing(c, rest, v));
      var (open, call) := (Journal.OpenJournal(c.chainId), Call(c, last, v));
      RunAppend(c, s, Signing(c, rest, v), [JournalStep(last, open), JournalStep(last, call)]);
      TwoSteps(c, middle, last, open, call);
      VotedGrows(c, s.journals, rest, last, v);
      assert rest + [last] == ids;
    }
  }

  /** A new journal after a vote or none, and then a vote or none. */
  ghost function History(c: Committee, id: string, first: Option<Choice>, second: Option<Choice>): Journal.World {
    var w := if first.Some? then AfterVote(c, id, NEW_JOURNAL, first.value) else NEW_JOURNAL;
    if second.Some? then AfterVote(c, id, w, second.value) else w
  }

  ghost predicate LogReleases(c: Committee, id: string, w: Journal.World, v: Choice) {
    exists i :: 0 <= i < |w.log| && Releases(w.log[i], c.chainId, (id, v.height, v.round), v.block)
  }

  ghost predicate Allows(allowed: iset<(int, int)>, id: string, v: Choice) {
    Signable(id, v) && (v.height, v.round) in allowed
  }

  /** One more vote adds one more release. */
  lemma SignedLog(c: Committee, id: string, w: Journal.World, w': Journal.World, v: Choice, allowed: iset<(int, int)>)
    requires HasSigned(c, id, w, w', v) && LogWithin(w, allowed) && (v.height, v.round) in allowed
    ensures LogReleases(c, id, w', v) && LogWithin(w', allowed)
    ensures forall other | LogReleases(c, id, w, other) :: LogReleases(c, id, w', other)
  {
    forall other | LogReleases(c, id, w, other)
      ensures LogReleases(c, id, w', other)
    {
      var i :| 0 <= i < |w.log| && Releases(w.log[i], c.chainId, (id, other.height, other.round), other.block);
      assert Releases(w'.log[i], c.chainId, (id, other.height, other.round), other.block);
    }
  }

  lemma SingleVote(c: Committee, id: string, v: Choice, allowed: iset<(int, int)>)
    requires 0 < c.chainId && Allows(allowed, id, v)
    ensures var w := AfterVote(c, id, NEW_JOURNAL, v);
            LogReleases(c, id, w, v) && LogWithin(w, allowed)
  {
    NewIsReady(c, id, v);
    SignsBeyond(c, id, NEW_JOURNAL, v);
    SignedLog(c, id, NEW_JOURNAL, AfterVote(c, id, NEW_JOURNAL, v), v, allowed);
  }

  lemma TwoVotes(c: Committee, id: string, first: Choice, second: Choice, allowed: iset<(int, int)>)
    requires 0 < c.chainId && Allows(allowed, id, first) && Allows(allowed, id, second)
    requires first.height == second.height && first.round < second.round
    ensures var w := AfterVote(c, id, AfterVote(c, id, NEW_JOURNAL, first), second);
            LogReleases(c, id, w, first) && LogReleases(c, id, w, second) && LogWithin(w, allowed)
  {
    NewIsReady(c, id, first);
    JournalSignsTwice(c, id, NEW_JOURNAL, first, second);
    var w := AfterVote(c, id, NEW_JOURNAL, first);
    SignedLog(c, id, NEW_JOURNAL, w, first, allowed);
    SignedLog(c, id, w, AfterVote(c, id, w, second), second, allowed);
  }

  lemma HistoryReleases(c: Committee, id: string, first: Option<Choice>, second: Option<Choice>,
                        allowed: iset<(int, int)>)
    requires 0 < c.chainId
    requires first.Some? ==> Allows(allowed, id, first.value)
    requires second.Some? ==> Allows(allowed, id, second.value)
    requires first.Some? && second.Some? ==>
               first.value.height == second.value.height && first.value.round < second.value.round
    ensures var w := History(c, id, first, second);
            && (first.Some? ==> LogReleases(c, id, w, first.value))
            && (second.Some? ==> LogReleases(c, id, w, second.value))
            && LogWithin(w, allowed)
  {
    match (first, second)
    case (Some(v), Some(v')) => TwoVotes(c, id, v, v', allowed);
    case (Some(v), None) => SingleVote(c, id, v, allowed);
    case (None, Some(v)) => SingleVote(c, id, v, allowed);
    case (None, None) =>
  }

  // -------------------------------------------------------------------- camps

  /** Voters for one choice. */
  datatype Camp = Camp(voters: set<string>, choice: Choice)

  ghost predicate MaySign(byzantine: set<string>, allowed: iset<(int, int)>, camp: Camp) {
    forall id | id in camp.voters - byzantine :: Allows(allowed, id, camp.choice)
  }

  /** No honest validator is in both camps of one round. */
  ghost predicate Parting(byzantine: set<string>, x: Camp, y: Camp) {
    x.choice.height == y.choice.height && (x.choice.round == y.choice.round ==> x.voters * y.voters <= byzantine)
  }

  /** A vote of this validator would be taken as genuine. */
  ghost predicate MayVote(c: Committee, s: System, id: string, v: Choice) {
    id in Honest(s) ==> Released(s, c.chainId, id, v.height, v.round, v.block)
  }

  ghost predicate CampMayVote(c: Committee, s: System, camp: Camp) {
    forall id | id in camp.voters :: MayVote(c, s, id, camp.choice)
  }

  ghost function HonestOf(byzantine: set<string>, camp: Camp): seq<string> {
    SortNames(camp.voters - byzantine)
  }

  lemma HonestOfListed(byzantine: set<string>, camp: Camp)
    ensures forall id :: id in HonestOf(byzantine, camp) <==> id in camp.voters - byzantine
    ensures Distinct(HonestOf(byzantine, camp))
  {
    SortNamesLists(camp.voters - byzantine);
    LexIsStrictTotal();
  }

  ghost function Part(byzantine: set<string>, camp: Camp, id: string): Option<Choice> {
    if id in camp.voters - byzantine then Some(camp.choice) else None
  }

  /** The system once both camps have signed, one after the other. */
  ghost predicate BothSigned(c: Committee, byzantine: set<string>, s: System, end: System, x: Camp, y: Camp) {
    && end.replicas == s.replicas
    && end.journals.Keys == c.powers.Keys - byzantine
    && forall id | id in end.journals ::
       end.journals[id] == History(c, id, Part(byzantine, x, id), Part(byzantine, y, id))
  }

  ghost predicate VotedTwice(c: Committee, byzantine: set<string>, journals: map<string, Journal.World>,
                             journals': map<string, Journal.World>, x: Camp, y: Camp) {
    journals' == Voted(c, Voted(c, journals, HonestOf(byzantine, x), x.choice), HonestOf(byzantine, y), y.choice)
  }

  lemma SigningIsVoting(c: Committee, byzantine: set<string>, s: System, x: Camp, y: Camp)
    requires x.voters <= c.powers.Keys && y.voters <= c.powers.Keys && s.journals.Keys == c.powers.Keys - byzantine
    ensures var (first, second) := (Signing(c, HonestOf(byzantine, x), x.choice),
                                    Signing(c, HonestOf(byzantine, y), y.choice));
            var end := Agreement.Run(c, s, first + second);
            VotedTwice(c, byzantine, s.journals, end.journals, x, y) && end.replicas == s.replicas
  {
    var (ids, ids') := (HonestOf(byzantine, x), HonestOf(byzantine, y));
    HonestOfListed(byzantine, x);
    HonestOfListed(byzantine, y);
    SigningRuns(c, s, ids, x.choice);
    SigningRuns(c, s.(journals := Voted(c, s.journals, ids, x.choice)), ids', y.choice);
    RunAppend(c, s, Signing(c, ids, x.choice), Signing(c, ids', y.choice));
  }

  lemma VotedTwiceIsHistory(c: Committee, byzantine: set<string>, s: System, end: System, x: Camp, y: Camp)
    requires s.journals == map id | id in c.powers.Keys - byzantine :: NEW_JOURNAL
    requires VotedTwice(c, byzantine, s.journals, end.journals, x, y) && end.replicas == s.replicas
    ensures BothSigned(c, byzantine, s, end, x, y)
  {
    HonestOfListed(byzantine, x);
    HonestOfListed(byzantine, y);
  }

  lemma CampsSignInTurn(c: Committee, byzantine: set<string>, height: int, x: Camp, y: Camp)
    requires x.voters <= c.powers.Keys && y.voters <= c.powers.Keys
    ensures var (s, first, second) := (Beginning(c, byzantine, height), Signing(c, HonestOf(byzantine, x), x.choice),
                                       Signing(c, HonestOf(byzantine, y), y.choice));
            BothSigned(c, byzantine, s, Agreement.Run(c, s, first + second), x, y)
  {
    var s := Beginning(c, byzantine, height);
    SigningIsVoting(c, byzantine, s, x, y);
    var (first, second) := (Signing(c, HonestOf(byzantine, x), x.choice), Signing(c, HonestOf(byzantine, y), y.choice));
    VotedTwiceIsHistory(c, byzantine, s, Agreement.Run(c, s, first + second), x, y);
  }

  lemma BothMayVote(c: Committee, byzantine: set<string>, allowed: iset<(int, int)>, s: System, end: System, x: Camp,
                    y: Camp)
    requires 0 < c.chainId && BothSigned(c, byzantine, s, end, x, y)
    requires MaySign(byzantine, allowed, x) && MaySign(byzantine, allowed, y)
    requires Parting(byzantine, x, y) && x.choice.round <= y.choice.round
    ensures CampMayVote(c, end, x) && CampMayVote(c, end, y) && SignsOnlyIn(end, allowed)
  {
    forall id | id in end.journals
      ensures LogWithin(end.journals[id], allowed)
      ensures id in x.voters ==> LogReleases(c, id, end.journals[id], x.choice)
      ensures id in y.voters ==> LogReleases(c, id, end.journals[id], y.choice)
    {
      HistoryReleases(c, id, Part(byzantine, x, id), Part(byzantine, y, id), allowed);
    }
  }

  /** Nothing has happened but signing, and the votes of both camps are there. */
  ghost predicate ReadyToDeliver(c: Committee, s: System, end: System, allowed: iset<(int, int)>, x: Camp, y: Camp) {
    && end.replicas == s.replicas && end.journals.Keys == s.journals.Keys
    && CampMayVote(c, end, x) && CampMayVote(c, end, y) && SignsOnlyIn(end, allowed)
  }

  /** The camp with the earlier round signs first. */
  lemma CampsSign(c: Committee, byzantine: set<string>, allowed: iset<(int, int)>, height: int, x: Camp, y: Camp)
    returns (steps: seq<Step>)
    requires 0 < c.chainId && x.voters <= c.powers.Keys && y.voters <= c.powers.Keys
    requires MaySign(byzantine, allowed, x) && MaySign(byzantine, allowed, y) && Parting(byzantine, x, y)
    ensures var s := Beginning(c, byzantine, height);
            ReadyToDeliver(c, s, Agreement.Run(c, s, steps), allowed, x, y)
  {
    var s := Beginning(c, byzantine, height);
    if x.choice.round <= y.choice.round {
      CampsSignInTurn(c, byzantine, height, x, y);
      steps := Signing(c, HonestOf(byzantine, x), x.choice) + Signing(c, HonestOf(byzantine, y), y.choice);
      BothMayVote(c, byzantine, allowed, s, Agreement.Run(c, s, steps), x, y);
    } else {
      CampsSignInTurn(c, byzantine, height, y, x);
      steps := Signing(c, HonestOf(byzantine, y), y.choice) + Signing(c, HonestOf(byzantine, x), x.choice);
      BothMayVote(c, byzantine, allowed, s, Agreement.Run(c, s, steps), y, x);
    }
  }

  // ----------------------------------------------------------------- delivery

  ghost function VoteOf(c: Committee, id: string, v: Choice): Vote {
    Vote(c.chainId, v.height, v.round, v.block, id, Stamp(64))
  }

  ghost function Deliveries(c: Committee, ids: seq<string>, v: Choice): seq<Delivery> {
    seq(|ids|, i requires 0 <= i < |ids| => Delivery(VoteOf(c, ids[i], v), true))
  }

  ghost function Delivering(c: Committee, r: int, ids: seq<string>, v: Choice): seq<Step> {
    seq(|ids|, i requires 0 <= i < |ids| => DeliverStep(r, VoteOf(c, ids[i], v), true))
  }

  lemma SameJournalsMayVote(c: Committee, s: System, s': System, id: string, v: Choice)
    requires MayVote(c, s, id, v) && s'.journals == s.journals
    ensures MayVote(c, s', id, v)
  {
    if id in Honest(s') {
      assert LogReleases(c, id, s.journals[id], v);
    }
  }

  lemma DeliverOne(c: Committee, s: System, before: System, r: int, replica: Replica, id: string, v: Choice)
    requires r in s.replicas && IsCanonicalHash(v.block) && MayVote(c, s, id, v)
    requires before == s.(replicas := s.replicas[r := replica])
    ensures Next(c, before, DeliverStep(r, VoteOf(c, id, v), true)) ==
            s.(replicas := s.replicas[r := Receive(c, replica, VoteOf(c, id, v), true)])
  {
    CanonicalHashIsLower(v.block);
    SameJournalsMayVote(c, s, before, id, v);
    assert Verdict(before, VoteOf(c, id, v), true);
  }

  /** A replica that is sent genuine votes takes them as its own machine would. */
  lemma {:induction false} ReplicaRuns(c: Committee, s: System, r: int, ids: seq<string>, v: Choice)
    requires r in s.replicas && IsCanonicalHash(v.block)
    requires forall id | id in ids :: MayVote(c, s, id, v)
    ensures var Replica(k, m) := s.replicas[r];
            Agreement.Run(c, s, Delivering(c, r, ids, v)) ==
            s.(replicas := s.replicas[r := Replica(k, Finality.Run(From(c, k), m, Deliveries(c, ids, v)))])
  {
    var (steps, ds) := (Delivering(c, r, ids, v), Deliveries(c, ids, v));
    var Replica(k, m) := s.replicas[r];
    if ids == [] {
      assert s.replicas[r := s.replicas[r]] == s.replicas;
    } else {
      var n := |ids| - 1;
      ReplicaRuns(c, s, r, ids[..n], v);
      assert steps[..n] == Delivering(c, r, ids[..n], v);
      assert ds[..n] == Deliveries(c, ids[..n], v);
      DeliverOne(c, s, Agreement.Run(c, s, steps[..n]), r, Replica(k, Finality.Run(From(c, k), m, ds[..n])), ids[n], v);
    }
  }

  ghost predicate IsQuorum(c: Committee, voters: set<string>) {
    voters <= c.powers.Keys && Weight(c.powers, voters) >= c.Quorum()
  }

  /** The choice can be finalized next. */
  ghost predicate IsNext(c: Committee, v: Choice) {
    0 <= v.height && c.checkpoint <= v.height <= c.checkpoint + 1 && 0 <= v.round && IsCanonicalHash(v.block)
  }

  /** Votes of a quorum for one block finalize it. */
  lemma QuorumFinalizes(c: Committee, voters: set<string>, v: Choice)
    requires c.Valid() && IsQuorum(c, voters) && IsNext(c, v)
    ensures var m := Finality.Run(c, FRESH, Deliveries(c, SortNames(voters), v));
            v.height in m.finalized && m.finalized[v.height].blockHash == v.block &&
              m.finalized[v.height].round == v.round
  {
    var ids := SortNames(voters);
    var ds := Deliveries(c, ids, v);
    SortNamesLists(voters);
    FreshInvariant(c);
    CanonicalHashIsLower(v.block);
    LexIsStrictTotal();
    assert OneRound(c, v.height, v.round, ds);
    SupportersAreVoters(c, voters, v);
    FinalizedIffQuorum(c, FRESH, v.height, v.round, ds);
    assert Support(c, Ballots(ds), v.block) >= c.Quorum();
    QuorumBlockUnique(c, Ballots(ds), Finality.Run(c, FRESH, ds).finalized[v.height].blockHash, v.block);
  }

  lemma SupportersAreVoters(c: Committee, voters: set<string>, v: Choice)
    requires voters <= c.powers.Keys && IsCanonicalHash(v.block)
    requires OneRound(c, v.height, v.round, Deliveries(c, SortNames(voters), v))
    ensures Supporters(c, Ballots(Deliveries(c, SortNames(voters), v)), v.block) == voters
  {
    var ids := SortNames(voters);
    var ds := Deliveries(c, ids, v);
    SortNamesLists(voters);
    CanonicalHashIsLower(v.block);
    forall id | id in c.powers
      ensures id in voters <==> id in Ballots(ds)
      ensures id in voters ==> id in Ballots(ds) && Ballots(ds)[id].blockHash == v.block
    {
      BallotsContain(ds, id);
      if id in voters {
        var i :| 0 <= i < |ids| && ids[i] == id;
        BallotsLookup(c, v.height, v.round, ds, i);
        assert ds[i].vote.validatorId == id;
      }
    }
  }

  ghost predicate HoldsFor(s: System, r: int, v: Choice) {
    && r in s.replicas && v.height in s.replicas[r].machine.finalized
    && s.replicas[r].machine.finalized[v.height].round == v.round
    && s.replicas[r].machine.finalized[v.height].blockHash == v.block
  }

  /** What an empty replica with this checkpoint makes of the votes for a choice. */
  ghost function Outcome(c: Committee, checkpoint: int, voters: set<string>, v: Choice): Machine {
    Finality.Run(From(c, checkpoint), FRESH, Deliveries(c, SortNames(voters), v))
  }

  lemma OutcomeIsFinal(c: Committee, voters: set<string>, v: Choice)
    requires c.Valid() && IsQuorum(c, voters) && IsNext(From(c, v.height - 1), v)
    ensures var m := Outcome(c, v.height - 1, voters, v);
            v.height in m.finalized && m.finalized[v.height].blockHash == v.block &&
              m.finalized[v.height].round == v.round
  {
    QuorumFinalizes(From(c, v.height - 1), voters, v);
    assert Deliveries(From(c, v.height - 1), SortNames(voters), v) == Deliveries(c, SortNames(voters), v);
  }

  lemma CampOutcome(c: Committee, s: System, r: int, camp: Camp)
    requires IsCanonicalHash(camp.choice.block) && CampMayVote(c, s, camp)
    requires r in s.replicas && s.replicas[r] == Replica(camp.choice.height - 1, FRESH)
    ensures Agreement.Run(c, s, Delivering(c, r, SortNames(camp.voters), camp.choice)) ==
            s.(replicas := s.replicas[r :=
              Replica(camp.choice.height - 1, Outcome(c, camp.choice.height - 1, camp.voters, camp.choice))])
  {
    SortNamesLists(camp.voters);
    ReplicaRuns(c, s, r, SortNames(camp.voters), camp.choice);
  }

  /** An empty replica just below the height that is sent the votes of a camp finalizes its choice. */
  lemma CampFinalizes(c: Committee, s: System, r: int, camp: Camp)
    requires c.Valid() && IsQuorum(c, camp.voters) && IsNext(From(c, camp.choice.height - 1), camp.choice)
    requires r in s.replicas && s.replicas[r] == Replica(camp.choice.height - 1, FRESH) && CampMayVote(c, s, camp)
    ensures var end := Agreement.Run(c, s, Delivering(c, r, SortNames(camp.voters), camp.choice));
            && HoldsFor(end, r, camp.choice)
            && end.journals == s.journals
            && end.replicas.Keys == s.replicas.Keys
            && forall other | other in s.replicas && other != r :: end.replicas[other] == s.replicas[other]
  {
    CampOutcome(c, s, r, camp);
    OutcomeIsFinal(c, camp.voters, camp.choice);
  }

  lemma KeepsHolding(s: System, s': System, r: int, v: Choice)
    requires HoldsFor(s, r, v) && r in s'.replicas && s'.replicas[r] == s.replicas[r]
    ensures HoldsFor(s', r, v)
  {
  }

  lemma StillMayVote(c: Committee, s: System, s': System, camp: Camp)
    requires CampMayVote(c, s, camp) && s'.journals == s.journals
    ensures CampMayVote(c, s', camp)
  {
    forall id | id in camp.voters
      ensures MayVote(c, s', id, camp.choice)
    {
      SameJournalsMayVote(c, s, s', id, camp.choice);
    }
  }

  /** Two quorums whose votes are there, and two empty replicas just below their height. */
  ghost predicate AtTheParting(c: Committee, s: System, x: Camp, y: Camp) {
    && IsQuorum(c, x.voters) && IsQuorum(c, y.voters) && CampMayVote(c, s, x) && CampMayVote(c, s, y)
    && x.choice.height == y.choice.height
    && IsNext(From(c, x.choice.height - 1), x.choice) && IsNext(From(c, y.choice.height - 1), y.choice)
    && s.replicas.Keys == {0, 1}
    && s.replicas[0] == s.replicas[1] == Replica(x.choice.height - 1, FRESH)
  }

  /** One replica is sent the votes of the one camp, the other replica those of the other. */
  lemma ReplicasPart(c: Committee, s: System, x: Camp, y: Camp, first: seq<Step>, second: seq<Step>)
    requires c.Valid() && AtTheParting(c, s, x, y)
    requires first == Delivering(c, 0, SortNames(x.voters), x.choice)
    requires second == Delivering(c, 1, SortNames(y.voters), y.choice)
    ensures var end := Agreement.Run(c, s, first + second);
            HoldsFor(end, 0, x.choice) && HoldsFor(end, 1, y.choice) && end.journals == s.journals
  {
    RunAppend(c, s, first, second);
    CampFinalizes(c, s, 0, x);
    var half := Agreement.Run(c, s, first);
    StillMayVote(c, s, half, y);
    CampFinalizes(c, half, 1, y);
    KeepsHolding(half, Agreement.Run(c, half, second), 0, x.choice);
  }

  lemma BeginningIsInitial(c: Committee, byzantine: set<string>, height: int)
    requires 0 <= height && byzantine <= c.powers.Keys
    ensures Initial(Beginning(c, byzantine, height)) && Byzantine(c, Beginning(c, byzantine, height)) == byzantine
  {
  }

  /** Two quorums that may part and may each sign its own block can finalize one height differently. */
  lemma CampsCanDisagree(c: Committee, byzantine: set<string>, allowed: iset<(int, int)>, x: Camp, y: Camp)
    returns (s: System, steps: seq<Step>)
    requires c.Valid() && byzantine <= c.powers.Keys && IsQuorum(c, x.voters) && IsQuorum(c, y.voters)
    requires IsNext(From(c, x.choice.height - 1), x.choice) && IsNext(From(c, y.choice.height - 1), y.choice)
    requires MaySign(byzantine, allowed, x) && MaySign(byzantine, allowed, y) && Parting(byzantine, x, y)
    ensures Initial(s) && Byzantine(c, s) == byzantine
    ensures var end := Agreement.Run(c, s, steps);
            SignsOnlyIn(end, allowed) && HoldsFor(end, 0, x.choice) && HoldsFor(end, 1, y.choice)
  {
    var height := x.choice.height;
    s := Beginning(c, byzantine, height);
    BeginningIsInitial(c, byzantine, height);
    var signing := CampsSign(c, byzantine, allowed, height, x, y);
    var (first, second) := (Delivering(c, 0, SortNames(x.voters), x.choice),
                            Delivering(c, 1, SortNames(y.voters), y.choice));
    steps := signing + (first + second);
    RunAppend(c, s, signing, first + second);
    ReplicasPart(c, Agreement.Run(c, s, signing), x, y, first, second);
  }

  ghost predicate Nameable(c: Committee) {
    forall id | id in c.powers :: Journal.IsValidatorId(id)
  }

  /** Agreement stops at the round: for any committee of names that the journal takes, any height
      above 0, any two rounds and any two blocks, some run without a single Byzantine validator, in
      which everybody signs in these two rounds only, leaves two replicas with certificates of the
      height for the two blocks. */
  lemma RoundsCanDisagree(c: Committee, height: int, rounds: (int, int), blocks: (string, string))
    returns (s: System, steps: seq<Step>)
    requires c.Valid() && Nameable(c) && 0 < height && 0 <= rounds.0 && 0 <= rounds.1 && rounds.0 != rounds.1
    requires IsCanonicalHash(blocks.0) && IsCanonicalHash(blocks.1)
    ensures Initial(s) && Byzantine(c, s) == {}
    ensures var end := Agreement.Run(c, s, steps);
            && SignsOnlyIn(end, iset{(height, rounds.0), (height, rounds.1)})
            && HoldsFor(end, 0, Choice(height, rounds.0, blocks.0))
            && HoldsFor(end, 1, Choice(height, rounds.1, blocks.1))
  {
    var x := Camp(c.powers.Keys, Choice(height, rounds.0, blocks.0));
    var y := Camp(c.powers.Keys, Choice(height, rounds.1, blocks.1));
    s, steps := CampsCanDisagree(c, {}, iset{(height, rounds.0), (height, rounds.1)}, x, y);
  }
}
