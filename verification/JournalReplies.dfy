/** What a signing call is answered: for sound tables, for any later time, and for whom it was asked. */
module JournalReplies {
  import opened Prelude
  import opened SigningJournal
  import opened Votes

  /** A request the journal can sign at all: every field in its form, and the payload that of the vote. */
  predicate SoundRequest(chainId: int, req: Request) {
    && IsValidatorId(req.validatorId) && 1 <= req.height && 0 <= req.round && IsCanonicalHash(req.blockHash)
    && req.payload == CanonicalVote(req.blockHash, chainId, req.height, req.round, req.validatorId)
  }

  predicate IsBeyond(slot: Slot, id: string, height: int, round: int) {
    slot.0 == id && (slot.1 > height || (slot.1 == height && slot.2 > round))
  }

  /** The validator has signed at a place beyond this one. */
  ghost predicate SignedBeyond(disk: Disk, id: string, height: int, round: int) {
    exists slot :: slot in disk.rows && IsBeyond(slot, id, height, round)
  }

  lemma BelowWatermarkIff(chainId: int, disk: Disk, req: Request)
    requires Sound(chainId, disk)
    ensures (req.validatorId in disk.marks && Before(MarkOf(req.Slot()), disk.marks[req.validatorId])) <==>
            SignedBeyond(disk, req.validatorId, req.height, req.round)
  {
    var id := req.validatorId;
    if id in disk.marks {
      assert IsLatest(disk.rows, id, disk.marks[id]);
      assert (id, disk.marks[id].height, disk.marks[id].round) in disk.rows;
    }
    if slot :| slot in disk.rows && IsBeyond(slot, id, req.height, req.round) {
      assert slot.0 in Signers(disk.rows);
    }
  }

  lemma SoundRequestIff(chainId: int, req: Request)
    ensures SoundRequest(chainId, req) <==> RequestError(chainId, req).None?
  {
  }

  /** The stored signature answers the request. */
  ghost predicate Replays(disk: Disk, req: Request, verifier: Bytes -> bool) {
    var slot := (req.validatorId, req.height, req.round);
    slot in disk.rows && disk.rows[slot].blockHash == req.blockHash && verifier(disk.rows[slot].signature)
  }

  /** The signer's answer can be stored: nothing is signed here or beyond, and the signature has an
      accepted length and verifies. */
  ghost predicate Creates(disk: Disk, req: Request, signed: Option<Bytes>, verifier: Bytes -> bool) {
    && (req.validatorId, req.height, req.round) !in disk.rows
    && !SignedBeyond(disk, req.validatorId, req.height, req.round)
    && signed.Some? && (|signed.value| == 64 || |signed.value| == 65) && verifier(signed.value)
  }

  /** A call on sound tables is answered exactly when the request is sound and the stored signature
      verifies or a new one can be stored. The answer verifies and is what the tables then hold; a
      stored signature leaves them alone, a new one is all that is added. */
  lemma AnsweredIff(chainId: int, disk: Disk, req: Request, signed: Option<Bytes>, verifier: Bytes -> bool)
    requires Sound(chainId, disk)
    ensures var ((disk', r), slot) := (GetOrSign(chainId, disk, req, signed, verifier),
                                       (req.validatorId, req.height, req.round));
            && (r.Ok? <==>
                  SoundRequest(chainId, req) && (Replays(disk, req, verifier) || Creates(disk, req, signed, verifier)))
            && (r.Ok? ==> verifier(r.value) && slot in disk'.rows && disk'.rows[slot].signature == r.value
                          && disk'.rows[slot].blockHash == req.blockHash)
            && (r.Ok? && slot in disk.rows ==> r.value == disk.rows[slot].signature)
            && (r.Ok? && slot !in disk.rows ==> signed == Some(r.value) && disk'.rows.Keys == disk.rows.Keys + {slot})
            && (forall other | other in disk.rows :: other in disk'.rows && disk'.rows[other] == disk.rows[other])
            && (r.Err? || slot in disk.rows ==> disk' == disk)
            && disk'.chain == disk.chain
  {
    SoundRequestIff(chainId, req);
    BelowWatermarkIff(chainId, disk, req);
    if req.Slot() in disk.rows {
      assert CanonicalRow(chainId, req.Slot(), disk.rows[req.Slot()]);
    }
  }

  /** Why a sound request is refused. */
  lemma RefusedIff(chainId: int, disk: Disk, req: Request, signed: Option<Bytes>, verifier: Bytes -> bool)
    requires Sound(chainId, disk) && SoundRequest(chainId, req)
    ensures var (r, slot) := (GetOrSign(chainId, disk, req, signed, verifier).1,
                              (req.validatorId, req.height, req.round));
            var fresh' := slot !in disk.rows && !SignedBeyond(disk, req.validatorId, req.height, req.round);
            && (r == Err(WouldDoubleSign) <==> slot in disk.rows && disk.rows[slot].blockHash != req.blockHash)
            && (r == Err(BelowWatermark) <==>
                  slot !in disk.rows && SignedBeyond(disk, req.validatorId, req.height, req.round))
            && (r == Err(SignerFailed) <==> fresh' && signed.None?)
            && (r == Err(InvalidSignature) <==> fresh' && signed.Some? && |signed.value| != 64 && |signed.value| != 65)
            && (r == Err(VerificationFailed) <==>
                  || (slot in disk.rows && disk.rows[slot].blockHash == req.blockHash &&
                      !verifier(disk.rows[slot].signature))
                  || (fresh' && signed.Some? && |signed.value| in {64, 65} && !verifier(signed.value)))
  {
    SoundRequestIff(chainId, req);
    BelowWatermarkIff(chainId, disk, req);
    if req.Slot() in disk.rows {
      assert CanonicalRow(chainId, req.Slot(), disk.rows[req.Slot()]);
    }
  }

  /** Each fault of a request is reported exactly when it is the first one. */
  lemma RequestErrorIff(chainId: int, disk: Disk, req: Request, signed: Option<Bytes>, verifier: Bytes -> bool)
    ensures var r := GetOrSign(chainId, disk, req, signed, verifier).1;
            var placed := IsValidatorId(req.validatorId) && 1 <= req.height && 0 <= req.round;
            && (r == Err(InvalidValidatorId) <==> !IsValidatorId(req.validatorId))
            && (r == Err(HeightNotPositive) <==> IsValidatorId(req.validatorId) && req.height < 1)
            && (r == Err(NegativeRound) <==> IsValidatorId(req.validatorId) && 1 <= req.height && req.round < 0)
            && (r == Err(BlockHashNotCanonical) <==> placed && !IsCanonicalHash(req.blockHash))
            && (r == Err(EmptyPayload) <==> placed && IsCanonicalHash(req.blockHash) && req.payload == OtherBytes([]))
            && (r == Err(PayloadMismatch) <==>
                  && placed && IsCanonicalHash(req.blockHash) && req.payload != OtherBytes([])
                  && req.payload != CanonicalVote(req.blockHash, chainId, req.height, req.round, req.validatorId))
  {
  }

  // --------------------------------------------------------------------- runs

  lemma {:induction false} RunAppend(w: World, a: seq<Event>, b: seq<Event>)
    ensures Run(w, a + b) == Run(Run(w, a), b)
  {
    if b == [] {
      assert a + b == a;
    } else {
      var n := |b| - 1;
      assert (a + b)[..|a + b| - 1] == a + b[..n];
      RunAppend(w, a, b[..n]);
    }
  }

  lemma {:induction false} LogGrows(w: World, es: seq<Event>)
    ensures w.log <= Run(w, es).log
  {
    if es != [] { LogGrows(w, es[..|es| - 1]); }
  }

  /** The request for the vote that a log entry is about. */
  ghost function Again(entry: Entry): Request {
    var (id, height, round) := entry.slot;
    Request(id, height, round, entry.blockHash, CanonicalVote(entry.blockHash, entry.chainId, height, round, id))
  }

  /** What a journal once signed it returns ever after: in any later history, whatever was opened,
      signed, crashed and reopened, an open journal that is asked for the same vote answers with the
      very signature exactly when that verifies, and changes nothing. */
  lemma SignedIsReturnedAgain(disk: Disk, es: seq<Event>, later: seq<Event>, i: nat, signed: Option<Bytes>,
                              verifier: Bytes -> bool)
    requires i < |Run(World(disk, None, []), es).log|
    requires Run(World(disk, None, []), es + later).handle.Some?
    ensures var (entry, w) := (Run(World(disk, None, []), es).log[i], Run(World(disk, None, []), es + later));
            && w.handle == Some(entry.chainId)
            && GetOrSign(entry.chainId, w.disk, Again(entry), signed, verifier) ==
               (w.disk, if verifier(entry.signature) then Ok(entry.signature) else Err(VerificationFailed))
  {
    var start := World(disk, None, []);
    var (before, w) := (Run(start, es), Run(start, es + later));
    RunAppend(start, es, later);
    LogGrows(before, later);
    NeverDoubleSigns(disk, es + later);
    var entry := before.log[i];
    assert w.log[i] == entry && Backed(w.disk, entry);
    assert CanonicalRow(entry.chainId, entry.slot, w.disk.rows[entry.slot]);
    SoundRequestIff(entry.chainId, Again(entry));
  }

  /** The call that put an entry into the log: it was for the entry's vote, its signature was
      accepted, and it ended as the entry says. */
  ghost predicate ComesFrom(entry: Entry, e: Event) {
    && e.SignCall? && e.accepted
    && e.req.validatorId == entry.slot.0 && e.req.height == entry.slot.1 && e.req.round == entry.slot.2
    && e.req.blockHash == entry.blockHash
    && e.req.payload == CanonicalVote(entry.blockHash, entry.chainId, entry.slot.1, entry.slot.2, entry.slot.0)
    && (if entry.returned then e.fate == Returns else e.fate == DiesAfterCommit)
    && (entry.created ==> e.signed == Some(entry.signature))
  }

  lemma SignedComesFrom(w: World, chainId: int, e: Event)
    requires e.SignCall? && w.handle == Some(chainId) && Sound(chainId, w.disk)
    ensures var w' := Sign(w, chainId, e);
            w'.log == w.log || (|w'.log| == |w.log| + 1 && w.log <= w'.log && ComesFrom(w'.log[|w.log|], e))
  {
    AnsweredIff(chainId, w.disk, e.req, e.signed, _ => e.accepted);
  }

  /** Over runs: every signature in the log, and so every one handed out, comes from an accepted call. */
  lemma {:induction false} LoggedWasAccepted(disk: Disk, es: seq<Event>, i: nat) returns (n: nat)
    requires i < |Run(World(disk, None, []), es).log|
    ensures n < |es| && ComesFrom(Run(World(disk, None, []), es).log[i], es[n])
  {
    if es == [] {
      assert false;
    }
    var (before, last) := (es[..|es| - 1], es[|es| - 1]);
    var w := Run(World(disk, None, []), before);
    NeverDoubleSigns(disk, before);
    if i < |w.log| {
      n := LoggedWasAccepted(disk, before, i);
      LogStepGrows(w, last);
      assert before[n] == es[n];
    } else {
      n := |es| - 1;
      SignedComesFrom(w, w.handle.value, last);
    }
  }

  lemma LogStepGrows(w: World, e: Event)
    ensures w.log <= Step(w, e).log
  {
  }

  /** What a call leaves: answered and not lost before the commit, its tables and one log entry;
      otherwise nothing. The journal stays open exactly when the call returns. */
  lemma CallEffect(w: World, e: Event)
    requires e.SignCall? && w.handle.Some?
    ensures var (w', (disk', r)) := (Step(w, e), GetOrSign(w.handle.value, w.disk, e.req, e.signed, _ => e.accepted));
            && (if r.Ok? && e.fate != DiesBeforeCommit then
                  && w'.disk == disk'
                  && w'.log == w.log + [Entry(w.handle.value, (e.req.validatorId, e.req.height, e.req.round),
                                              e.req.blockHash, r.value, disk' != w.disk, e.fate == Returns)]
                else w'.disk == w.disk && w'.log == w.log)
            && w'.handle == (if e.fate == Returns then w.handle else None)
  {
  }

  /** Why opening fails, and what it has written by then: nothing on another chain, only the chain
      when a stored maximum cannot be a watermark. */
  lemma OpeningFailsIff(chainId: int, disk: Disk)
    ensures var (disk', r) := Open(chainId, disk);
            && (r == Err(ChainIdNotPositive) <==> chainId <= 0)
            && (r == Err(WrongChain) <==> 0 < chainId && disk.chain.Some? && disk.chain.value != chainId)
            && (r.Err? && r.error != IntegrityCheckFailed ==> disk' == disk)
            && disk'.rows == disk.rows
            && (r.Ok? || r == Err(IntegrityCheckFailed) ==> disk'.chain == Some(chainId))
  {
  }

  /** A stored row as the journal itself would have written it: a name without white space, a place that
      can be voted at, a hash in canonical form, the digest of that vote and a signature of its length. */
  ghost predicate WrittenBy(chainId: int, slot: Slot, row: Row) {
    && slot.0 != "" && (forall c | c in slot.0 :: !IsSpace(c)) && 1 <= slot.1 && 0 <= slot.2
    && IsCanonicalHash(row.blockHash)
    && row.digest == PayloadDigest(CanonicalVote(row.blockHash, chainId, slot.1, slot.2, slot.0))
    && (|row.signature| == 64 || |row.signature| == 65)
  }

  lemma WrittenByIff(chainId: int, slot: Slot, row: Row)
    ensures CanonicalRow(chainId, slot, row) <==> WrittenBy(chainId, slot, row)
  {
    if forall c | c in slot.0 :: !IsSpace(c) {
      assert forall i | 0 <= i < |slot.0| :: slot.0[i] in slot.0;
    }
  }

  /** No stored signature of the validator is at the watermark or beyond it. */
  ghost predicate Overshoots(disk: Disk, id: string) {
    id in disk.marks && forall slot | slot in disk.rows && slot.0 == id ::
      slot.1 < disk.marks[id].height || (slot.1 == disk.marks[id].height && slot.2 < disk.marks[id].round)
  }

  lemma OvershootsIff(disk: Disk, id: string)
    requires id in disk.marks
    ensures Overshoots(disk, id) <==> !Reached(disk.rows, id, disk.marks[id])
  {
  }

  /** A journal opens exactly on its own chain or none, when every stored row is as the journal would have
      written it and no watermark lies beyond the signatures of its validator. */
  lemma OpensIff(chainId: int, disk: Disk)
    ensures Open(chainId, disk).1.Ok? <==>
              && 1 <= chainId && (disk.chain == None || disk.chain == Some(chainId))
              && (forall slot | slot in disk.rows :: WrittenBy(chainId, slot, disk.rows[slot]))
              && (forall id | id in disk.marks :: !Overshoots(disk, id))
  {
    OpenSucceedsIff(chainId, disk);
    forall slot | slot in disk.rows
      ensures CanonicalRow(chainId, slot, disk.rows[slot]) <==> WrittenBy(chainId, slot, disk.rows[slot])
    {
      WrittenByIff(chainId, slot, disk.rows[slot]);
    }
    forall id | id in disk.marks
      ensures Overshoots(disk, id) <==> !Reached(disk.rows, id, disk.marks[id])
    {
      OvershootsIff(disk, id);
    }
  }

  /** Some validator's greatest signature is at a place that the watermark table refuses. */
  ghost predicate Unmarkable(disk: Disk) {
    exists slot :: slot in disk.rows && IsLatest(disk.rows, slot.0, MarkOf(slot)) && (slot.1 < 1 || slot.2 < 0)
  }

  lemma UnmarkableIff(disk: Disk)
    ensures Unmarkable(disk) <==> !Storable(Latest(disk.rows))
  {
    var latest := Latest(disk.rows);
    if slot :| slot in disk.rows && IsLatest(disk.rows, slot.0, MarkOf(slot)) && (slot.1 < 1 || slot.2 < 0) {
      LatestUnique(disk.rows, slot.0, MarkOf(slot));
    }
    if !Storable(latest) {
      var id :| id in latest && !(0 < latest[id].height && 0 <= latest[id].round);
      var slot := (id, latest[id].height, latest[id].round);
      assert slot in disk.rows && IsLatest(disk.rows, slot.0, MarkOf(slot));
    }
  }

  /** What opening on the right chain leaves in the watermarks, whether it succeeds or not: as they were
      if a greatest signature cannot be marked, and otherwise raised. */
  lemma OpeningMarks(chainId: int, disk: Disk)
    requires 1 <= chainId && (disk.chain == None || disk.chain == Some(chainId))
    ensures Open(chainId, disk).0.marks == if Unmarkable(disk) then disk.marks else Restored(disk)
  {
    UnmarkableIff(disk);
  }

  lemma ClosingOnlyCloses(w: World)
    ensures Step(w, CloseJournal) == World(w.disk, None, w.log)
  {
  }
}
