/** The anti-double-signing journal: what one call does to the stored tables, what
    opening does, and what any sequence of openings, calls and crashes keeps. */
module SigningJournal {
  import opened Prelude
  import opened Votes

  /** Primary key of a stored signature: validator, height, round. */
  type Slot = (string, int, int)

  datatype Row = Row(blockHash: string, digest: PayloadDigest, signature: Bytes)

  datatype Mark = Mark(height: int, round: int)

  predicate Before(a: Mark, b: Mark) {
    a.height < b.height || (a.height == b.height && a.round < b.round)
  }

  function MarkOf(slot: Slot): Mark {
    Mark(slot.1, slot.2)
  }

  /** The durable tables: bound chain, signatures and watermarks. */
  datatype Disk = Disk(chain: Option<int>, rows: map<Slot, Row>, marks: map<string, Mark>)

  datatype Request = Request(validatorId: string, height: int, round: int, blockHash: string, payload: Payload) {
    function Slot(): Slot {
      (validatorId, height, round)
    }
  }

  datatype JournalError =
    | ChainIdNotPositive
    | InvalidValidatorId
    | HeightNotPositive
    | NegativeRound
    | BlockHashNotCanonical
    | EmptyPayload
    | PayloadMismatch
    | WouldDoubleSign
    | BelowWatermark
    | SignerFailed
    | InvalidSignature
    | VerificationFailed
    | WrongChain
    | IntegrityCheckFailed

  predicate IsValidatorId(id: string) {
    id != "" && forall i | 0 <= i < |id| :: !IsSpace(id[i])
  }

  predicate IsSignature(signature: Bytes) {
    |signature| == 64 || |signature| == 65
  }

  function Expected(chainId: int, slot: Slot, blockHash: string): Payload {
    CanonicalVote(blockHash, chainId, slot.1, slot.2, slot.0)
  }

  function RequestError(chainId: int, req: Request): Option<JournalError> {
    if !IsValidatorId(req.validatorId) then Some(InvalidValidatorId)
    else if req.height <= 0 then Some(HeightNotPositive)
    else if req.round < 0 then Some(NegativeRound)
    else if !IsCanonicalHash(req.blockHash) then Some(BlockHashNotCanonical)
    else if req.payload == OtherBytes([]) then Some(EmptyPayload)
    else if req.payload != Expected(chainId, req.Slot(), req.blockHash) then Some(PayloadMismatch)
    else None
  }

  function Raise(marks: map<string, Mark>, id: string, mark: Mark): map<string, Mark> {
    if id in marks && !Before(marks[id], mark) then marks else marks[id := mark]
  }

  /** One signing call. `signed` is what the signer returns, if it returns. */
  function GetOrSign(chainId: int, disk: Disk, req: Request, signed: Option<Bytes>, verifier: Bytes -> bool)
    : (Disk, Result<Bytes, JournalError>)
  {
    var (error, slot) := (RequestError(chainId, req), req.Slot());
    if error.Some? then (disk, Err(error.value))
    else if slot in disk.rows then
      var row := disk.rows[slot];
      if row.blockHash != req.blockHash || row.digest != PayloadDigest(req.payload) then (disk, Err(WouldDoubleSign))
      else if !verifier(row.signature) then (disk, Err(VerificationFailed))
      else (disk, Ok(row.signature))
    else if req.validatorId in disk.marks && Before(MarkOf(slot), disk.marks[req.validatorId]) then
      (disk, Err(BelowWatermark))
    else if signed.None? then (disk, Err(SignerFailed))
    else if !IsSignature(signed.value) then (disk, Err(InvalidSignature))
    else if !verifier(signed.value) then (disk, Err(VerificationFailed))
    else
      var row := Row(req.blockHash, PayloadDigest(req.payload), signed.value);
      (disk.(rows := disk.rows[slot := row], marks := Raise(disk.marks, req.validatorId, MarkOf(slot))),
       Ok(signed.value))
  }

  // ------------------------------------------------------------------ opening

  ghost predicate IsLatest(rows: map<Slot, Row>, id: string, mark: Mark) {
    && (id, mark.height, mark.round) in rows
    && forall slot | slot in rows && slot.0 == id :: !Before(mark, MarkOf(slot))
  }

  ghost function Signers(rows: map<Slot, Row>): set<string> {
    set slot | slot in rows :: slot.0
  }

  ghost predicate IsTop(slots: set<Slot>, id: string, slot: Slot) {
    && slot in slots && slot.0 == id
    && forall other | other in slots && other.0 == id :: !Before(MarkOf(slot), MarkOf(other))
  }

  lemma {:induction false} TopExists(slots: set<Slot>, slot: Slot) returns (top: Slot)
    requires slot in slots
    ensures IsTop(slots, slot.0, top)
    decreases |slots|
  {
    top := slot;
    if higher :| higher in slots && higher.0 == slot.0 && Before(MarkOf(slot), MarkOf(higher)) {
      top := TopExists(slots - {slot}, higher);
      assert forall other | other in slots && other.0 == slot.0 :: other == slot || other in slots - {slot};
    }
  }

  lemma SomeTop(slots: set<Slot>, id: string)
    requires exists slot :: slot in slots && slot.0 == id
    ensures exists top :: IsTop(slots, id, top)
  {
    var slot :| slot in slots && slot.0 == id;
    var top := TopExists(slots, slot);
  }

  /** The lexicographically greatest height and round signed for each validator. */
  ghost function Latest(rows: map<Slot, Row>): (latest: map<string, Mark>)
    ensures latest.Keys == Signers(rows)
    ensures forall id | id in latest :: IsLatest(rows, id, latest[id])
  {
    map id | id in Signers(rows) :: LatestOf(rows, id)
  }

  ghost function LatestOf(rows: map<Slot, Row>, id: string): (mark: Mark)
    requires id in Signers(rows)
    ensures IsLatest(rows, id, mark)
  {
    SomeTop(rows.Keys, id);
    var slot :| IsTop(rows.Keys, id, slot);
    MarkOf(slot)
  }

  lemma LatestUnique(rows: map<Slot, Row>, id: string, mark: Mark)
    requires IsLatest(rows, id, mark)
    ensures id in Latest(rows) && Latest(rows)[id] == mark
  {
    assert (id, mark.height, mark.round) in rows;
    assert (id, mark.height, mark.round).0 in Signers(rows);
    var other := Latest(rows)[id];
    assert !Before(mark, MarkOf((id, other.height, other.round)));
    assert !Before(other, MarkOf((id, mark.height, mark.round)));
  }

  /** Watermarks raised to the signatures' maxima, and never lowered. */
  ghost function Restored(disk: Disk): map<string, Mark> {
    var latest := Latest(disk.rows);
    map id | id in disk.marks.Keys + latest.Keys ::
      if id in latest && (id in disk.marks ==> Before(disk.marks[id], latest[id])) then latest[id] else disk.marks[id]
  }

  ghost predicate CanonicalRow(chainId: int, slot: Slot, row: Row) {
    && IsValidatorId(slot.0)
    && 0 < slot.1 && 0 <= slot.2
    && IsCanonicalHash(row.blockHash)
    && row.digest == PayloadDigest(Expected(chainId, slot, row.blockHash))
    && IsSignature(row.signature)
  }

  ghost predicate AllCanonical(chainId: int, rows: map<Slot, Row>) {
    forall slot | slot in rows :: CanonicalRow(chainId, slot, rows[slot])
  }

  /** A watermark that the table's own CHECK constraints refuse. */
  ghost predicate Storable(latest: map<string, Mark>) {
    forall id | id in latest :: 0 < latest[id].height && 0 <= latest[id].round
  }

  /** Opening: bind the chain, raise the watermarks, validate. What was written before a
      failing step stays written. */
  ghost function Open(chainId: int, disk: Disk): (Disk, Result<(), JournalError>) {
    if chainId <= 0 then (disk, Err(ChainIdNotPositive))
    else if disk.chain.Some? && disk.chain.value != chainId then (disk, Err(WrongChain))
    else
      var bound := disk.(chain := Some(chainId));
      if !Storable(Latest(disk.rows)) then (bound, Err(IntegrityCheckFailed))
      else
        var restored := bound.(marks := Restored(disk));
        if AllCanonical(chainId, disk.rows) && restored.marks == Latest(disk.rows) then (restored, Ok(()))
        else (restored, Err(IntegrityCheckFailed))
  }

  /** What a successful opening establishes and every call keeps. */
  ghost predicate Sound(chainId: int, disk: Disk) {
    && 0 < chainId
    && disk.chain == Some(chainId)
    && AllCanonical(chainId, disk.rows)
    && disk.marks == Latest(disk.rows)
  }

  /** Unless the chain is wrong or a stored maximum cannot be a watermark at all, opening
      leaves for each validator the later of its watermark and its latest signature. */
  lemma OpenRaisesWatermarks(chainId: int, disk: Disk, id: string)
    requires 0 < chainId && disk.chain in {None, Some(chainId)} && Storable(Latest(disk.rows))
    ensures var marks := Open(chainId, disk).0.marks;
            && (id in marks <==> id in disk.marks || exists slot :: slot in disk.rows && slot.0 == id)
            && (id in disk.marks ==> !Before(marks[id], disk.marks[id]))
            && (forall slot | slot in disk.rows && slot.0 == id :: !Before(marks[id], MarkOf(slot)))
            && (id in marks ==> (id in disk.marks && marks[id] == disk.marks[id]) || IsLatest(disk.rows, id, marks[id]))
  {
    var latest := Latest(disk.rows);
    assert id in latest <==> exists slot :: slot in disk.rows && slot.0 == id;
    if id in latest {
      assert IsLatest(disk.rows, id, latest[id]);
    }
  }

  /** Some stored signature of the validator is at the mark or beyond it. */
  ghost predicate Reached(rows: map<Slot, Row>, id: string, mark: Mark) {
    exists slot :: slot in rows && slot.0 == id && !Before(MarkOf(slot), mark)
  }

  lemma ReachedIff(rows: map<Slot, Row>, id: string, mark: Mark)
    ensures Reached(rows, id, mark) <==> id in Latest(rows) && !Before(Latest(rows)[id], mark)
  {
    var latest := Latest(rows);
    if id in latest {
      assert IsLatest(rows, id, latest[id]);
      assert (id, latest[id].height, latest[id].round) in rows;
    }
    if slot :| slot in rows && slot.0 == id && !Before(MarkOf(slot), mark) {
      assert slot.0 in Signers(rows);
    }
  }

  /** Opening succeeds exactly when the chain matches, every stored signature is canonical
      and no watermark lies beyond the signatures of its validator. */
  lemma OpenSucceedsIff(chainId: int, disk: Disk)
    ensures Open(chainId, disk).1.Ok? <==>
              && 0 < chainId
              && disk.chain in {None, Some(chainId)}
              && AllCanonical(chainId, disk.rows)
              && (forall id | id in disk.marks :: Reached(disk.rows, id, disk.marks[id]))
    ensures Open(chainId, disk).1.Ok? ==> Sound(chainId, Open(chainId, disk).0)
  {
    var latest := Latest(disk.rows);
    if AllCanonical(chainId, disk.rows) {
      assert Storable(latest) by {
        forall id | id in latest
          ensures 0 < latest[id].height && 0 <= latest[id].round
        {
          assert CanonicalRow(chainId, (id, latest[id].height, latest[id].round),
                              disk.rows[(id, latest[id].height, latest[id].round)]);
        }
      }
      RestoredIsLatestIff(disk);
    }
  }

  lemma RestoredIsLatestIff(disk: Disk)
    ensures Restored(disk) == Latest(disk.rows) <==>
            forall id | id in disk.marks :: Reached(disk.rows, id, disk.marks[id])
  {
    var (latest, restored) := (Latest(disk.rows), Restored(disk));
    forall id | id in disk.marks
      ensures Reached(disk.rows, id, disk.marks[id]) <==> id in latest && !Before(latest[id], disk.marks[id])
    {
      ReachedIff(disk.rows, id, disk.marks[id]);
    }
    if forall id | id in disk.marks :: id in latest && !Before(latest[id], disk.marks[id]) {
      assert restored.Keys == latest.Keys;
    }
  }

  /** A journal without watermarks gets them from its signatures. */
  lemma OpenRebuildsWatermarks(chainId: int, disk: Disk)
    requires 0 < chainId && disk.chain in {None, Some(chainId)}
    requires AllCanonical(chainId, disk.rows) && disk.marks == map[]
    ensures Open(chainId, disk) == (Disk(Some(chainId), disk.rows, Latest(disk.rows)), Ok(()))
  {
    OpenSucceedsIff(chainId, disk);
  }

  /** Reopening a sound journal changes nothing and succeeds for its own chain only. */
  lemma ReopenIsIdentity(chainId: int, other: int, disk: Disk)
    requires Sound(chainId, disk)
    ensures Open(other, disk).0 == disk
    ensures Open(other, disk).1.Ok? <==> other == chainId
  {
    if other == chainId {
      assert forall id | id in disk.marks :: IsLatest(disk.rows, id, disk.marks[id]);
      forall id | id in disk.marks
        ensures Reached(disk.rows, id, disk.marks[id])
      {
        var slot := (id, disk.marks[id].height, disk.marks[id].round);
        assert slot in disk.rows && !Before(MarkOf(slot), disk.marks[id]);
      }
      RestoredIsLatestIff(disk);
      OpenSucceedsIff(chainId, disk);
    }
  }

  /** A call that creates a signature creates it beyond everything signed before. */
  lemma CreatedBeyondWatermark(chainId: int, disk: Disk, req: Request, signed: Option<Bytes>, verifier: Bytes -> bool)
    requires Sound(chainId, disk)
    requires GetOrSign(chainId, disk, req, signed, verifier).0 != disk
    ensures req.validatorId in disk.marks ==> Before(disk.marks[req.validatorId], MarkOf(req.Slot()))
  {
    var (id, slot) := (req.validatorId, req.Slot());
    if id in disk.marks {
      assert IsLatest(disk.rows, id, disk.marks[id]);
      assert slot !in disk.rows;
    }
  }

  lemma SignersGrow(rows: map<Slot, Row>, slot: Slot, row: Row)
    ensures Signers(rows[slot := row]) == Signers(rows) + {slot.0}
  {
    var rows' := rows[slot := row];
    forall id | id in Signers(rows)
      ensures id in Signers(rows')
    {
      var s :| s in rows && s.0 == id;
      assert s in rows';
    }
    assert slot in rows';
  }

  lemma InsertedIsLatest(rows: map<Slot, Row>, slot: Slot, row: Row)
    requires slot.0 in Latest(rows) ==> Before(Latest(rows)[slot.0], MarkOf(slot))
    ensures IsLatest(rows[slot := row], slot.0, MarkOf(slot))
  {
    forall other | other in rows && other.0 == slot.0
      ensures !Before(MarkOf(slot), MarkOf(other))
    {
      assert other.0 in Signers(rows);
      assert IsLatest(rows, slot.0, Latest(rows)[slot.0]);
    }
  }

  lemma LatestAfterInsert(rows: map<Slot, Row>, slot: Slot, row: Row)
    requires slot.0 in Latest(rows) ==> Before(Latest(rows)[slot.0], MarkOf(slot))
    ensures Latest(rows[slot := row]) == Latest(rows)[slot.0 := MarkOf(slot)]
  {
    var rows' := rows[slot := row];
    var (latest, latest') := (Latest(rows), Latest(rows'));
    SignersGrow(rows, slot, row);
    forall id | id in latest'
      ensures latest'[id] == if id == slot.0 then MarkOf(slot) else latest[id]
    {
      if id == slot.0 {
        InsertedIsLatest(rows, slot, row);
        LatestUnique(rows', id, MarkOf(slot));
      } else {
        assert IsLatest(rows, id, latest[id]);
        assert IsLatest(rows', id, latest[id]);
        LatestUnique(rows', id, latest[id]);
      }
    }
  }

  lemma GetOrSignKeepsSound(chainId: int, disk: Disk, req: Request, signed: Option<Bytes>, verifier: Bytes -> bool)
    requires Sound(chainId, disk)
    ensures Sound(chainId, GetOrSign(chainId, disk, req, signed, verifier).0)
  {
    var disk' := GetOrSign(chainId, disk, req, signed, verifier).0;
    if disk' != disk {
      CreatedBeyondWatermark(chainId, disk, req, signed, verifier);
      LatestAfterInsert(disk.rows, req.Slot(), disk'.rows[req.Slot()]);
    }
  }

  // --------------------------------------------------------------------- runs

  /** How a signing call ends: it returns, or the process dies before or after the commit. */
  datatype Fate = Returns | DiesBeforeCommit | DiesAfterCommit

  datatype Event =
    | OpenJournal(chainId: int)
    | SignCall(req: Request, signed: Option<Bytes>, accepted: bool, fate: Fate)
    | CloseJournal

  /** A signature created on disk, handed out, or both. */
  datatype Entry = Entry(chainId: int, slot: Slot, blockHash: string, signature: Bytes, created: bool, returned: bool)

  /** The tables, the chain of the open journal object if there is one, and what
      happened so far. */
  datatype World = World(disk: Disk, handle: Option<int>, log: seq<Entry>)

  ghost function Sign(w: World, chainId: int, e: Event): World
    requires e.SignCall?
  {
    var (disk, result) := GetOrSign(chainId, w.disk, e.req, e.signed, _ => e.accepted);
    if e.fate.DiesBeforeCommit? then w.(handle := None)
    else if result.Err? then (if e.fate.Returns? then w else w.(handle := None))
    else
      var entry := Entry(chainId, e.req.Slot(), e.req.blockHash, result.value, disk != w.disk, e.fate.Returns?);
      World(disk, if e.fate.Returns? then w.handle else None, w.log + [entry])
  }

  ghost function Step(w: World, e: Event): World {
    match e
    case OpenJournal(chainId) =>
      var (disk, result) := Open(chainId, w.disk);
      w.(disk := disk, handle := if result.Ok? then Some(chainId) else w.handle)
    case CloseJournal => w.(handle := None)
    case SignCall(_, _, _, _) =>
      if w.handle.None? then w else Sign(w, w.handle.value, e)
  }

  ghost function Run(w: World, es: seq<Event>): World {
    if es == [] then w else Step(Run(w, es[..|es| - 1]), es[|es| - 1])
  }

  /** An entry is backed by the tables. */
  ghost predicate Backed(disk: Disk, entry: Entry) {
    && disk.chain == Some(entry.chainId)
    && entry.slot in disk.rows
    && disk.rows[entry.slot].blockHash == entry.blockHash
    && disk.rows[entry.slot].signature == entry.signature
  }

  /** Two entries do not contradict each other: one slot, one block and one signature;
      creations of one validator move strictly forward. */
  ghost predicate Consistent(earlier: Entry, later: Entry) {
    && (earlier.slot == later.slot ==> earlier.blockHash == later.blockHash && earlier.signature == later.signature)
    && (earlier.slot.0 == later.slot.0 && later.created ==> Before(MarkOf(earlier.slot), MarkOf(later.slot)))
  }

  ghost predicate WorldInvariant(w: World) {
    && (w.handle.Some? ==> Sound(w.handle.value, w.disk))
    && (w.log != [] ==> w.disk.chain.Some? && Sound(w.disk.chain.value, w.disk))
    && AllBacked(w.disk, w.log)
    && AllConsistent(w.log)
  }

  ghost predicate AllBacked(disk: Disk, log: seq<Entry>) {
    forall i | 0 <= i < |log| :: Backed(disk, log[i])
  }

  ghost predicate AllConsistent(log: seq<Entry>) {
    forall i, j | 0 <= i < j < |log| :: Consistent(log[i], log[j])
  }

  lemma StoredIsMarked(chainId: int, disk: Disk, slot: Slot)
    requires Sound(chainId, disk) && slot in disk.rows
    ensures slot.0 in disk.marks && !Before(disk.marks[slot.0], MarkOf(slot))
  {
    assert slot.0 in Signers(disk.rows);
    assert IsLatest(disk.rows, slot.0, disk.marks[slot.0]);
  }

  /** An earlier entry stays backed and does not contradict the new one. */
  lemma SignKeepsEntry(w: World, chainId: int, e: Event, i: nat)
    requires e.SignCall? && w.handle == Some(chainId) && Sound(chainId, w.disk)
    requires i < |w.log| && Backed(w.disk, w.log[i]) && Sign(w, chainId, e).log != w.log
    ensures var w' := Sign(w, chainId, e);
            Backed(w'.disk, w.log[i]) && Consistent(w.log[i], w'.log[|w.log|])
  {
    var w' := Sign(w, chainId, e);
    var entry := w'.log[|w.log|];
    if entry.created && w.log[i].slot.0 == entry.slot.0 {
      CreatedBeyondWatermark(chainId, w.disk, e.req, e.signed, _ => e.accepted);
      StoredIsMarked(chainId, w.disk, w.log[i].slot);
    }
  }

  /** The tables stay sound, and the log gets no entry, or one that they back. */
  lemma SignKeepsDisk(w: World, chainId: int, e: Event)
    requires e.SignCall? && w.handle == Some(chainId) && Sound(chainId, w.disk)
    ensures var w' := Sign(w, chainId, e);
            && Sound(chainId, w'.disk) && w'.handle in {None, Some(chainId)}
            && (w'.log == w.log ==> w'.disk == w.disk)
            && (w'.log != w.log ==>
                  |w'.log| == |w.log| + 1 && w'.log[..|w.log|] == w.log && Backed(w'.disk, w'.log[|w.log|]))
  {
    GetOrSignKeepsSound(chainId, w.disk, e.req, e.signed, _ => e.accepted);
  }

  lemma EntryAppended(disk: Disk, log: seq<Entry>, log': seq<Entry>)
    requires |log'| == |log| + 1 && log'[..|log|] == log && Backed(disk, log'[|log|]) && AllConsistent(log)
    requires forall i | 0 <= i < |log| :: Backed(disk, log[i]) && Consistent(log[i], log'[|log|])
    ensures AllBacked(disk, log') && AllConsistent(log')
  {
  }

  lemma SignStep(w: World, chainId: int, e: Event)
    requires e.SignCall? && WorldInvariant(w) && w.handle == Some(chainId)
    ensures WorldInvariant(Sign(w, chainId, e))
  {
    var w' := Sign(w, chainId, e);
    SignKeepsDisk(w, chainId, e);
    if w'.log != w.log {
      forall i | 0 <= i < |w.log|
        ensures Backed(w'.disk, w.log[i]) && Consistent(w.log[i], w'.log[|w.log|])
      {
        SignKeepsEntry(w, chainId, e, i);
      }
      EntryAppended(w'.disk, w.log, w'.log);
    }
  }

  lemma StepKeepsInvariant(w: World, e: Event)
    requires WorldInvariant(w)
    ensures WorldInvariant(Step(w, e))
  {
    match e
    case OpenJournal(chainId) =>
      if w.log != [] || w.handle.Some? {
        ReopenIsIdentity(w.disk.chain.value, chainId, w.disk);
      }
      OpenSucceedsIff(chainId, w.disk);
    case CloseJournal =>
    case SignCall(_, _, _, _) =>
      if w.handle.Some? { SignStep(w, w.handle.value, e); }
  }

  /** From any tables at all, whatever is opened, signed, crashed and reopened: no two
      signatures of one validator, height and round differ in block or in a single byte,
      and each newly created signature lies beyond all earlier ones of its validator. */
  lemma {:induction false} NeverDoubleSigns(disk: Disk, es: seq<Event>)
    ensures WorldInvariant(Run(World(disk, None, []), es))
    ensures var log := Run(World(disk, None, []), es).log;
            forall i, j | 0 <= i < j < |log| :: Consistent(log[i], log[j])
  {
    if es != [] {
      NeverDoubleSigns(disk, es[..|es| - 1]);
      StepKeepsInvariant(Run(World(disk, None, []), es[..|es| - 1]), es[|es| - 1]);
    }
  }
}
