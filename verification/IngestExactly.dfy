/** Exactly which ingests are accepted, and exactly what they leave. */
module IngestExactly {
  import opened EventIndex
  import opened Prelude

  // -------------------------------------------------------------------- events

  predicate SoundEvent(e: RawEvent) {
    IsIndexHash(e.transaction) && 0 <= e.logIndex && e.name != "" && e.payload.Some?
  }

  /** Another transaction, in whatever case its hash is written, or another log index. */
  predicate Differ(a: RawEvent, b: RawEvent) {
    Lower(a.transaction) != Lower(b.transaction) || a.logIndex != b.logIndex
  }

  /** The reported events are sound and all different. */
  ghost predicate SoundEvents(raw: seq<RawEvent>) {
    && (forall i | 0 <= i < |raw| :: SoundEvent(raw[i]))
    && (forall i, j | 0 <= i < j < |raw| :: Differ(raw[i], raw[j]))
  }

  /** The event has this identity and data. */
  predicate Reports(e: RawEvent, id: EventId, data: EventData) {
    id == EventId(Lower(e.transaction), e.logIndex) && e.name == data.name && e.payload == Some(data.payload)
  }

  ghost predicate Reported(raw: seq<RawEvent>, id: EventId, data: EventData) {
    exists i :: 0 <= i < |raw| && Reports(raw[i], id, data)
  }

  ghost predicate Collected(e: RawEvent, events: Events) {
    exists id :: id in events && Reports(e, id, events[id])
  }

  /** The events are exactly what the report says. */
  ghost predicate AreEvents(raw: seq<RawEvent>, events: Events) {
    && (forall id | id in events :: Reported(raw, id, events[id]))
    && (forall i | 0 <= i < |raw| :: Collected(raw[i], events))
  }

  /** A sound event that differs from all of these. */
  ghost predicate GoesWith(rest: seq<RawEvent>, e: RawEvent) {
    SoundEvent(e) && forall i | 0 <= i < |rest| :: Differ(rest[i], e)
  }

  lemma SoundEventsSplit(raw: seq<RawEvent>, rest: seq<RawEvent>, last: RawEvent)
    requires raw == rest + [last]
    ensures SoundEvents(raw) <==>
            SoundEvents(rest) && GoesWith(rest, last)
  {
    assert raw[|rest|] == last && forall i | 0 <= i < |rest| :: raw[i] == rest[i];
    if SoundEvents(raw) {
      forall i | 0 <= i < |rest|
        ensures SoundEvent(rest[i]) && Differ(rest[i], last)
      {
        assert SoundEvent(raw[i]) && Differ(raw[i], raw[|rest|]);
      }
    }
  }

  lemma AreEventsGrow(rest: seq<RawEvent>, last: RawEvent, events: Events, id: EventId, data: EventData)
    requires AreEvents(rest, events) && id !in events && Reports(last, id, data)
    ensures AreEvents(rest + [last], events[id := data])
  {
    var (raw, more) := (rest + [last], events[id := data]);
    forall x | x in more
      ensures Reported(raw, x, more[x])
    {
      if x == id {
        assert Reports(raw[|rest|], id, data);
      } else {
        assert Reported(rest, x, events[x]);
        var i :| 0 <= i < |rest| && Reports(rest[i], x, events[x]);
        assert Reports(raw[i], x, more[x]);
      }
    }
    forall i | 0 <= i < |raw|
      ensures Collected(raw[i], more)
    {
      if i < |rest| {
        assert Collected(rest[i], events);
        var x :| x in events && Reports(rest[i], x, events[x]);
        assert Reports(raw[i], x, more[x]);
      } else {
        assert Reports(raw[i], id, more[id]);
      }
    }
  }

  lemma KnownIff(rest: seq<RawEvent>, events: Events, last: RawEvent)
    requires AreEvents(rest, events)
    ensures IdOf(last) in events <==> exists i :: 0 <= i < |rest| && !Differ(rest[i], last)
  {
    if IdOf(last) in events {
      assert Reported(rest, IdOf(last), events[IdOf(last)]);
      var i :| 0 <= i < |rest| && Reports(rest[i], IdOf(last), events[IdOf(last)]);
      assert !Differ(rest[i], last);
    }
    if i :| 0 <= i < |rest| && !Differ(rest[i], last) {
      assert Collected(rest[i], events);
    }
  }

  /** Validation collects the report exactly when it is sound. */
  lemma {:induction false} ValidatedIff(raw: seq<RawEvent>)
    ensures Validated(raw).Ok? <==> SoundEvents(raw)
    ensures Validated(raw).Ok? ==> AreEvents(raw, Validated(raw).value)
  {
    if raw != [] {
      var (rest, last) := (raw[..|raw| - 1], raw[|raw| - 1]);
      ValidatedIff(rest);
      assert rest + [last] == raw;
      SoundEventsSplit(raw, rest, last);
      if Validated(rest).Ok? {
        ValidatedNext(rest, Validated(rest).value, last);
      } else {
        assert Validated(raw).Err?;
      }
    }
  }

  lemma ValidatedNext(rest: seq<RawEvent>, events: Events, last: RawEvent)
    requires Validated(rest) == Ok(events) && AreEvents(rest, events)
    ensures var r := Validated(rest + [last]);
            && (r.Ok? <==> GoesWith(rest, last))
            && (r.Ok? ==> AreEvents(rest + [last], r.value))
  {
    assert (rest + [last])[..|rest + [last]| - 1] == rest;
    KnownIff(rest, events, last);
    if IdOf(last) !in events && SoundEvent(last) {
      AreEventsGrow(rest, last, events, IdOf(last), EventData(last.name, last.payload.value));
    }
  }

  lemma EventsWithin(raw: seq<RawEvent>, a: Events, b: Events, id: EventId)
    requires AreEvents(raw, a) && AreEvents(raw, b) && id in a
    ensures id in b && b[id] == a[id]
  {
    assert Reported(raw, id, a[id]);
    var i :| 0 <= i < |raw| && Reports(raw[i], id, a[id]);
    assert Collected(raw[i], b);
  }

  /** A report says one thing only. */
  lemma EventsUnique(raw: seq<RawEvent>, a: Events, b: Events)
    requires AreEvents(raw, a) && AreEvents(raw, b)
    ensures a == b
  {
    forall id | id in a
      ensures id in b && b[id] == a[id]
    {
      EventsWithin(raw, a, b, id);
    }
    forall id | id in b
      ensures id in a
    {
      EventsWithin(raw, b, a, id);
    }
  }

  // ---------------------------------------------------------------- acceptance

  /** The input is sound on its own. */
  ghost predicate SoundInput(g: Ingest) {
    && IsIndexHash(g.hash) && IsIndexHash(g.parent) && 0 <= g.number <= g.observedHead
    && (g.number == 0 ==> IsZeroHash(Lower(g.parent)))
    && SoundEvents(g.raw)
  }

  lemma SoundInputIff(g: Ingest)
    ensures InputError(g).None? <==> SoundInput(g)
  {
    ValidatedIff(g.raw);
  }

  ghost predicate Clashes(block: Block, hash: string, events: Events) {
    block.hash == hash || exists id :: id in block.events && id in events
  }

  /** Some block below this number has the hash or one of the events. */
  ghost predicate Taken(chain: seq<Block>, number: int, hash: string, events: Events) {
    exists i :: 0 <= i < number && i < |chain| && Clashes(chain[i], hash, events)
  }

  lemma TakenIff(chain: seq<Block>, number: nat, hash: string, events: Events)
    requires number <= |chain|
    ensures Taken(chain, number, hash, events) <==> Collides(chain[..number], hash, events)
  {
    var kept := chain[..number];
    if i :| 0 <= i < number && i < |chain| && Clashes(chain[i], hash, events) {
      assert kept[i] == chain[i];
    }
    if Collides(kept, hash, events) {
      var i :| 0 <= i < |kept| && (kept[i].hash == hash || !(kept[i].events.Keys !! events.Keys));
      assert Clashes(chain[i], hash, events);
    }
  }

  /** There is no gap below, and the block just below, if there is one, is the parent. */
  predicate ParentThere(x: Index, g: Ingest) {
    0 <= g.number <= |x.chain| && (g.number > 0 ==> x.chain[g.number - 1].hash == g.parent)
  }

  predicate AlreadyThere(x: Index, g: Ingest) {
    0 <= g.number < |x.chain| && x.chain[g.number].hash == g.hash
  }

  ghost predicate ReportedTaken(x: Index, g: Ingest) {
    exists events :: AreEvents(g.raw, events) && Taken(x.chain, g.number, g.hash, events)
  }

  lemma ReportedTakenIff(x: Index, g: Ingest, events: Events)
    requires 0 <= g.number <= |x.chain| && AreEvents(g.raw, events)
    ensures ReportedTaken(x, g) <==> Collides(x.chain[..g.number], g.hash, events)
  {
    TakenIff(x.chain, g.number, g.hash, events);
    if other :| AreEvents(g.raw, other) && Taken(x.chain, g.number, g.hash, other) {
      EventsUnique(g.raw, events, other);
    }
  }

  /** An ingest is accepted exactly when its input is sound, its parent is there, and its block is
      there already or replaces nothing final and clashes with nothing below. */
  lemma AcceptedIff(confirmations: nat, x: Index, g: Ingest)
    ensures Apply(confirmations, x, g).Ok? <==>
              && SoundInput(g) && ParentThere(x, g)
              && (AlreadyThere(x, g) || (g.number >= x.finalized && !ReportedTaken(x, g)))
  {
    SoundInputIff(g);
    ValidatedIff(g.raw);
    if SoundInput(g) && ParentThere(x, g) {
      ReportedTakenIff(x, g, Validated(g.raw).value);
    }
  }

  function Max(a: int, b: int): int {
    if a < b then b else a
  }

  function Min(a: int, b: int): int {
    if a < b then a else b
  }

  /** What an accepted ingest puts at its number. */
  ghost predicate PutThere(chain: seq<Block>, g: Ingest) {
    && 0 <= g.number && |chain| == g.number + 1
    && chain[g.number].hash == g.hash && chain[g.number].parent == g.parent
    && AreEvents(g.raw, chain[g.number].events)
  }

  lemma FinalizeIs(x: Index, confirmations: nat, observedHead: int)
    ensures Finalize(x, confirmations, observedHead).chain == x.chain
    ensures Finalize(x, confirmations, observedHead).finalized ==
            Max(x.finalized, Min(|x.chain|, observedHead - confirmations + 1))
  {
  }

  lemma BlockPutThere(kept: seq<Block>, g: Ingest, events: Events)
    requires |kept| == g.number && AreEvents(g.raw, events)
    ensures var chain := kept + [Block(g.hash, g.parent, events)];
            PutThere(chain, g) && chain[..g.number] == kept
  {
  }

  /** The list before anything is marked as final. */
  ghost predicate Placed(x: Index, g: Ingest, placed: Index) {
    && placed.finalized == x.finalized
    && if AlreadyThere(x, g) then placed.chain == x.chain
       else 0 <= g.number <= |x.chain| && PutThere(placed.chain, g) && placed.chain[..g.number] == x.chain[..g.number]
  }

  lemma PlacedThere(x: Index, g: Ingest, events: Events)
    requires 0 <= g.number <= |x.chain| && !AlreadyThere(x, g) && AreEvents(g.raw, events)
    ensures Placed(x, g, x.(chain := x.chain[..g.number] + [Block(g.hash, g.parent, events)]))
  {
    BlockPutThere(x.chain[..g.number], g, events);
  }

  lemma AppliedIs(confirmations: nat, x: Index, g: Ingest, events: Events)
    requires Apply(confirmations, x, g).Ok? && Validated(g.raw) == Ok(events)
    ensures 0 <= g.number <= |x.chain|
    ensures Apply(confirmations, x, g).value ==
            Finalize(if AlreadyThere(x, g) then x
                     else x.(chain := x.chain[..g.number] + [Block(g.hash, g.parent, events)]),
                     confirmations, g.observedHead)
  {
  }

  lemma AppliedIsPlaced(confirmations: nat, x: Index, g: Ingest) returns (placed: Index)
    requires Apply(confirmations, x, g).Ok?
    ensures Placed(x, g, placed) && Apply(confirmations, x, g).value == Finalize(placed, confirmations, g.observedHead)
  {
    ValidatedIff(g.raw);
    var events := Validated(g.raw).value;
    AppliedIs(confirmations, x, g, events);
    if AlreadyThere(x, g) {
      placed := x;
    } else {
      placed := x.(chain := x.chain[..g.number] + [Block(g.hash, g.parent, events)]);
      PlacedThere(x, g, events);
    }
  }

  lemma FinalizedKeepsPlace(x: Index, g: Ingest, placed: Index, x': Index)
    requires Placed(x, g, placed) && x'.chain == placed.chain
    ensures if AlreadyThere(x, g) then x'.chain == x.chain
            else 0 <= g.number <= |x.chain| && PutThere(x'.chain, g) && x'.chain[..g.number] == x.chain[..g.number]
  {
  }

  /** Then the list is as it was, or cut at the number with the block put there; and final are the
      blocks that were, and those that now have their confirmations observed above them. */
  lemma AcceptedLeaves(confirmations: nat, x: Index, g: Ingest)
    requires Apply(confirmations, x, g).Ok?
    ensures var x' := Apply(confirmations, x, g).value;
            && (if AlreadyThere(x, g) then x'.chain == x.chain
                else 0 <= g.number <= |x.chain| && PutThere(x'.chain, g) && x'.chain[..g.number] == x.chain[..g.number])
            && x'.finalized == Max(x.finalized, Min(|x'.chain|, g.observedHead - confirmations + 1))
  {
    var placed := AppliedIsPlaced(confirmations, x, g);
    FinalizeIs(placed, confirmations, g.observedHead);
    FinalizedKeepsPlace(x, g, placed, Apply(confirmations, x, g).value);
  }

  lemma PlaceRefusedIff(confirmations: nat, x: Index, g: Ingest, events: Events)
    requires 0 <= g.number <= |x.chain|
    ensures var (r, there) := (Place(confirmations, x, g, events), AlreadyThere(x, g));
            && r !in {Err(NotContiguous), Err(CrossesFinalized), Err(AncestorFirst)}
            && (r == Err(FinalizedBlock) <==> !there && g.number < x.finalized)
            && (r == Err(UniqueViolation) <==>
                  !there && g.number >= x.finalized && Collides(x.chain[..g.number], g.hash, events))
  {
  }

  /** Why a sound ingest is refused. */
  lemma RefusedIff(confirmations: nat, x: Index, g: Ingest)
    requires SoundInput(g)
    ensures var r := Apply(confirmations, x, g);
            var wrongParent := 0 < g.number <= |x.chain| && x.chain[g.number - 1].hash != g.parent;
            && (r == Err(NotContiguous) <==> g.number > |x.chain|)
            && (r == Err(CrossesFinalized) <==> wrongParent && g.number <= x.finalized)
            && (r == Err(AncestorFirst) <==> wrongParent && g.number > x.finalized)
            && (r == Err(FinalizedBlock) <==> ParentThere(x, g) && !AlreadyThere(x, g) && g.number < x.finalized)
            && (r == Err(UniqueViolation) <==>
                  ParentThere(x, g) && !AlreadyThere(x, g) && x.finalized <= g.number && ReportedTaken(x, g))
  {
    SoundInputIff(g);
    if ParentThere(x, g) {
      var events := Validated(g.raw).value;
      ValidatedIff(g.raw);
      ReportedTakenIff(x, g, events);
      PlaceRefusedIff(confirmations, x, g, events);
    }
  }

  /** Why an unsound input is refused: its hashes, its height, its parent below block 0, and then the
      first event at fault. */
  lemma UnsoundIff(confirmations: nat, x: Index, g: Ingest)
    requires !SoundInput(g)
    ensures var r := Apply(confirmations, x, g);
            if !IsIndexHash(g.hash) || !IsIndexHash(g.parent) then r == Err(InvalidHash)
            else if g.number < 0 || g.observedHead < g.number then r == Err(InvalidHeight)
            else if g.number == 0 && !IsZeroHash(Lower(g.parent)) then r == Err(InvalidGenesisParent)
            else r.Err? && FirstFault(g.raw, r.error)
  {
    ValidatedIff(g.raw);
    if Validated(g.raw).Err? { FaultFound(g.raw); }
  }

  /** Some event is at fault in this way, and the events before it are sound. */
  ghost predicate FirstFault(raw: seq<RawEvent>, error: IndexError) {
    exists n :: 0 <= n < |raw| && FaultAt(raw[..n], raw[n], error)
  }

  /** What is wrong with an event after these. */
  ghost predicate FaultAt(rest: seq<RawEvent>, e: RawEvent, error: IndexError) {
    && SoundEvents(rest)
    && if !IsIndexHash(e.transaction) then error == InvalidHash
       else if e.logIndex < 0 || e.name == "" then error == InvalidEvent
       else if exists i :: 0 <= i < |rest| && !Differ(rest[i], e) then error == DuplicateEvent
       else error == PayloadNotCanonical && e.payload.None?
  }

  lemma FaultHere(rest: seq<RawEvent>, events: Events, e: RawEvent)
    requires Validated(rest) == Ok(events) && AreEvents(rest, events) && Validated(rest + [e]).Err?
    ensures FaultAt(rest, e, Validated(rest + [e]).error)
  {
    assert (rest + [e])[..|rest + [e]| - 1] == rest;
    ValidatedIff(rest);
    KnownIff(rest, events, e);
  }

  lemma {:induction false} FaultFound(raw: seq<RawEvent>)
    requires Validated(raw).Err?
    ensures FirstFault(raw, Validated(raw).error)
  {
    var (rest, last) := (raw[..|raw| - 1], raw[|raw| - 1]);
    assert rest + [last] == raw;
    if Validated(rest).Err? {
      FaultFound(rest);
      var n :| 0 <= n < |rest| && FaultAt(rest[..n], rest[n], Validated(rest).error);
      assert raw[..n] == rest[..n] && raw[n] == rest[n];
    } else {
      ValidatedIff(rest);
      FaultHere(rest, Validated(rest).value, last);
      assert raw[..|rest|] == rest;
    }
  }

  // ------------------------------------------------------------------- listing

  /** The row is an event of this block, with its data. */
  ghost predicate EventOf(block: Block, row: EventRow) {
    row.id in block.events && row.data == block.events[row.id]
  }

  /** What a listing is: the events of the final blocks, each once, by block, and within a block by log index. */
  lemma ListingIff(x: Index, rows: seq<EventRow>)
    requires x.finalized <= |x.chain|
    ensures IsListing(x, rows) <==>
              && (forall row :: row in rows <==> 0 <= row.number < x.finalized && EventOf(x.chain[row.number], row))
              && (forall i, j | 0 <= i < j < |rows| ::
                    && rows[i] != rows[j] && rows[i].number <= rows[j].number
                    && (rows[i].number == rows[j].number ==> rows[i].id.logIndex <= rows[j].id.logIndex))
  {
    forall row
      ensures IsFinal(x, row) <==> 0 <= row.number < x.finalized && EventOf(x.chain[row.number], row)
    {
    }
  }
}
