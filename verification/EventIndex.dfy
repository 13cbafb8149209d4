/** The bridge event index as a plain list of blocks, and what every run of it keeps.
    Ingesting is "truncate at this number, then append". */
module EventIndex {
  import opened Prelude

  datatype EventId = EventId(transaction: string, logIndex: int)

  datatype EventData = EventData(name: string, payload: string)

  /** An event as reported: the payload is missing when it is not canonical JSON. */
  datatype RawEvent = RawEvent(transaction: string, logIndex: int, name: string, payload: Option<string>)

  type Events = map<EventId, EventData>

  datatype Block = Block(hash: string, parent: string, events: Events)

  /** The blocks from number 0 up, of which the first `finalized` are final. */
  datatype Index = Index(chain: seq<Block>, finalized: nat)

  const EMPTY := Index([], 0)

  datatype IndexError =
    | InvalidHash
    | InvalidHeight
    | InvalidGenesisParent
    | InvalidEvent
    | DuplicateEvent
    | PayloadNotCanonical
    | NotContiguous
    | CrossesFinalized
    | AncestorFirst
    | FinalizedBlock
    | UniqueViolation

  datatype Ingest = Ingest(number: int, hash: string, parent: string, raw: seq<RawEvent>, observedHead: int)

  function Stripped(s: string): string {
    if |s| >= 2 && s[..2] == "0x" then s[2..] else s
  }

  predicate IsIndexHash(s: string) {
    |Stripped(s)| == 64 && IsBase16(Stripped(s))
  }

  predicate IsZeroHash(s: string) {
    |Stripped(s)| == 64 && forall i | 0 <= i < 64 :: Stripped(s)[i] == '0'
  }

  predicate ValidRaw(e: RawEvent) {
    IsIndexHash(e.transaction) && 0 <= e.logIndex && e.name != ""
  }

  function IdOf(e: RawEvent): EventId {
    EventId(Lower(e.transaction), e.logIndex)
  }

  /** The reported events by identity, or the first thing wrong with them. */
  function Validated(raw: seq<RawEvent>): Result<Events, IndexError> {
    if raw == [] then Ok(map[])
    else
      match Validated(raw[..|raw| - 1])
      case Err(e) => Err(e)
      case Ok(events) =>
        var e := raw[|raw| - 1];
        if !ValidRaw(e) then Err(if IsIndexHash(e.transaction) then InvalidEvent else InvalidHash)
        else if IdOf(e) in events then Err(DuplicateEvent)
        else if e.payload.None? then Err(PayloadNotCanonical)
        else Ok(events[IdOf(e) := EventData(e.name, e.payload.value)])
  }

  function InputError(g: Ingest): Option<IndexError> {
    if !IsIndexHash(g.hash) || !IsIndexHash(g.parent) then Some(InvalidHash)
    else if g.number < 0 || g.observedHead < g.number then Some(InvalidHeight)
    else if g.number == 0 && !IsZeroHash(Lower(g.parent)) then Some(InvalidGenesisParent)
    else if Validated(g.raw).Err? then Some(Validated(g.raw).error)
    else None
  }

  /** Final through the blocks that have `confirmations` blocks observed above them. */
  function Finalize(x: Index, confirmations: nat, observedHead: int): Index {
    var through := observedHead - confirmations;
    var count := if through + 1 < |x.chain| then through + 1 else |x.chain|;
    if count > x.finalized then x.(finalized := count) else x
  }

  ghost predicate Collides(chain: seq<Block>, hash: string, events: Events) {
    exists i :: 0 <= i < |chain| && (chain[i].hash == hash || !(chain[i].events.Keys !! events.Keys))
  }

  /** A block whose parent is there: it is there already, or it replaces what is not final. */
  ghost function Place(confirmations: nat, x: Index, g: Ingest, events: Events): Result<Index, IndexError>
    requires 0 <= g.number <= |x.chain|
  {
    if g.number < |x.chain| && x.chain[g.number].hash == g.hash then Ok(Finalize(x, confirmations, g.observedHead))
    else if g.number < x.finalized then Err(FinalizedBlock)
    else
      var kept := x.chain[..g.number];
      if Collides(kept, g.hash, events) then Err(UniqueViolation)
      else Ok(Finalize(x.(chain := kept + [Block(g.hash, g.parent, events)]), confirmations, g.observedHead))
  }

  /** One ingest on the list. */
  ghost function Apply(confirmations: nat, x: Index, g: Ingest): Result<Index, IndexError> {
    if InputError(g).Some? then Err(InputError(g).value)
    else if g.number > |x.chain| then Err(NotContiguous)
    else if g.number > 0 && x.chain[g.number - 1].hash != g.parent then
      Err(if g.number - 1 < x.finalized then CrossesFinalized else AncestorFirst)
    else Place(confirmations, x, g, Validated(g.raw).value)
  }

  ghost function Step(confirmations: nat, x: Index, g: Ingest): Index {
    match Apply(confirmations, x, g)
    case Ok(x') => x'
    case Err(_) => x
  }

  ghost function Run(confirmations: nat, x: Index, gs: seq<Ingest>): Index {
    if gs == [] then x else Step(confirmations, Run(confirmations, x, gs[..|gs| - 1]), gs[|gs| - 1])
  }

  // ---------------------------------------------------------------- invariant

  ghost predicate Linked(chain: seq<Block>) {
    && (chain != [] ==> IsZeroHash(Lower(chain[0].parent)))
    && forall i | 0 < i < |chain| :: chain[i].parent == chain[i - 1].hash
  }

  ghost predicate Unique(chain: seq<Block>) {
    forall i, j | 0 <= i < j < |chain| :: chain[i].hash != chain[j].hash && chain[i].events.Keys !! chain[j].events.Keys
  }

  ghost predicate Invariant(x: Index) {
    x.finalized <= |x.chain| && Linked(x.chain) && Unique(x.chain)
  }

  lemma AppendKeepsLinks(kept: seq<Block>, last: Block)
    requires Linked(kept)
    requires if kept == [] then IsZeroHash(Lower(last.parent)) else last.parent == kept[|kept| - 1].hash
    ensures Linked(kept + [last])
  {
  }

  lemma AppendKeepsUnique(kept: seq<Block>, last: Block)
    requires Unique(kept) && !Collides(kept, last.hash, last.events)
    ensures Unique(kept + [last])
  {
    forall i | 0 <= i < |kept|
      ensures kept[i].hash != last.hash && kept[i].events.Keys !! last.events.Keys
    {
      assert !Collides(kept, last.hash, last.events);
    }
  }

  lemma PrefixKeepsBoth(chain: seq<Block>, n: nat)
    requires n <= |chain| && Linked(chain) && Unique(chain)
    ensures Linked(chain[..n]) && Unique(chain[..n])
  {
  }

  /** What an accepted ingest that changes the list leaves: the blocks below it, and it. */
  lemma StepAppends(confirmations: nat, x: Index, g: Ingest)
    requires Step(confirmations, x, g).chain != x.chain
    ensures 0 <= g.number <= |x.chain| && Validated(g.raw).Ok?
    ensures var (kept, last) := (x.chain[..g.number], Block(g.hash, g.parent, Validated(g.raw).value));
            && Step(confirmations, x, g).chain == kept + [last]
            && !Collides(kept, last.hash, last.events)
            && if kept == [] then IsZeroHash(Lower(last.parent)) else last.parent == kept[|kept| - 1].hash
  {
  }

  lemma StepFinalizesWithin(confirmations: nat, x: Index, g: Ingest)
    requires x.finalized <= |x.chain|
    ensures Step(confirmations, x, g).finalized <= |Step(confirmations, x, g).chain|
  {
  }

  lemma StepKeepsInvariant(confirmations: nat, x: Index, g: Ingest)
    requires Invariant(x)
    ensures Invariant(Step(confirmations, x, g))
  {
    StepFinalizesWithin(confirmations, x, g);
    if Step(confirmations, x, g).chain != x.chain {
      StepAppends(confirmations, x, g);
      var (kept, last) := (x.chain[..g.number], Block(g.hash, g.parent, Validated(g.raw).value));
      PrefixKeepsBoth(x.chain, g.number);
      AppendKeepsLinks(kept, last);
      AppendKeepsUnique(kept, last);
    }
  }

  /** Every run leaves blocks contiguous from 0, linked by their hashes, with no block hash
      and no event identity twice. */
  lemma {:induction false} RunKeepsInvariant(confirmations: nat, gs: seq<Ingest>)
    ensures Invariant(Run(confirmations, EMPTY, gs))
  {
    if gs != [] {
      RunKeepsInvariant(confirmations, gs[..|gs| - 1]);
      StepKeepsInvariant(confirmations, Run(confirmations, EMPTY, gs[..|gs| - 1]), gs[|gs| - 1]);
    }
  }

  /** The finalized part of one index is the beginning of the finalized part of the other. */
  ghost predicate FinalPrefix(x: Index, x': Index) {
    x.finalized <= x'.finalized && x.finalized <= |x.chain| && x'.finalized <= |x'.chain|
    && x'.chain[..x.finalized] == x.chain[..x.finalized]
  }

  lemma StepExtendsFinal(confirmations: nat, x: Index, g: Ingest)
    requires x.finalized <= |x.chain|
    ensures FinalPrefix(x, Step(confirmations, x, g))
  {
  }

  /** What is final is never altered, whatever is ingested, replayed or reorganized later. */
  lemma {:induction false} FinalizedPartIsPermanent(confirmations: nat, gs: seq<Ingest>, n: nat)
    requires n <= |gs|
    ensures FinalPrefix(Run(confirmations, EMPTY, gs[..n]), Run(confirmations, EMPTY, gs))
    decreases |gs|
  {
    RunKeepsInvariant(confirmations, gs);
    if n == |gs| {
      assert gs[..n] == gs;
    } else {
      var before := gs[..|gs| - 1];
      assert before[..n] == gs[..n];
      FinalizedPartIsPermanent(confirmations, before, n);
      RunKeepsInvariant(confirmations, before);
      RunKeepsInvariant(confirmations, gs[..n]);
      StepExtendsFinal(confirmations, Run(confirmations, EMPTY, before), gs[|gs| - 1]);
      var (a, b, c) := (Run(confirmations, EMPTY, gs[..n]), Run(confirmations, EMPTY, before),
                        Run(confirmations, EMPTY, gs));
      assert c.chain[..a.finalized] == c.chain[..b.finalized][..a.finalized];
      assert b.chain[..a.finalized] == b.chain[..b.finalized][..a.finalized];
    }
  }

  /** One ingest finalizes the number, with its observed head `confirmations` above it. */
  ghost predicate Finalizes(confirmations: nat, x: Index, g: Ingest, number: nat) {
    && Apply(confirmations, x, g).Ok?
    && g.observedHead >= number + confirmations
    && x.finalized <= number < Apply(confirmations, x, g).value.finalized
  }

  lemma NewlyFinal(confirmations: nat, x: Index, g: Ingest, number: nat)
    requires x.finalized <= number < Step(confirmations, x, g).finalized
    ensures Finalizes(confirmations, x, g, number)
  {
  }

  lemma {:induction false} FinalizedBySome(confirmations: nat, gs: seq<Ingest>, number: nat) returns (k: nat)
    requires number < Run(confirmations, EMPTY, gs).finalized
    ensures k < |gs| && Finalizes(confirmations, Run(confirmations, EMPTY, gs[..k]), gs[k], number)
  {
    var before := gs[..|gs| - 1];
    if number < Run(confirmations, EMPTY, before).finalized {
      k := FinalizedBySome(confirmations, before, number);
      assert before[..k] == gs[..k];
    } else {
      k := |gs| - 1;
      NewlyFinal(confirmations, Run(confirmations, EMPTY, before), gs[k], number);
    }
  }

  lemma SameFinalBlock(x: Index, x': Index, number: nat)
    requires FinalPrefix(x, x') && number < x.finalized
    ensures number < |x.chain| && number < |x'.chain| && x'.chain[number] == x.chain[number]
  {
    assert x'.chain[..x.finalized][number] == x.chain[..x.finalized][number];
  }

  /** Every final block was made final by one ingest that observed `confirmations` blocks above
      it, and has not changed since. */
  lemma FinalBlocksWereConfirmed(confirmations: nat, gs: seq<Ingest>, number: nat) returns (k: nat)
    requires number < Run(confirmations, EMPTY, gs).finalized
    ensures k < |gs| && Finalizes(confirmations, Run(confirmations, EMPTY, gs[..k]), gs[k], number)
    ensures var (there, now) := (Run(confirmations, EMPTY, gs[..k + 1]), Run(confirmations, EMPTY, gs));
            && number < |there.chain| && number < |now.chain| && there.chain[number] == now.chain[number]
  {
    k := FinalizedBySome(confirmations, gs, number);
    assert gs[..k + 1][..k] == gs[..k];
    FinalizedPartIsPermanent(confirmations, gs, k + 1);
    SameFinalBlock(Run(confirmations, EMPTY, gs[..k + 1]), Run(confirmations, EMPTY, gs), number);
  }

  /** The ingests of a history that were accepted when they came. */
  ghost function Accepted(confirmations: nat, gs: seq<Ingest>): seq<Ingest> {
    if gs == [] then []
    else
      var (before, last) := (gs[..|gs| - 1], gs[|gs| - 1]);
      Accepted(confirmations, before) + if Apply(confirmations, Run(confirmations, EMPTY, before), last).Ok? then
        [last] else []
  }

  lemma OneTaken(confirmations: nat, gs: seq<Ingest>, g: Ingest)
    requires Apply(confirmations, Run(confirmations, EMPTY, gs), g).Ok?
    ensures Run(confirmations, EMPTY, gs + [g]) == Step(confirmations, Run(confirmations, EMPTY, gs), g)
    ensures Accepted(confirmations, gs + [g]) == Accepted(confirmations, gs) + [g]
  {
    assert (gs + [g])[..|gs|] == gs;
  }

  lemma OneRefused(confirmations: nat, gs: seq<Ingest>, g: Ingest)
    requires Apply(confirmations, Run(confirmations, EMPTY, gs), g).Err?
    ensures Run(confirmations, EMPTY, gs + [g]) == Run(confirmations, EMPTY, gs)
    ensures Accepted(confirmations, gs + [g]) == Accepted(confirmations, gs)
  {
    assert (gs + [g])[..|gs|] == gs;
  }

  /** Refused ingests leave no trace: a history ends in the same index without them, and without
      them nothing in it is refused. */
  lemma {:induction false} RefusedLeaveNoTrace(confirmations: nat, gs: seq<Ingest>)
    ensures Run(confirmations, EMPTY, Accepted(confirmations, gs)) == Run(confirmations, EMPTY, gs)
    ensures Accepted(confirmations, Accepted(confirmations, gs)) == Accepted(confirmations, gs)
  {
    if gs != [] {
      var (before, last) := (gs[..|gs| - 1], gs[|gs| - 1]);
      assert gs == before + [last];
      RefusedLeaveNoTrace(confirmations, before);
      if Apply(confirmations, Run(confirmations, EMPTY, before), last).Ok? {
        OneTaken(confirmations, before, last);
        OneTaken(confirmations, Accepted(confirmations, before), last);
      } else {
        OneRefused(confirmations, before, last);
      }
    }
  }

  // --------------------------------------------------------- finalized events

  datatype EventRow = EventRow(id: EventId, number: int, data: EventData)

  ghost predicate IsFinal(x: Index, row: EventRow)
    requires x.finalized <= |x.chain|
  {
    && 0 <= row.number < x.finalized
    && row.id in x.chain[row.number].events
    && x.chain[row.number].events[row.id] == row.data
  }

  /** The order the query asks for: block number, then log index. */
  predicate InOrder(a: EventRow, b: EventRow) {
    a.number < b.number || (a.number == b.number && a.id.logIndex <= b.id.logIndex)
  }

  /** One possible answer to the query for finalized events. The query does not order
      events of one block with equal log indexes. */
  ghost predicate IsListing(x: Index, rows: seq<EventRow>)
    requires x.finalized <= |x.chain|
  {
    && (forall row :: row in rows <==> IsFinal(x, row))
    && (forall i, j | 0 <= i < j < |rows| :: rows[i] != rows[j])
    && (forall i, j | 0 <= i < j < |rows| :: InOrder(rows[i], rows[j]))
  }

  /** The rows up to the last one below a block number. */
  lemma {:induction false} SplitAt(rows: seq<EventRow>, number: int) returns (k: nat)
    requires forall i, j | 0 <= i < j < |rows| :: InOrder(rows[i], rows[j])
    ensures k <= |rows| && (forall i | 0 <= i < k :: rows[i].number < number) &&
            (forall i | k <= i < |rows| :: rows[i].number >= number)
  {
    if rows == [] || rows[|rows| - 1].number < number {
      k := |rows|;
    } else {
      k := SplitAt(rows[..|rows| - 1], number);
    }
  }

  lemma {:induction false} SameLength<T(!new)>(a: seq<T>, b: seq<T>)
    requires forall x :: x in a <==> x in b
    requires forall i, j | 0 <= i < j < |a| :: a[i] != a[j]
    requires forall i, j | 0 <= i < j < |b| :: b[i] != b[j]
    ensures |a| == |b|
  {
    ElementCount(a);
    ElementCount(b);
    assert (set x | x in a) == (set x | x in b);
  }

  lemma {:induction false} ElementCount<T(!new)>(a: seq<T>)
    requires forall i, j | 0 <= i < j < |a| :: a[i] != a[j]
    ensures |set x | x in a| == |a|
  {
    if a != [] {
      var (rest, last) := (a[..|a| - 1], a[|a| - 1]);
      ElementCount(rest);
      assert a == rest + [last];
      assert (set x | x in a) == (set x | x in rest) + {last};
    }
  }

  /** The finalized event list only grows at its end: a later answer begins with an answer
      for the earlier state. */
  lemma FinalizedEventsGrowAtEnd(x: Index, x': Index, rows: seq<EventRow>, rows': seq<EventRow>)
    requires FinalPrefix(x, x')
    requires IsListing(x, rows) && IsListing(x', rows')
    ensures |rows| <= |rows'| && IsListing(x, rows'[..|rows|])
  {
    var k := SplitAt(rows', x.finalized);
    var front := rows'[..k];
    forall row
      ensures row in front <==> IsFinal(x, row)
    {
      SameFinalRow(x, x', row);
      if IsFinal(x, row) {
        assert row in rows';
        var i :| 0 <= i < |rows'| && rows'[i] == row;
        assert i < k && front[i] == row;
      }
      if row in front { assert row in rows'; }
    }
    SameLength(front, rows);
  }

  lemma SameFinalRow(x: Index, x': Index, row: EventRow)
    requires FinalPrefix(x, x')
    ensures IsFinal(x, row) <==> IsFinal(x', row) && row.number < x.finalized
  {
    if 0 <= row.number < x.finalized {
      assert x.chain[..x.finalized][row.number] == x'.chain[..x.finalized][row.number];
    }
  }

  /** Within a final block no two events share a log index. */
  ghost predicate DistinctLogs(x: Index)
    requires x.finalized <= |x.chain|
  {
    forall a, b | IsFinal(x, a) && IsFinal(x, b) && a != b :: a.number != b.number || a.id.logIndex != b.id.logIndex
  }

  lemma {:induction false} OrderedListsEqual(a: seq<EventRow>, b: seq<EventRow>)
    requires forall row :: row in a <==> row in b
    requires forall i, j | 0 <= i < j < |a| :: InOrder(a[i], a[j]) && !InOrder(a[j], a[i])
    requires forall i, j | 0 <= i < j < |b| :: InOrder(b[i], b[j]) && !InOrder(b[j], b[i])
    requires |a| == |b|
    ensures a == b
  {
    if a != [] {
      var (x, y) := (a[|a| - 1], b[|b| - 1]);
      assert x in b && y in a;
      assert x == y;
      var (a', b') := (a[..|a| - 1], b[..|b| - 1]);
      assert a == a' + [x] && b == b' + [y];
      forall row
        ensures row in a' <==> row in b'
      {
        assert x !in a' && y !in b';
        assert row in a <==> row == x || row in a';
        assert row in b <==> row == y || row in b';
      }
      OrderedListsEqual(a', b');
    }
  }

  /** With distinct log indexes so far, an earlier answer is a prefix of every later one. */
  lemma FinalizedEventsDetermined(x: Index, x': Index, rows: seq<EventRow>, rows': seq<EventRow>)
    requires FinalPrefix(x, x') && DistinctLogs(x)
    requires IsListing(x, rows) && IsListing(x', rows')
    ensures rows <= rows'
  {
    FinalizedEventsGrowAtEnd(x, x', rows, rows');
    ListingsEqual(x, rows, rows'[..|rows|]);
  }

  lemma ListingsEqual(x: Index, rows: seq<EventRow>, rows': seq<EventRow>)
    requires x.finalized <= |x.chain| && DistinctLogs(x) && IsListing(x, rows) && IsListing(x, rows')
    ensures rows == rows'
  {
    StrictlyOrdered(x, rows);
    StrictlyOrdered(x, rows');
    SameLength(rows, rows');
    OrderedListsEqual(rows, rows');
  }

  lemma StrictlyOrdered(x: Index, rows: seq<EventRow>)
    requires x.finalized <= |x.chain| && DistinctLogs(x) && IsListing(x, rows)
    ensures forall i, j | 0 <= i < j < |rows| :: InOrder(rows[i], rows[j]) && !InOrder(rows[j], rows[i])
  {
    forall i, j | 0 <= i < j < |rows|
      ensures !InOrder(rows[j], rows[i])
    {
      assert rows[i] in rows && rows[j] in rows;
    }
  }

  /** Two neighbours with equal block number and log index. */
  ghost predicate TiedAt(rows: seq<EventRow>, i: nat) {
    i + 1 < |rows| && rows[i].number == rows[i + 1].number && rows[i].id.logIndex == rows[i + 1].id.logIndex
  }

  /** Tied neighbours in one answer stand the other way round in another answer. */
  lemma TiedEventsMaySwap(x: Index, rows: seq<EventRow>, i: nat)
    requires x.finalized <= |x.chain| && IsListing(x, rows) && TiedAt(rows, i)
    ensures IsListing(x, rows[i := rows[i + 1]][i + 1 := rows[i]]) && rows[i := rows[i + 1]][i + 1 := rows[i]] != rows
  {
    var swapped := rows[i := rows[i + 1]][i + 1 := rows[i]];
    forall row
      ensures row in swapped <==> row in rows
    {
      if row in rows {
        var k :| 0 <= k < |rows| && rows[k] == row;
        assert swapped[if k == i then i + 1 else if k == i + 1 then i else k] == row;
      }
    }
  }

  /** A tie anywhere in a block puts two tied rows next to each other. */
  lemma TieIsAdjacent(x: Index, rows: seq<EventRow>) returns (i: nat)
    requires x.finalized <= |x.chain| && IsListing(x, rows) && !DistinctLogs(x)
    ensures TiedAt(rows, i)
  {
    var a, b :| IsFinal(x, a) && IsFinal(x, b) && a != b && a.number == b.number && a.id.logIndex == b.id.logIndex;
    assert a in rows && b in rows;
    var j :| 0 <= j < |rows| && rows[j] == a;
    var k :| 0 <= k < |rows| && rows[k] == b;
    i := if j < k then j else k;
    var last := if j < k then k else j;
    assert InOrder(rows[i], rows[i + 1]);
    assert i + 1 == last || InOrder(rows[i + 1], rows[last]);
  }

  /** The answer is determined exactly when no two events of a final block share a log index. */
  lemma ListingDeterminedIff(x: Index, rows: seq<EventRow>)
    requires x.finalized <= |x.chain| && IsListing(x, rows)
    ensures (forall rows' | IsListing(x, rows') :: rows' == rows) <==> DistinctLogs(x)
  {
    if DistinctLogs(x) {
      forall rows' | IsListing(x, rows')
        ensures rows' == rows
      {
        ListingsEqual(x, rows, rows');
      }
    } else {
      var i := TieIsAdjacent(x, rows);
      TiedEventsMaySwap(x, rows, i);
    }
  }

  /** The first block, when it is ingested alone and is final at once. */
  lemma FirstBlockFinal(confirmations: nat, g: Ingest)
    requires g.number == 0 && InputError(g).None? && confirmations <= g.observedHead
    ensures Run(confirmations, EMPTY, [g]) == Index([Block(g.hash, g.parent, Validated(g.raw).value)], 1)
  {
    assert [g][..0] == [];
    assert EMPTY.chain[..0] + [Block(g.hash, g.parent, Validated(g.raw).value)] ==
           [Block(g.hash, g.parent, Validated(g.raw).value)];
  }

  lemma TwoValidated(a: RawEvent, b: RawEvent)
    requires ValidRaw(a) && ValidRaw(b) && IdOf(a) != IdOf(b) && a.payload.Some? && b.payload.Some?
    ensures Validated([a, b]) == Ok(map[IdOf(a) := EventData(a.name, a.payload.value),
                                        IdOf(b) := EventData(b.name, b.payload.value)])
  {
    assert [a, b][..1] == [a] && [a][..0] == [];
    assert Validated([a]) == Ok(map[IdOf(a) := EventData(a.name, a.payload.value)]);
  }

  /** Two events of different transactions with one log index, reported in the first block, tie
      once it is final. */
  lemma ReportedEventsTie(confirmations: nat, g: Ingest, a: RawEvent, b: RawEvent)
    requires g.number == 0 && InputError(g).None? && confirmations <= g.observedHead && g.raw == [a, b]
    requires ValidRaw(a) && ValidRaw(b) && a.payload.Some? && b.payload.Some?
    requires Lower(a.transaction) != Lower(b.transaction) && a.logIndex == b.logIndex
    ensures Run(confirmations, EMPTY, [g]).finalized == 1 && |Run(confirmations, EMPTY, [g]).chain| == 1
    ensures !DistinctLogs(Run(confirmations, EMPTY, [g]))
  {
    var x := Run(confirmations, EMPTY, [g]);
    FirstBlockFinal(confirmations, g);
    TwoValidated(a, b);
    assert IsFinal(x, EventRow(IdOf(a), 0, EventData(a.name, a.payload.value)));
    assert IsFinal(x, EventRow(IdOf(b), 0, EventData(b.name, b.payload.value)));
  }

  /** The ingest is sound, and alone reaches a final block with a tie. */
  ghost predicate Ties(confirmations: nat, g: Ingest) {
    var x := Run(confirmations, EMPTY, [g]);
    InputError(g).None? && x.finalized == 1 && |x.chain| == 1 && !DistinctLogs(x)
  }

  lemma FirstIngestSound(g: Ingest)
    requires g.number == 0 && 0 <= g.observedHead && IsIndexHash(g.hash)
    requires IsIndexHash(g.parent) && IsZeroHash(Lower(g.parent)) && Validated(g.raw).Ok?
    ensures InputError(g).None?
  {
  }

  lemma TwoEventsTie(confirmations: nat, g: Ingest, a: RawEvent, b: RawEvent)
    requires g.number == 0 && confirmations <= g.observedHead && g.raw == [a, b]
    requires IsIndexHash(g.hash) && IsIndexHash(g.parent) && IsZeroHash(Lower(g.parent))
    requires ValidRaw(a) && ValidRaw(b) && a.payload.Some? && b.payload.Some?
    requires Lower(a.transaction) != Lower(b.transaction) && a.logIndex == b.logIndex
    ensures Ties(confirmations, g)
  {
    TwoValidated(a, b);
    FirstIngestSound(g);
    ReportedEventsTie(confirmations, g, a, b);
  }

  /** Whatever the confirmations, a tie can be reached. */
  lemma TieIsReachable(confirmations: nat) returns (g: Ingest)
    ensures Ties(confirmations, g)
  {
    var (zero, one, two) := (DigitText('0', 64), DigitText('1', 64), DigitText('2', 64));
    DigitTextIsHash('0');
    DigitTextIsHash('1');
    DigitTextIsHash('2');
    assert one[0] != two[0];
    var (a, b) := (RawEvent(one, 0, one, Some(one)), RawEvent(two, 0, one, Some(one)));
    g := Ingest(0, one, zero, [a, b], confirmations);
    TwoEventsTie(confirmations, g, a, b);
  }

  lemma DigitTextIsHash(digit: char)
    requires '0' <= digit <= '9'
    ensures var s := DigitText(digit, 64); IsIndexHash(s) && Lower(s) == s && (digit == '0' ==> IsZeroHash(s))
  {
    var s := DigitText(digit, 64);
    assert s[..2][1] == digit;
    assert forall i | 0 <= i < |s| :: Lower(s)[i] == s[i];
  }
}
