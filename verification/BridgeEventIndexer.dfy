/** The index as two relational tables, changed inside transactions. */
module BridgeEventIndexers {
  import opened EventIndex
  import opened Prelude

  datatype BlockRow = BlockRow(hash: string, parent: string, finalized: bool)

  datatype EventTableRow = EventTableRow(number: int, data: EventData)

  type Blocks = map<int, BlockRow>
  type EventTable = map<EventId, EventTableRow>

  ghost predicate RepresentsBlocks(blocks: Blocks, x: Index) {
    && (forall n :: n in blocks <==> 0 <= n < |x.chain|)
    && (forall n | 0 <= n < |x.chain| :: blocks[n] == BlockRow(x.chain[n].hash, x.chain[n].parent, n < x.finalized))
  }

  ghost predicate RepresentsEvents(events: EventTable, chain: seq<Block>) {
    && (forall id | id in events :: 0 <= events[id].number < |chain| && id in chain[events[id].number].events)
    && (forall n | 0 <= n < |chain| :: forall id | id in chain[n].events ::
          id in events && events[id] == EventTableRow(n, chain[n].events[id]))
  }

  ghost predicate Represents(blocks: Blocks, events: EventTable, x: Index) {
    x.finalized <= |x.chain| && RepresentsBlocks(blocks, x) && RepresentsEvents(events, x.chain)
  }

  /** UPDATE blocks SET finalized=1 WHERE number <= through. */
  function MarkFinalized(blocks: Blocks, through: int): Blocks {
    map n | n in blocks :: if n <= through then blocks[n].(finalized := true) else blocks[n]
  }

  /** DELETE FROM blocks WHERE number >= n. */
  function BlocksBelow(blocks: Blocks, number: int): Blocks {
    map n | n in blocks && n < number :: blocks[n]
  }

  /** The cascade: events of deleted blocks go with them. */
  function EventsBelow(events: EventTable, number: int): EventTable {
    map id | id in events && events[id].number < number :: events[id]
  }

  lemma MarkFinalizedIsFinalize(blocks: Blocks, events: EventTable, x: Index, confirmations: nat, observedHead: int)
    requires Represents(blocks, events, x)
    ensures Represents(MarkFinalized(blocks, observedHead - confirmations), events,
                       Finalize(x, confirmations, observedHead))
  {
  }

  lemma BelowIsTruncation(blocks: Blocks, events: EventTable, x: Index, number: nat)
    requires Represents(blocks, events, x) && x.finalized <= number <= |x.chain|
    ensures Represents(BlocksBelow(blocks, number), EventsBelow(events, number), x.(chain := x.chain[..number]))
  {
  }

  lemma UniqueBlockIff(blocks: Blocks, x: Index, hash: string)
    requires RepresentsBlocks(blocks, x)
    ensures (exists n :: n in blocks && blocks[n].hash == hash) <==>
            exists i :: 0 <= i < |x.chain| && x.chain[i].hash == hash
  {
    if n :| n in blocks && blocks[n].hash == hash { assert x.chain[n].hash == hash; }
    if i :| 0 <= i < |x.chain| && x.chain[i].hash == hash { assert i in blocks && blocks[i].hash == hash; }
  }

  lemma UniqueEventsIff(events: EventTable, chain: seq<Block>, added: Events)
    requires RepresentsEvents(events, chain)
    ensures (events.Keys !! added.Keys) <==> forall i | 0 <= i < |chain| :: chain[i].events.Keys !! added.Keys
  {
    if !(events.Keys !! added.Keys) {
      var id :| id in events && id in added;
      assert id in chain[events[id].number].events;
    }
    forall i | 0 <= i < |chain| && events.Keys !! added.Keys
      ensures chain[i].events.Keys !! added.Keys
    {
      assert forall id | id in chain[i].events :: id in events;
    }
  }

  function WithEvents(events: EventTable, number: int, added: Events): EventTable {
    events + (map id | id in added :: EventTableRow(number, added[id]))
  }

  lemma AppendBlock(blocks: Blocks, x: Index, hash: string, parent: string, added: Events)
    requires RepresentsBlocks(blocks, x) && x.finalized <= |x.chain|
    ensures RepresentsBlocks(blocks[|x.chain| := BlockRow(hash, parent, false)],
                             x.(chain := x.chain + [Block(hash, parent, added)]))
  {
  }

  lemma AppendedEventIsListed(events: EventTable, chain: seq<Block>, block: Block, id: EventId)
    requires RepresentsEvents(events, chain) && id in WithEvents(events, |chain|, block.events)
    ensures var number := WithEvents(events, |chain|, block.events)[id].number;
            0 <= number < |chain + [block]| && id in (chain + [block])[number].events
  {
  }

  lemma ListedEventStays(events: EventTable, chain: seq<Block>, added: Events, n: nat, id: EventId)
    requires RepresentsEvents(events, chain) && events.Keys !! added.Keys && n < |chain| && id in chain[n].events
    ensures var events' := WithEvents(events, |chain|, added);
            id in events' && events'[id] == EventTableRow(n, chain[n].events[id])
  {
    assert id in events && id !in added;
  }

  lemma AppendEvents(events: EventTable, chain: seq<Block>, hash: string, parent: string, added: Events)
    requires RepresentsEvents(events, chain) && events.Keys !! added.Keys
    ensures RepresentsEvents(WithEvents(events, |chain|, added), chain + [Block(hash, parent, added)])
  {
    var (events', longer) := (WithEvents(events, |chain|, added), chain + [Block(hash, parent, added)]);
    forall id | id in events'
      ensures 0 <= events'[id].number < |longer| && id in longer[events'[id].number].events
    {
      AppendedEventIsListed(events, chain, Block(hash, parent, added), id);
    }
    forall n, id | 0 <= n < |longer| && id in longer[n].events
      ensures id in events' && events'[id] == EventTableRow(n, longer[n].events[id])
    {
      if n < |chain| { ListedEventStays(events, chain, added, n, id); }
    }
  }

  lemma AppendRepresents(blocks: Blocks, events: EventTable, x: Index, hash: string, parent: string, added: Events)
    requires Represents(blocks, events, x) && events.Keys !! added.Keys
    ensures Represents(blocks[|x.chain| := BlockRow(hash, parent, false)], WithEvents(events, |x.chain|, added),
                       x.(chain := x.chain + [Block(hash, parent, added)]))
  {
    AppendBlock(blocks, x, hash, parent, added);
    AppendEvents(events, x.chain, hash, parent, added);
  }

  /** Inserting a row as final when its number is within reach makes no difference to the
      update that follows. */
  lemma InsertThenMark(blocks: Blocks, number: int, hash: string, parent: string, through: int)
    ensures MarkFinalized(blocks[number := BlockRow(hash, parent, number <= through)], through) ==
            MarkFinalized(blocks[number := BlockRow(hash, parent, false)], through)
  {
  }

  lemma MarkInserted(blocks: Blocks, inserted: Blocks, events: EventTable, longer: Index, g: Ingest, confirmations: nat)
    requires inserted == blocks[g.number := BlockRow(g.hash, g.parent, false)] && Represents(inserted, events, longer)
    ensures var through := g.observedHead - confirmations;
            var marked := MarkFinalized(blocks[g.number := BlockRow(g.hash, g.parent, g.number <= through)], through);
            && g.number in marked
            && Represents(marked, events, Finalize(longer, confirmations, g.observedHead))
  {
    InsertThenMark(blocks, g.number, g.hash, g.parent, g.observedHead - confirmations);
    MarkFinalizedIsFinalize(inserted, events, longer, confirmations, g.observedHead);
    assert g.number in inserted;
  }

  lemma InsertRepresents(blocks: Blocks, events: EventTable, x: Index, g: Ingest, added: Events, confirmations: nat)
    requires Represents(blocks, events, x) && g.number == |x.chain| && events.Keys !! added.Keys
    ensures var through := g.observedHead - confirmations;
            var marked := MarkFinalized(blocks[g.number := BlockRow(g.hash, g.parent, g.number <= through)], through);
            && g.number in marked
            && Represents(marked, WithEvents(events, g.number, added),
                          Finalize(x.(chain := x.chain + [Block(g.hash, g.parent, added)]), confirmations,
                                   g.observedHead))
  {
    var inserted := blocks[g.number := BlockRow(g.hash, g.parent, false)];
    AppendRepresents(blocks, events, x, g.hash, g.parent, added);
    MarkInserted(blocks, inserted, WithEvents(events, g.number, added),
                 x.(chain := x.chain + [Block(g.hash, g.parent, added)]), g, confirmations);
  }

  lemma {:induction false} FirstErrorStays(raw: seq<RawEvent>, n: nat)
    requires n <= |raw| && Validated(raw[..n]).Err?
    ensures Validated(raw) == Validated(raw[..n])
  {
    if n == |raw| {
      assert raw[..n] == raw;
    } else {
      assert raw[..|raw| - 1][..n] == raw[..n];
      FirstErrorStays(raw[..|raw| - 1], n);
    }
  }

  class BridgeEventIndexer {
    const confirmations: nat
    var blocks: Blocks
    var events: EventTable
    /** The list that the tables stand for. */
    ghost var index: Index

    ghost predicate Valid()
      reads this
    {
      Represents(blocks, events, index) && Invariant(index)
    }

    constructor (confirmations: nat)
      requires 1 <= confirmations
      ensures Valid() && index == EMPTY && this.confirmations == confirmations
    {
      this.confirmations := confirmations;
      blocks, events, index := map[], map[], EMPTY;
    }

    /** Collects the reported events, refusing repeated identities. */
    method ValidatedEvents(raw: seq<RawEvent>) returns (r: Result<Events, IndexError>)
      ensures r == Validated(raw)
    {
      var collected: Events := map[];
      for i := 0 to |raw|
        invariant Validated(raw[..i]) == Ok(collected)
      {
        assert raw[..i + 1][..i] == raw[..i];
        var e := raw[i];
        if Validated(raw[..i + 1]).Err? { FirstErrorStays(raw, i + 1); }
        if !IsIndexHash(e.transaction) { return Err(InvalidHash); }
        if e.logIndex < 0 || e.name == "" { return Err(InvalidEvent); }
        var id := EventId(Lower(e.transaction), e.logIndex);
        if id in collected { return Err(DuplicateEvent); }
        if e.payload.None? { return Err(PayloadNotCanonical); }
        collected := collected[id := EventData(e.name, e.payload.value)];
      }
      assert raw[..|raw|] == raw;
      return Ok(collected);
    }

    /** One transaction: it ends as the list says, or leaves both tables as they were. */
    method IngestBlock(g: Ingest) returns (r: Result<BlockRow, IndexError>)
      requires Valid()
      modifies this
      ensures Valid()
      ensures match Apply(confirmations, old(index), g)
              case Ok(x) => index == x && g.number in blocks && r == Ok(blocks[g.number])
              case Err(e) => index == old(index) && blocks == old(blocks) && events == old(events) && r == Err(e)
    {
      ghost var x := index;
      StepKeepsInvariant(confirmations, x, g);
      if !IsIndexHash(g.hash) || !IsIndexHash(g.parent) { return Err(InvalidHash); }
      if g.number < 0 || g.observedHead < g.number { return Err(InvalidHeight); }
      if g.number == 0 && !IsZeroHash(Lower(g.parent)) { return Err(InvalidGenesisParent); }
      var validated := ValidatedEvents(g.raw);
      if validated.Err? { return Err(validated.error); }
      var through := g.observedHead - confirmations;
      if g.number > 0 && g.number - 1 !in blocks { return Err(NotContiguous); }
      if g.number > 0 && blocks[g.number - 1].hash != g.parent {
        return Err(if blocks[g.number - 1].finalized then CrossesFinalized else AncestorFirst);
      }
      r := PlaceBlock(g, validated.value, through);
    }

    /** Marks what has become final if the block is there already, and otherwise replaces what is
        not final. */
    method PlaceBlock(g: Ingest, added: Events, through: int) returns (r: Result<BlockRow, IndexError>)
      requires Represents(blocks, events, index)
      requires 0 <= g.number <= |index.chain| && through == g.observedHead - confirmations
      modifies this
      ensures match Place(confirmations, old(index), g, added)
              case Ok(x) => index == x && Represents(blocks, events, index) && g.number in blocks &&
                r == Ok(blocks[g.number])
              case Err(e) => index == old(index) && blocks == old(blocks) && events == old(events) && r == Err(e)
    {
      if g.number in blocks {
        var existing := blocks[g.number];
        if existing.hash == g.hash {
          MarkFinalizedIsFinalize(blocks, events, index, confirmations, g.observedHead);
          blocks := MarkFinalized(blocks, through);
          index := Finalize(index, confirmations, g.observedHead);
          return Ok(blocks[g.number]);
        }
        if existing.finalized { return Err(FinalizedBlock); }
      }
      r := Replace(g, added, through);
    }

    /** Deletes the blocks from this number up, if there are any, and inserts the new one. */
    method Replace(g: Ingest, added: Events, through: int) returns (r: Result<BlockRow, IndexError>)
      requires Represents(blocks, events, index)
      requires index.finalized <= g.number <= |index.chain| && through == g.observedHead - confirmations
      modifies this
      ensures var kept := old(index).chain[..g.number];
              if Collides(kept, g.hash, added) then
                r == Err(UniqueViolation) && index == old(index) && blocks == old(blocks) && events == old(events)
              else
                && index == Finalize(Index(kept + [Block(g.hash, g.parent, added)], old(index).finalized),
                                     confirmations, g.observedHead)
                && Represents(blocks, events, index) && g.number in blocks && r == Ok(blocks[g.number])
    {
      ghost var truncated := index.(chain := index.chain[..g.number]);
      var savedBlocks, savedEvents := blocks, events;
      if g.number in blocks { RollbackFrom(g.number); } else { assert truncated == index; }
      r := InsertOrRestore(g, added, through, truncated, savedBlocks, savedEvents);
    }

    /** Inserts the block, unless its hash or one of its events is there already: then the tables
        are put back as they were. */
    method InsertOrRestore(g: Ingest, added: Events, through: int, ghost x: Index, savedBlocks: Blocks,
                           savedEvents: EventTable)
      returns (r: Result<BlockRow, IndexError>)
      requires Represents(blocks, events, x) && g.number == |x.chain| && through == g.observedHead - confirmations
      modifies this
      ensures if Collides(x.chain, g.hash, added) then
                r == Err(UniqueViolation) && index == old(index) && blocks == savedBlocks && events == savedEvents
              else
                && index == Finalize(x.(chain := x.chain + [Block(g.hash, g.parent, added)]), confirmations,
                                     g.observedHead)
                && Represents(blocks, events, index) && g.number in blocks && r == Ok(blocks[g.number])
    {
      CollidesIff(blocks, events, x, g.hash, added);
      if (exists n | n in blocks :: blocks[n].hash == g.hash) || !(events.Keys !! added.Keys) {
        blocks, events := savedBlocks, savedEvents;
        return Err(UniqueViolation);
      }
      r := Insert(g, added, through, x);
    }

    /** Inserts the block and its events, and marks what has become final. */
    method Insert(g: Ingest, added: Events, through: int, ghost x: Index) returns (r: Result<BlockRow, IndexError>)
      requires Represents(blocks, events, x) && g.number == |x.chain| && events.Keys !! added.Keys
      requires through == g.observedHead - confirmations
      modifies this
      ensures index == Finalize(x.(chain := x.chain + [Block(g.hash, g.parent, added)]), confirmations, g.observedHead)
      ensures Represents(blocks, events, index) && g.number in blocks && r == Ok(blocks[g.number])
    {
      InsertRepresents(blocks, events, x, g, added, confirmations);
      blocks := blocks[g.number := BlockRow(g.hash, g.parent, g.number <= through)];
      events := WithEvents(events, g.number, added);
      blocks := MarkFinalized(blocks, through);
      index := Finalize(x.(chain := x.chain + [Block(g.hash, g.parent, added)]), confirmations, g.observedHead);
      return Ok(blocks[g.number]);
    }

    /** Deletes the blocks from this number up. None of them is final, so the guard against
        crossing a finalized block never stops it. */
    method RollbackFrom(number: int)
      requires Represents(blocks, events, index) && index.finalized <= number <= |index.chain|
      modifies this`blocks, this`events
      ensures Represents(blocks, events, index.(chain := index.chain[..number]))
    {
      if exists n | n in blocks :: n >= number && blocks[n].finalized {
        assert false;
      }
      BelowIsTruncation(blocks, events, index, number);
      blocks, events := BlocksBelow(blocks, number), EventsBelow(events, number);
    }

    /** One answer to the query for finalized events: repeatedly the first remaining row in
        the order of block number and log index. */
    method FinalizedEvents() returns (rows: seq<EventRow>)
      requires Valid()
      ensures IsListing(index, rows)
    {
      rows := [];
      var rest := set id | id in events && events[id].number in blocks && blocks[events[id].number].finalized;
      ghost var all := rest;
      while rest != {}
        invariant ListedSoFar(events, all, rest, rows)
        decreases rest
      {
        var id := First(rest);
        ListStep(events, all, rest, rows, id);
        rows := rows + [RowOf(events, id)];
        rest := rest - {id};
      }
      assert all - {} == all;
      ListedRows(events, blocks, index, all, rows);
    }

    /** Some identity whose row comes before the rows of all others. */
    method First(ids: set<EventId>) returns (least: EventId)
      requires ids != {} && forall id | id in ids :: id in events
      ensures least in ids && forall id | id in ids :: InOrder(RowOf(events, least), RowOf(events, id))
    {
      least := Pick(ids);
      var rest := ids - {least};
      while rest != {}
        invariant least in ids && rest <= ids
        invariant forall id | id in ids - rest :: InOrder(RowOf(events, least), RowOf(events, id))
        decreases rest
      {
        var id := Pick(rest);
        rest := rest - {id};
        if !InOrder(RowOf(events, least), RowOf(events, id)) { least := id; }
      }
    }
  }

  function RowOf(events: EventTable, id: EventId): EventRow {
    if id in events then EventRow(id, events[id].number, events[id].data) else EventRow(id, 0, EventData("", ""))
  }

  lemma CollidesIff(blocks: Blocks, events: EventTable, x: Index, hash: string, added: Events)
    requires Represents(blocks, events, x)
    ensures Collides(x.chain, hash, added) <==>
            (exists n | n in blocks :: blocks[n].hash == hash) || !(events.Keys !! added.Keys)
  {
    UniqueBlockIff(blocks, x, hash);
    UniqueEventsIff(events, x.chain, added);
  }

  /** The rows of exactly these identities, each once, in order. */
  ghost predicate Listed(events: EventTable, ids: set<EventId>, rows: seq<EventRow>) {
    && (forall i | 0 <= i < |rows| :: rows[i].id in ids && rows[i] == RowOf(events, rows[i].id))
    && (forall id | id in ids :: RowOf(events, id) in rows)
    && (forall i, j | 0 <= i < j < |rows| :: rows[i].id != rows[j].id && InOrder(rows[i], rows[j]))
  }

  lemma ListNext(events: EventTable, ids: set<EventId>, rows: seq<EventRow>, id: EventId)
    requires Listed(events, ids, rows) && id in events && id !in ids
    requires forall i | 0 <= i < |rows| :: InOrder(rows[i], RowOf(events, id))
    ensures Listed(events, ids + {id}, rows + [RowOf(events, id)])
  {
  }

  /** All but the remaining rows are listed, and the remaining ones come after them. */
  ghost predicate ListedSoFar(events: EventTable, all: set<EventId>, rest: set<EventId>, rows: seq<EventRow>) {
    && rest <= all <= events.Keys && Listed(events, all - rest, rows)
    && forall i, id | 0 <= i < |rows| && id in rest :: InOrder(rows[i], RowOf(events, id))
  }

  lemma ListStep(events: EventTable, all: set<EventId>, rest: set<EventId>, rows: seq<EventRow>, id: EventId)
    requires ListedSoFar(events, all, rest, rows) && id in rest
    requires forall other | other in rest :: InOrder(RowOf(events, id), RowOf(events, other))
    ensures ListedSoFar(events, all, rest - {id}, rows + [RowOf(events, id)])
  {
    ListNext(events, all - rest, rows, id);
    assert all - (rest - {id}) == all - rest + {id};
  }

  lemma ListedRows(events: EventTable, blocks: Blocks, x: Index, all: set<EventId>, rows: seq<EventRow>)
    requires Represents(blocks, events, x)
    requires all == set id | id in events && events[id].number in blocks && blocks[events[id].number].finalized
    requires Listed(events, all, rows)
    ensures IsListing(x, rows)
  {
    forall row
      ensures row in rows <==> IsFinal(x, row)
    {
      if IsFinal(x, row) {
        assert row.id in all && row == RowOf(events, row.id);
      }
      if row in rows {
        assert row.id in all && row == RowOf(events, row.id);
      }
    }
  }
}
