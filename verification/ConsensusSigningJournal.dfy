/** The signing journal as an object over a shared database. */
module ConsensusSigningJournals {
  import opened Prelude
  import opened SigningJournal
  import opened Votes

  /** The durable database file. Every method that changes it is one transaction: it
      either completes or leaves the tables as they were. */
  class Database {
    var chain: Option<int>
    var rows: map<Slot, Row>
    var marks: map<string, Mark>

    ghost function Contents(): Disk
      reads this
    {
      Disk(chain, rows, marks)
    }
  }

  class ConsensusSigningJournal {
    const chainId: int
    const connection: Database

    ghost predicate Valid()
      reads this, connection
    {
      Sound(chainId, connection.Contents())
    }

    constructor (connection: Database, chainId: int)
      ensures this.connection == connection && this.chainId == chainId
    {
      this.connection, this.chainId := connection, chainId;
    }

    /** Opens the journal kept in `connection`. */
    static method Open(connection: Database, chainId: int) returns (r: Result<ConsensusSigningJournal, JournalError>)
      modifies connection
      ensures connection.Contents() == SigningJournal.Open(chainId, old(connection.Contents())).0
      ensures match r
              case Ok(journal) =>
                && SigningJournal.Open(chainId, old(connection.Contents())).1.Ok?
                && journal.connection == connection && journal.chainId == chainId && journal.Valid()
              case Err(e) => SigningJournal.Open(chainId, old(connection.Contents())).1 == Err(e)
    {
      OpenSucceedsIff(chainId, connection.Contents());
      if chainId <= 0 { return Err(ChainIdNotPositive); }
      if connection.chain.None? {
        connection.chain := Some(chainId);
      } else if connection.chain.value != chainId {
        return Err(WrongChain);
      }
      var stored := RestoreWatermarks(connection);
      if !stored { return Err(IntegrityCheckFailed); }
      var valid := ValidatePersistedState(connection, chainId);
      if !valid { return Err(IntegrityCheckFailed); }
      var journal := new ConsensusSigningJournal(connection, chainId);
      return Ok(journal);
    }

    /** Upserts, for each validator, the signature that no newer one of it exceeds. */
    static method RestoreWatermarks(connection: Database) returns (stored: bool)
      modifies connection`marks
      ensures stored <==> Storable(Latest(connection.rows))
      ensures connection.marks == if stored then Restored(old(connection.Contents())) else old(connection.marks)
    {
      ghost var (rows, latest, initial) := (connection.rows, Latest(connection.rows), connection.marks);
      var marks := connection.marks;
      var rest := connection.rows.Keys;
      while rest != {}
        invariant rest <= rows.Keys
        invariant Merged(latest, initial, rest, marks)
        invariant StorableOutside(latest, rest)
        invariant connection.marks == initial
        decreases rest
      {
        var slot :| slot in rest;
        MaximumIff(rows, slot);
        MergedStep(latest, initial, rest, marks, slot);
        rest := rest - {slot};
        if forall newer | newer in connection.rows :: !(newer.0 == slot.0 && Before(MarkOf(slot), MarkOf(newer))) {
          if slot.1 <= 0 || slot.2 < 0 { return false; }
          marks := Raise(marks, slot.0, MarkOf(slot));
        }
      }
      MergedAll(rows, initial, marks);
      connection.marks := marks;
      return true;
    }

    /** Checks every stored row and collects the latest signature of each validator. */
    static method ValidatePersistedState(connection: Database, chainId: int) returns (valid: bool)
      ensures valid <==> AllCanonical(chainId, connection.rows) && connection.marks == Latest(connection.rows)
    {
      ghost var rows := connection.rows;
      var latest: map<string, Mark> := map[];
      var rest := connection.rows.Keys;
      while rest != {}
        invariant rest <= rows.Keys
        invariant forall slot | slot in rows.Keys - rest :: CanonicalRow(chainId, slot, rows[slot])
        invariant forall slot | slot in rows.Keys - rest :: slot.0 in latest && !Before(latest[slot.0], MarkOf(slot))
        invariant forall id | id in latest :: (id, latest[id].height, latest[id].round) in rows.Keys - rest
        decreases rest
      {
        var slot :| slot in rest;
        var row := connection.rows[slot];
        if
          || !IsValidatorId(slot.0) || slot.1 <= 0 || slot.2 < 0
          || !IsCanonicalHash(row.blockHash) || !IsSignature(row.signature)
          || PayloadDigest(Expected(chainId, slot, row.blockHash)) != row.digest
        {
          assert !CanonicalRow(chainId, slot, rows[slot]);
          return false;
        }
        rest := rest - {slot};
        if slot.0 !in latest || Before(latest[slot.0], MarkOf(slot)) {
          latest := latest[slot.0 := MarkOf(slot)];
        }
      }
      CollectedIsLatest(rows, latest);
      return connection.marks == latest;
    }

    method GetOrSign(req: Request, signer: () -> Option<Bytes>, verifier: Bytes -> bool)
      returns (r: Result<Bytes, JournalError>)
      requires Valid()
      modifies connection
      ensures Valid()
      ensures (connection.Contents(), r) ==
              SigningJournal.GetOrSign(chainId, old(connection.Contents()), req, signer(), verifier)
    {
      GetOrSignKeepsSound(chainId, connection.Contents(), req, signer(), verifier);
      var error := RequestError(chainId, req);
      if error.Some? { return Err(error.value); }
      var digest := PayloadDigest(req.payload);
      var slot := req.Slot();
      if slot in connection.rows {
        var row := connection.rows[slot];
        if row.blockHash != req.blockHash || row.digest != digest { return Err(WouldDoubleSign); }
        if !verifier(row.signature) { return Err(VerificationFailed); }
        return Ok(row.signature);
      }
      if req.validatorId in connection.marks {
        var watermark := connection.marks[req.validatorId];
        if req.height < watermark.height || (req.height == watermark.height && req.round < watermark.round) {
          return Err(BelowWatermark);
        }
      }
      var signed := signer();
      if signed.None? { return Err(SignerFailed); }
      var signature := signed.value;
      if |signature| != 64 && |signature| != 65 { return Err(InvalidSignature); }
      if !verifier(signature) { return Err(VerificationFailed); }
      connection.rows := connection.rows[slot := Row(req.blockHash, digest, signature)];
      if req.validatorId !in connection.marks || Before(connection.marks[req.validatorId], MarkOf(slot)) {
        connection.marks := connection.marks[req.validatorId := MarkOf(slot)];
      }
      return Ok(signature);
    }
  }

  ghost predicate IsMaximum(latest: map<string, Mark>, slot: Slot) {
    slot.0 in latest && latest[slot.0] == MarkOf(slot)
  }

  ghost function TopOf(id: string, mark: Mark): Slot {
    (id, mark.height, mark.round)
  }

  /** The watermarks once the maxima outside `rest` have been merged in. */
  ghost predicate Merged(latest: map<string, Mark>, initial: map<string, Mark>, rest: set<Slot>,
                         marks: map<string, Mark>)
  {
    && (forall id :: id in marks <==> id in initial || (id in latest && TopOf(id, latest[id]) !in rest))
    && (forall id | id in marks ::
          marks[id] ==
          if id in latest && TopOf(id, latest[id]) !in rest && (id in initial ==> Before(initial[id], latest[id]))
          then latest[id] else if id in initial then initial[id] else marks[id])
  }

  ghost predicate StorableOutside(latest: map<string, Mark>, rest: set<Slot>) {
    forall id | id in latest && TopOf(id, latest[id]) !in rest :: 0 < latest[id].height && 0 <= latest[id].round
  }

  lemma MergedAll(rows: map<Slot, Row>, initial: map<string, Mark>, marks: map<string, Mark>)
    requires Merged(Latest(rows), initial, {}, marks)
    ensures forall chain :: marks == Restored(Disk(chain, rows, initial))
  {
    forall chain
      ensures marks == Restored(Disk(chain, rows, initial))
    {
      var restored := Restored(Disk(chain, rows, initial));
      assert forall id :: id in marks <==> id in restored;
    }
  }

  lemma MergedStep(latest: map<string, Mark>, initial: map<string, Mark>, rest: set<Slot>, marks: map<string, Mark>,
                   slot: Slot)
    requires Merged(latest, initial, rest, marks) && slot in rest
    ensures Merged(latest, initial, rest - {slot}, if IsMaximum(latest, slot) then Raise(marks, slot.0, MarkOf(slot))
                   else marks)
  {
  }

  lemma MaximumIff(rows: map<Slot, Row>, slot: Slot)
    requires slot in rows
    ensures slot.0 in Latest(rows)
    ensures IsMaximum(Latest(rows), slot) <==>
            forall newer | newer in rows :: !(newer.0 == slot.0 && Before(MarkOf(slot), MarkOf(newer)))
  {
    var latest := Latest(rows);
    assert slot.0 in Signers(rows);
    assert IsLatest(rows, slot.0, latest[slot.0]);
    assert (slot.0, latest[slot.0].height, latest[slot.0].round) in rows;
    if forall newer | newer in rows :: !(newer.0 == slot.0 && Before(MarkOf(slot), MarkOf(newer))) {
      assert (slot.0, MarkOf(slot).height, MarkOf(slot).round) == slot;
      assert IsLatest(rows, slot.0, MarkOf(slot));
      LatestUnique(rows, slot.0, MarkOf(slot));
    }
  }

  lemma CollectedIsLatest(rows: map<Slot, Row>, latest: map<string, Mark>)
    requires forall slot | slot in rows :: slot.0 in latest && !Before(latest[slot.0], MarkOf(slot))
    requires forall id | id in latest :: (id, latest[id].height, latest[id].round) in rows
    ensures latest == Latest(rows)
  {
    forall id
      ensures id in latest <==> id in Signers(rows)
    {
      if id in latest { assert (id, latest[id].height, latest[id].round).0 in Signers(rows); }
    }
    forall id | id in latest
      ensures latest[id] == Latest(rows)[id]
    {
      assert IsLatest(rows, id, latest[id]);
      LatestUnique(rows, id, latest[id]);
    }
  }
}
