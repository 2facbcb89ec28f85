/**
 The durable control store: one transaction a persist, with failpoints on the way and a database that
 may fail at any statement. A transaction is a copy of the tables that replaces them at its commit;
 returning before that rolls it back.
 */
module DurableStores {
  import opened Bytes
  import opened Identifiers
  import opened DurableTables

  datatype FailpointAt = BeforeJournalWrite | BeforeOutbox | BeforeCommit | DiskFull | AfterCommitBeforePublication

  class DurableStore {
    const runId: Id
    const codec: Codec
    var failpoint: Option<FailpointAt>
    var tables: Database

    constructor (runId: Id, codec: Codec)
      ensures this.runId == runId && this.codec == codec && failpoint.None? && Valid()
      ensures tables == Database(map[], map[], map[])
    {
      this.runId, this.codec := runId, codec;
      failpoint, tables := None, Database(map[], map[], map[]);
    }

    /** Every stored binding version is one a signed column holds, and every outbox row is sound. */
    ghost predicate Valid()
      reads `tables
    {
      Signed(tables.bindings) && RowsSound(tables.outbox, codec)
    }

    /** The plane the store holds. */
    ghost function Stored(): Option<Plane>
      reads `tables
    {
      if runId in tables.journal then Some(tables.journal[runId].plane) else None
    }

    /** Every event is in the outbox under its own sequence number, with its own digest. */
    ghost predicate Holds(events: seq<Event>)
      reads `tables
    {
      forall e :: e in events ==> InOutbox(e, tables.outbox, runId, codec)
    }

    /** A statement of the database may fail, unless the database works. */
    method Statement(working: bool) returns (r: Result<(), StoreError>)
      ensures r == Ok(()) || (!working && r == Err(Sqlite))
    {
      var done: bool := *;
      done := done || working;
      r := if done then Ok(()) else Err(Sqlite);
    }

    /** Whether a failpoint is set here; it is cleared when hit. */
    method Hit(at: FailpointAt) returns (r: Result<(), StoreError>)
      modifies `failpoint
      ensures r == if old(failpoint) == Some(at) then Err(Failpoint) else Ok(())
      ensures failpoint == if r.Err? then None else old(failpoint)
    {
      r := Ok(());
      if failpoint == Some(at) {
        failpoint := None;
        r := Err(Failpoint);
      }
    }

    /** `insert_outbox`, inside a transaction. */
    method InsertOutbox(outbox: Outbox, events: seq<Event>, working: bool) returns (r: Result<Outbox, StoreError>)
      ensures r == Outboxed(outbox, runId, events, codec) || (!working && r == Err(Sqlite))
    {
      if |events| > MAX_EVENTS {
        return Err(TooLarge);
      }
      var rows := outbox;
      for k := 0 to |events|
        invariant WithEvents(outbox, runId, events[..k], codec) == Ok(rows)
      {
        var e := events[k];
        assert events[..k + 1][..k] == events[..k];
        assert WithEvents(outbox, runId, events[..k + 1], codec) == WithEvent(rows, runId, e, codec);
        if WithEvent(rows, runId, e, codec).Err? {
          EventsFail(outbox, runId, events, k, codec);
        }
        var encoded := codec.eventBytes(e);
        if encoded.None? {
          return Err(Encode);
        }
        var event := encoded.value;
        if |event| > MAX_EVENT_BYTES {
          return Err(TooLarge);
        }
        var digest := codec.digest(event);
        var _ :- Statement(working);
        var key := EventKey(runId, e);
        if key in rows {
          if rows[key].digest != digest {
            return Err(Corrupt);
          }
        } else {
          var _ :- Statement(working);
          rows := rows[key := OutboxRow(event, digest, false)];
        }
      }
      assert events[..|events|] == events;
      r := Ok(rows);
    }

    method InsertBinding(bindings: Bindings, b: MemoryBinding, working: bool) returns (r: Result<Bindings, StoreError>)
      ensures r == Bound(bindings, runId, b) || (!working && r == Err(Sqlite))
    {
      var key := (runId, b.bindingId);
      var _ :- Statement(working);
      if key in bindings {
        r := if SameBinding(bindings[key], b) then Ok(bindings) else Err(MemoryBindingConflict);
      } else {
        if b.policyVersion > I64_MAX {
          return Err(InvalidMemoryBinding);
        }
        var _ :- Statement(working);
        r := Ok(bindings[key := BindingRow(b.revisionId, b.previewId, b.policyId, b.policyVersion, b.selection, b.audit)]);
      }
    }

    /**
     `persist_internal`: all or nothing. The tables are as before, or hold the whole persist; it
     succeeds only in the second case, and fails there only at the failpoint after the commit. While
     the database works and no failpoint is set, it succeeds whenever the arguments and events allow.
     */
    method Persist(plane: Plane, binding: Option<MemoryBinding>, working: bool) returns (r: Result<(), StoreError>)
      requires Valid()
      modifies this
      ensures Valid()
      ensures failpoint == old(failpoint) || (failpoint.None? && r == Err(Failpoint))
      ensures r.Ok? ==> Committed(old(tables), plane, binding) && Storable(plane, binding)
      ensures r.Err? ==> tables == old(tables)
                         || (Committed(old(tables), plane, binding) && r.error == Failpoint
                             && old(failpoint) == Some(AfterCommitBeforePublication))
      ensures r.Err? ==> || (!working && r.error == Sqlite) || (r.error == Failpoint && old(failpoint).Some?)
                         || Checked(runId, plane, binding, codec) == Err(r.error)
                         || Persisted(old(tables), plane, binding, codec) == Err(r.error)
      ensures Checked(runId, plane, binding, codec).Err?
              ==> r == Err(Checked(runId, plane, binding, codec).error) && tables == old(tables)
    {
      if plane.runId != runId {
        return Err(ScopeMismatch);
      }
      if binding.Some? {
        if !ValidBinding(binding.value) || binding.value.revisionId != plane.state.activeRevisionId {
          return Err(InvalidMemoryBinding);
        }
      }
      var journal := codec.journalSize(plane);
      if journal.None? {
        return Err(Encode);
      }
      if journal.value > MAX_JOURNAL_BYTES {
        return Err(TooLarge);
      }
      var _ :- Hit(BeforeJournalWrite);
      var _ :- Statement(working);
      var transaction := tables;
      var _ :- Statement(working);
      transaction := transaction.(journal := transaction.journal[runId := RowOf(plane)]);
      var _ :- Hit(BeforeOutbox);
      var outbox :- InsertOutbox(transaction.outbox, plane.events, working);
      transaction := transaction.(outbox := outbox);
      if binding.Some? {
        var bindings :- InsertBinding(transaction.bindings, binding.value, working);
        transaction := transaction.(bindings := bindings);
      }
      var _ :- Hit(BeforeCommit);
      var _ :- Hit(DiskFull);
      var _ :- Statement(working);
      PersistedWrites(tables, plane, binding, codec);
      tables := transaction;
      r := Hit(AfterCommitBeforePublication);
    }

    /** The plane is this store's, its journal fits, and a binding is well formed and for the active revision. */
    ghost predicate Storable(plane: Plane, binding: Option<MemoryBinding>) {
      && plane.runId == runId && codec.journalSize(plane).Some? && codec.journalSize(plane).value <= 4 * 1024 * 1024
      && |plane.events| <= 4096
      && (binding.Some?
          ==> var b := binding.value;
              && b.revisionId == plane.state.activeRevisionId && b.schemaKnown && b.policyVersion > 0
              && ValidId(b.bindingId) && ValidId(b.revisionId) && ValidId(b.previewId) && ValidId(b.policyId)
              && ValidDigest(b.selection) && ValidDigest(b.audit))
    }

    /** The tables moved from `before` by exactly this persist. */
    ghost predicate Committed(before: Database, plane: Plane, binding: Option<MemoryBinding>)
      reads `tables
    {
      plane.runId == runId && Persisted(before, plane, binding, codec) == Ok(tables)
    }

    /** What a commit means for the store, whatever it committed. */
    lemma CommittedHolds(before: Database, plane: Plane, binding: Option<MemoryBinding>)
      requires Committed(before, plane, binding)
      ensures Keeps(before, tables) && Stored() == Some(plane) && Holds(plane.events)
      ensures forall i :: 0 <= i < |plane.events| && FirstOfKey(plane.events, i, runId)
                          && EventKey(runId, plane.events[i]) !in before.outbox
                          ==> Awaits(plane.events[i], tables.outbox, runId, codec)
    {
      PersistedHolds(before, plane, binding, codec);
      PersistedWrites(before, plane, binding, codec);
    }

    /** A committed binding reads back as itself exactly when its policy version fits a signed column. */
    lemma BindingReadsBack(before: Database, plane: Plane, b: MemoryBinding)
      requires Signed(before.bindings) && b.schemaKnown && Committed(before, plane, Some(b))
      ensures Signed(tables.bindings) && (runId, b.bindingId) in tables.bindings
      ensures ReadBack(b.bindingId, tables.bindings[(runId, b.bindingId)]) == b <==> b.policyVersion <= I64_MAX
    {
      BoundReadsBack(before.bindings, runId, b);
    }

    /** `load_with_recovery` only reads. */
    method Load(recoverController: bool, working: bool) returns (r: Result<Plane, StoreError>)
      ensures (!working && r == Err(Sqlite)) || r == Loaded(tables.journal, runId, recoverController, codec)
    {
      var _ :- Statement(working);
      if runId !in tables.journal {
        return Err(Missing);
      }
      var row := tables.journal[runId];
      if EnvelopeSize(row.plane, codec) > MAX_JOURNAL_BYTES {
        return Err(Corrupt);
      }
      if |row.plane.events| > MAX_EVENTS || !codec.intact(row.plane) {
        return Err(Decode);
      }
      var plane := Opened(row.plane, recoverController, codec);
      r := if ColumnsAgree(row, plane, runId, recoverController) then Ok(plane) else Err(Corrupt);
    }

    /** `memory_binding` only reads. */
    method ReadBinding(bindingId: Id, working: bool) returns (r: Result<Option<MemoryBinding>, StoreError>)
      ensures bindingId == [] ==> r == Err(InvalidMemoryBinding)
      ensures bindingId != [] && working ==> r.Ok?
      ensures r.Ok? ==> r.value == if (runId, bindingId) in tables.bindings
                                   then Some(ReadBack(bindingId, tables.bindings[(runId, bindingId)])) else None
    {
      if bindingId == [] {
        return Err(InvalidMemoryBinding);
      }
      var _ :- Statement(working);
      r := Ok(if (runId, bindingId) in tables.bindings then Some(ReadBack(bindingId, tables.bindings[(runId, bindingId)]))
              else None);
    }
  }

  /** An event refused stops every longer list of events, for the same reason. */
  lemma {:induction false} EventsFail(outbox: Outbox, runId: Id, events: seq<Event>, k: nat, codec: Codec)
    requires k < |events| && WithEvents(outbox, runId, events[..k + 1], codec).Err?
    ensures WithEvents(outbox, runId, events, codec) == WithEvents(outbox, runId, events[..k + 1], codec)
  {
    if k + 1 < |events| {
      var init := events[..|events| - 1];
      assert init[..k + 1] == events[..k + 1];
      EventsFail(outbox, runId, init, k, codec);
    } else {
      assert events[..k + 1] == events;
    }
  }

  type Mutation = Plane -> Result<Plane, ()>

  /** The live projection beside its store: a candidate is persisted, then published. */
  class DemoState {
    const store: DurableStore
    var live: Plane

    /** The events of the live plane and of the stored one are in the outbox. */
    ghost predicate Valid()
      reads this, store
    {
      && store.Valid() && store.Holds(live.events)
      && store.Stored().Some? && store.Holds(store.Stored().value.events)
    }

    /** The live plane is loaded from the store, for a controller. */
    constructor (store: DurableStore, live: Plane)
      requires store.Valid() && store.Stored().Some? && store.Holds(store.Stored().value.events)
      requires Loaded(store.tables.journal, store.runId, true, store.codec) == Ok(live)
      ensures this.store == store && this.live == live && Valid()
    {
      this.store, this.live := store, live;
    }

    /** The mutation makes a plane of this run, small enough, whose events agree with the outbox. */
    ghost predicate Acceptable(mutation: Mutation)
      reads this, store
    {
      && mutation(live).Ok? && store.Storable(mutation(live).value, None)
      && Agreeing(store.tables.outbox, store.runId, mutation(live).value.events, store.codec)
    }

    /**
     `mutate_control`. Only a candidate that was persisted is published, and nothing but the candidate is
     persisted; events that disagree with the outbox are neither.
     */
    method MutateControl(mutation: Mutation, working: bool) returns (published: bool)
      requires Valid()
      modifies this, store
      ensures Valid() && Keeps(old(store.tables), store.tables)
      ensures published ==> old(mutation(live)) == Ok(live) && store.Stored() == Some(live)
      ensures !published ==> live == old(live)
      ensures store.tables != old(store.tables)
              ==> old(mutation(live)).Ok? && store.Stored() == Some(old(mutation(live)).value)
      ensures !published && store.tables != old(store.tables)
              ==> old(store.failpoint) == Some(AfterCommitBeforePublication)
      ensures old(mutation(live).Ok?
                  && !Agreeing(store.tables.outbox, store.runId, mutation(live).value.events, store.codec))
              ==> !published && store.tables == old(store.tables)
      ensures working && old(store.failpoint).None? ==> (published <==> old(Acceptable(mutation)))
    {
      var candidate := mutation(live);
      if candidate.Err? {
        return false;
      }
      ghost var before := store.tables;
      var persisted := store.Persist(candidate.value, None, working);
      if store.Committed(before, candidate.value, None) {
        store.CommittedHolds(before, candidate.value, None);
      }
      EventsTaken(before.outbox, store.runId, candidate.value.events, store.codec);
      if persisted.Err? {
        return false;
      }
      live := candidate.value;
      published := true;
    }
  }

  /**
   Once a plane was committed, published or not, a candidate with another event under one of its sequence
   numbers is refused for good: an outbox only grows.
   */
  lemma LostEventsDecide(db: Database, later: Database, runId: Id, lost: Plane, candidate: Plane, codec: Codec, i: nat,
                         j: nat)
    requires forall e :: e in lost.events ==> InOutbox(e, db.outbox, runId, codec)
    requires Keeps(db, later)
    requires i < |lost.events| && j < |candidate.events|
    requires EventKey(runId, lost.events[i]) == EventKey(runId, candidate.events[j])
    requires DigestOf(lost.events[i], codec) != DigestOf(candidate.events[j], codec)
    ensures Persisted(later, candidate.(runId := runId), None, codec).Err?
  {
    assert lost.events[i] in lost.events;
    EventsTaken(later.outbox, runId, candidate.events, codec);
  }

  /** One turn of a run: a failpoint may be set, then a mutation is tried. */
  datatype Turn = Turn(failpoint: Option<FailpointAt>, working: bool, mutation: Mutation)

  /**
   Whatever the failpoints and failures, after every run the store holds the live plane, or one of the
   run's mutations of it, or nothing was committed at all; and no row is lost.
   */
  method Run(state: DemoState, turns: seq<Turn>)
    requires state.Valid()
    modifies state, state.store
    ensures state.Valid() && Keeps(old(state.store.tables), state.store.tables)
    ensures || state.store.Stored() == Some(state.live)
            || (exists k :: 0 <= k < |turns| && turns[k].mutation(state.live) == Ok(state.store.Stored().value))
            || (state.store.tables == old(state.store.tables) && state.live == old(state.live))
  {
    for n := 0 to |turns|
      invariant state.Valid() && Keeps(old(state.store.tables), state.store.tables)
      invariant || state.store.Stored() == Some(state.live)
                || (exists k :: 0 <= k < n && turns[k].mutation(state.live) == Ok(state.store.Stored().value))
                || (state.store.tables == old(state.store.tables) && state.live == old(state.live))
    {
      state.store.failpoint := turns[n].failpoint;
      ghost var was := state.store.tables;
      var published := state.MutateControl(turns[n].mutation, turns[n].working);
      if !published && state.store.tables != was {
        assert turns[n].mutation(state.live) == Ok(state.store.Stored().value);
      }
    }
  }
}
