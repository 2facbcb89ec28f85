/**
 The durable control store's tables, and what one persist does to them as a whole. Encryption and
 encodings are another layer's: a journal row holds the plane its envelope would decrypt to, and
 `Codec` says how large a plane is, what bytes an event has and whether a decoded journal is intact.
 */
module DurableTables {
  import opened Bytes
  import opened Identifiers

  const MAX_JOURNAL_BYTES: nat := 4 * 1024 * 1024
  /** What encryption adds to a journal: a nonce and an authentication tag. */
  const SEAL_BYTES: nat := 24 + 16
  const MAX_EVENT_BYTES: nat := 64 * 1024
  const MAX_EVENTS: nat := 4096

  datatype StoreError =
    | Sqlite | Encode | Decode | Missing | Corrupt | ScopeMismatch | TooLarge | Failpoint
    | InvalidMemoryBinding | MemoryBindingConflict

  datatype Event = Event(sequence: u64, content: bytes)

  datatype State = State(activeRevisionId: Id, controlVersion: u64, pauseLatched: bool, stopLatched: bool,
                         controllerEpoch: u64, gateEpoch: u64, planEpoch: u64, lastSequence: u64)

  /** `rest` is whatever else the reducer keeps. */
  datatype Plane = Plane(runId: Id, enabled: bool, state: State, events: seq<Event>, rest: bytes)

  /** `intact` is the journal's integrity check, and `synced` what recovery leaves in `rest`. */
  datatype Codec = Codec(journalSize: Plane -> Option<nat>, eventBytes: Event -> Option<bytes>, digest: bytes -> bytes,
                         intact: Plane -> bool, synced: Plane -> bytes)

  datatype MemoryBinding = MemoryBinding(schemaKnown: bool, bindingId: Id, revisionId: Id, previewId: Id, policyId: Id,
                                         policyVersion: u64, selection: bytes, audit: bytes)

  predicate ValidBinding(b: MemoryBinding) {
    && b.schemaKnown && ValidId(b.bindingId) && ValidId(b.revisionId) && ValidId(b.previewId) && ValidId(b.policyId)
    && b.policyVersion > 0 && ValidDigest(b.selection) && ValidDigest(b.audit)
  }

  // ---- The tables ----

  /** An unsigned 64-bit value cast to a signed column wraps. */
  function AsI64(n: u64): int {
    if n <= I64_MAX then n else n - U64_LIMIT
  }

  datatype JournalRow = JournalRow(plane: Plane, managementActive: int, activeRevisionId: Id, controlVersion: int,
                                   pauseLatched: int, stopLatched: int, controllerEpoch: int, gateEpoch: int,
                                   planEpoch: int, lastSequence: int)

  datatype OutboxRow = OutboxRow(event: bytes, digest: bytes, published: bool)

  datatype BindingRow = BindingRow(revisionId: Id, previewId: Id, policyId: Id, policyVersion: int, selection: bytes,
                                   audit: bytes)

  type Outbox = map<(Id, int), OutboxRow>
  type Bindings = map<(Id, Id), BindingRow>

  datatype Database = Database(journal: map<Id, JournalRow>, outbox: Outbox, bindings: Bindings)

  function Bit(b: bool): int {
    if b then 1 else 0
  }

  function RowOf(p: Plane): JournalRow {
    JournalRow(p, Bit(p.enabled), p.state.activeRevisionId, AsI64(p.state.controlVersion), Bit(p.state.pauseLatched),
               Bit(p.state.stopLatched), AsI64(p.state.controllerEpoch), AsI64(p.state.gateEpoch),
               AsI64(p.state.planEpoch), AsI64(p.state.lastSequence))
  }

  /** Outbox rows and bindings are never changed or lost. */
  ghost predicate Keeps(before: Database, after: Database) {
    SubMap(before.outbox, after.outbox) && SubMap(before.bindings, after.bindings)
  }

  // ---- The outbox ----

  function EventKey(runId: Id, e: Event): (Id, int) {
    (runId, AsI64(e.sequence))
  }

  predicate Fits(e: Event, codec: Codec) {
    codec.eventBytes(e).Some? && |codec.eventBytes(e).value| <= MAX_EVENT_BYTES
  }

  function DigestOf(e: Event, codec: Codec): Option<bytes> {
    match codec.eventBytes(e)
    case None => None
    case Some(event) => Some(codec.digest(event))
  }

  /** The event is in the outbox, under its own sequence number and with its own digest. */
  predicate InOutbox(e: Event, outbox: Outbox, runId: Id, codec: Codec) {
    && codec.eventBytes(e).Some?
    && EventKey(runId, e) in outbox
    && outbox[EventKey(runId, e)].digest == codec.digest(codec.eventBytes(e).value)
  }

  /** One event, offered to the outbox. */
  function WithEvent(outbox: Outbox, runId: Id, e: Event, codec: Codec): Result<Outbox, StoreError> {
    match codec.eventBytes(e)
    case None => Err(Encode)
    case Some(event) =>
      if |event| > MAX_EVENT_BYTES then Err(TooLarge)
      else if EventKey(runId, e) in outbox then
        if outbox[EventKey(runId, e)].digest == codec.digest(event) then Ok(outbox) else Err(Corrupt)
      else Ok(outbox[EventKey(runId, e) := OutboxRow(event, codec.digest(event), false)])
  }

  function WithEvents(outbox: Outbox, runId: Id, events: seq<Event>, codec: Codec): Result<Outbox, StoreError> {
    if events == [] then Ok(outbox)
    else
      match WithEvents(outbox, runId, events[..|events| - 1], codec)
      case Err(e) => Err(e)
      case Ok(before) => WithEvent(before, runId, events[|events| - 1], codec)
  }

  function Outboxed(outbox: Outbox, runId: Id, events: seq<Event>, codec: Codec): Result<Outbox, StoreError> {
    if |events| > MAX_EVENTS then Err(TooLarge) else WithEvents(outbox, runId, events, codec)
  }

  lemma {:induction false} EventsKept(outbox: Outbox, runId: Id, events: seq<Event>, codec: Codec)
    requires WithEvents(outbox, runId, events, codec).Ok?
    ensures var after := WithEvents(outbox, runId, events, codec).value;
            && SubMap(outbox, after)
            && (forall e :: e in events ==> Fits(e, codec) && InOutbox(e, after, runId, codec))
            && forall k :: k in after && k !in outbox ==> exists e :: e in events && k == EventKey(runId, e)
  {
    if events != [] {
      var init := events[..|events| - 1];
      var last := events[|events| - 1];
      EventsKept(outbox, runId, init, codec);
      var before := WithEvents(outbox, runId, init, codec).value;
      var after := WithEvents(outbox, runId, events, codec).value;
      assert events == init + [last];
      forall e | e in events ensures InOutbox(e, after, runId, codec) {
        assert e in init || e == last;
      }
      forall k | k in after && k !in outbox ensures exists e :: e in events && k == EventKey(runId, e) {
        assert k in before || k == EventKey(runId, last);
      }
    }
  }

  /** Every row holds the event its digest was taken of, and no more than a row may hold. */
  ghost predicate RowsSound(outbox: Outbox, codec: Codec) {
    forall k :: k in outbox ==> outbox[k].digest == codec.digest(outbox[k].event) && |outbox[k].event| <= 64 * 1024
  }

  /** No event before `i` has its sequence number. */
  predicate FirstOfKey(events: seq<Event>, i: nat, runId: Id)
    requires i < |events|
  {
    forall j :: 0 <= j < i ==> EventKey(runId, events[j]) != EventKey(runId, events[i])
  }

  /** The event's own bytes and their digest stand under its sequence number, not published yet. */
  predicate Awaits(e: Event, outbox: Outbox, runId: Id, codec: Codec) {
    var key := EventKey(runId, e);
    && key in outbox && codec.eventBytes(e) == Some(outbox[key].event)
    && outbox[key].digest == codec.digest(outbox[key].event) && !outbox[key].published
  }

  /** Every event new to the outbox is written, whole and unpublished. */
  lemma {:induction false} EventsWritten(outbox: Outbox, runId: Id, events: seq<Event>, codec: Codec)
    requires WithEvents(outbox, runId, events, codec).Ok?
    ensures var after := WithEvents(outbox, runId, events, codec).value;
            && (RowsSound(outbox, codec) ==> RowsSound(after, codec))
            && forall i :: 0 <= i < |events| && FirstOfKey(events, i, runId) && EventKey(runId, events[i]) !in outbox
                           ==> Awaits(events[i], after, runId, codec)
  {
    if events != [] {
      var n := |events| - 1;
      var init := events[..n];
      EventsWritten(outbox, runId, init, codec);
      EventsKept(outbox, runId, init, codec);
      var before := WithEvents(outbox, runId, init, codec).value;
      var after := WithEvents(outbox, runId, events, codec).value;
      forall i | 0 <= i < |events| && FirstOfKey(events, i, runId) && EventKey(runId, events[i]) !in outbox
        ensures Awaits(events[i], after, runId, codec)
      {
        if i < n {
          assert init[i] == events[i] && FirstOfKey(init, i, runId);
        } else {
          NotYet(outbox, runId, events, codec);
        }
      }
    }
  }

  /** An event new to the outbox, with no other of its number before it, is not there yet. */
  lemma NotYet(outbox: Outbox, runId: Id, events: seq<Event>, codec: Codec)
    requires events != [] && WithEvents(outbox, runId, events[..|events| - 1], codec).Ok?
    requires FirstOfKey(events, |events| - 1, runId) && EventKey(runId, events[|events| - 1]) !in outbox
    ensures EventKey(runId, events[|events| - 1]) !in WithEvents(outbox, runId, events[..|events| - 1], codec).value
  {
    var init := events[..|events| - 1];
    EventsKept(outbox, runId, init, codec);
    forall e | e in init ensures EventKey(runId, e) != EventKey(runId, events[|events| - 1]) {
      var j :| 0 <= j < |init| && init[j] == e;
      assert events[j] == e;
    }
  }

  /** No two events, and no event and row, share a sequence number with different digests. */
  predicate Agreeing(outbox: Outbox, runId: Id, events: seq<Event>, codec: Codec) {
    && (forall i :: 0 <= i < |events| ==> Fits(events[i], codec))
    && (forall i :: 0 <= i < |events| && EventKey(runId, events[i]) in outbox
                    ==> InOutbox(events[i], outbox, runId, codec))
    && (forall i, j :: 0 <= i < j < |events| && EventKey(runId, events[i]) == EventKey(runId, events[j])
                       ==> DigestOf(events[i], codec) == DigestOf(events[j], codec))
  }

  /** What the last event needs, once the others have been taken. */
  predicate LastAgrees(outbox: Outbox, runId: Id, events: seq<Event>, codec: Codec)
    requires events != []
  {
    var n := |events| - 1;
    var last := events[n];
    && Fits(last, codec)
    && (EventKey(runId, last) in outbox ==> InOutbox(last, outbox, runId, codec))
    && (forall i :: 0 <= i < n && EventKey(runId, events[i]) == EventKey(runId, last)
                    ==> DigestOf(events[i], codec) == DigestOf(last, codec))
  }

  lemma LastTaken(outbox: Outbox, runId: Id, events: seq<Event>, codec: Codec)
    requires events != [] && WithEvents(outbox, runId, events[..|events| - 1], codec).Ok?
    requires forall i :: 0 <= i < |events| - 1 ==> Fits(events[i], codec)
    ensures WithEvents(outbox, runId, events, codec).Ok? <==> LastAgrees(outbox, runId, events, codec)
  {
    hide WithEvents;
    var n := |events| - 1;
    var init, last := events[..n], events[n];
    var before := WithEvents(outbox, runId, init, codec).value;
    OneMore(outbox, runId, events, codec);
    EventsKept(outbox, runId, init, codec);
    var key := EventKey(runId, last);
    if WithEvent(before, runId, last, codec).Ok? {
      forall i | 0 <= i < n && EventKey(runId, events[i]) == key
        ensures DigestOf(events[i], codec) == DigestOf(last, codec)
      {
        assert init[i] in init;
      }
    }
    if LastAgrees(outbox, runId, events, codec) && key in before && key !in outbox {
      var e :| e in init && key == EventKey(runId, e);
      var i :| 0 <= i < n && init[i] == e;
      assert events[i] == e;
    }
  }

  lemma OneMore(outbox: Outbox, runId: Id, events: seq<Event>, codec: Codec)
    requires events != [] && WithEvents(outbox, runId, events[..|events| - 1], codec).Ok?
    ensures WithEvents(outbox, runId, events, codec)
            == WithEvent(WithEvents(outbox, runId, events[..|events| - 1], codec).value, runId, events[|events| - 1],
                         codec)
  {}

  lemma AgreeingSplit(outbox: Outbox, runId: Id, events: seq<Event>, codec: Codec)
    requires events != []
    ensures Agreeing(outbox, runId, events, codec)
            <==> Agreeing(outbox, runId, events[..|events| - 1], codec) && LastAgrees(outbox, runId, events, codec)
  {
    var n := |events| - 1;
    var init := events[..n];
    assert forall i :: 0 <= i < n ==> init[i] == events[i];
    hide Fits, InOutbox;
    if Agreeing(outbox, runId, init, codec) && LastAgrees(outbox, runId, events, codec) {
      forall i | 0 <= i < |events| ensures Fits(events[i], codec) {
        assert i < n ==> Fits(init[i], codec);
      }
      forall i | 0 <= i < |events| && EventKey(runId, events[i]) in outbox
        ensures InOutbox(events[i], outbox, runId, codec)
      {
        assert i < n ==> init[i] == events[i];
      }
      forall i, j | 0 <= i < j < |events| && EventKey(runId, events[i]) == EventKey(runId, events[j])
        ensures DigestOf(events[i], codec) == DigestOf(events[j], codec)
      {
        assert init[i] == events[i];
        assert j < n ==> init[j] == events[j];
      }
    }
  }

  /** The events are taken exactly when they fit and agree with the outbox and with each other. */
  lemma {:induction false} EventsTaken(outbox: Outbox, runId: Id, events: seq<Event>, codec: Codec)
    ensures WithEvents(outbox, runId, events, codec).Ok? <==> Agreeing(outbox, runId, events, codec)
  {
    if events != [] {
      var init := events[..|events| - 1];
      EventsTaken(outbox, runId, init, codec);
      AgreeingSplit(outbox, runId, events, codec);
      if WithEvents(outbox, runId, init, codec).Ok? {
        assert forall i :: 0 <= i < |init| ==> init[i] == events[i];
        LastTaken(outbox, runId, events, codec);
      }
    }
  }

  // ---- Memory bindings ----

  /** A binding version no signed column can hold compares as the largest that can. */
  function Saturated(version: u64): int {
    if version <= I64_MAX then version else I64_MAX
  }

  predicate SameBinding(row: BindingRow, b: MemoryBinding) {
    && row.revisionId == b.revisionId && row.previewId == b.previewId && row.policyId == b.policyId
    && row.policyVersion == Saturated(b.policyVersion) && row.selection == b.selection && row.audit == b.audit
  }

  function Bound(bindings: Bindings, runId: Id, b: MemoryBinding): Result<Bindings, StoreError> {
    var key := (runId, b.bindingId);
    if key in bindings then
      if SameBinding(bindings[key], b) then Ok(bindings) else Err(MemoryBindingConflict)
    else if b.policyVersion > I64_MAX then Err(InvalidMemoryBinding)
    else Ok(bindings[key := BindingRow(b.revisionId, b.previewId, b.policyId, b.policyVersion, b.selection, b.audit)])
  }

  /** `memory_binding`, from a row back to a record. */
  function ReadBack(bindingId: Id, row: BindingRow): MemoryBinding {
    MemoryBinding(true, bindingId, row.revisionId, row.previewId, row.policyId,
                  if 0 <= row.policyVersion < U64_LIMIT then row.policyVersion else 0, row.selection, row.audit)
  }

  /** Every stored policy version is one a signed column holds. */
  predicate Signed(bindings: Bindings) {
    forall k :: k in bindings ==> 0 <= bindings[k].policyVersion <= I64_MAX
  }

  /**
   A binding the store takes is the one it reads back exactly when its policy version fits a signed
   column; one that does not fit can still be taken, as if it were the largest that does.
   */
  lemma BoundReadsBack(bindings: Bindings, runId: Id, b: MemoryBinding)
    requires Signed(bindings) && b.schemaKnown && Bound(bindings, runId, b).Ok?
    ensures var after := Bound(bindings, runId, b).value;
            && SubMap(bindings, after) && Signed(after) && (runId, b.bindingId) in after
            && (ReadBack(b.bindingId, after[(runId, b.bindingId)]) == b <==> b.policyVersion <= I64_MAX)
  {
    var after := Bound(bindings, runId, b).value;
    var row := after[(runId, b.bindingId)];
    assert ReadBack(b.bindingId, row).policyVersion == Saturated(b.policyVersion);
  }

  /** Such a binding: it is taken twice over, with a version the store never held. */
  lemma OversizedBindingTaken(runId: Id, b: MemoryBinding)
    requires b.schemaKnown && b.policyVersion == I64_MAX
    ensures var stored := Bound(map[], runId, b);
            var larger := b.(policyVersion := I64_MAX + 1);
            && stored.Ok? && Bound(stored.value, runId, larger) == stored
            && ReadBack(b.bindingId, stored.value[(runId, b.bindingId)]) != larger
            && Bound(map[], runId, larger) == Err(InvalidMemoryBinding)
  {
    var stored := Bound(map[], runId, b).value;
    assert (runId, b.bindingId) in stored;
  }

  // ---- A whole persist ----

  /** What a persist asks of its arguments before it touches the store. */
  function Checked(runId: Id, plane: Plane, binding: Option<MemoryBinding>, codec: Codec): Result<(), StoreError> {
    if plane.runId != runId then Err(ScopeMismatch)
    else if binding.Some? && (!ValidBinding(binding.value)
                              || binding.value.revisionId != plane.state.activeRevisionId) then
      Err(InvalidMemoryBinding)
    else
      match codec.journalSize(plane)
      case None => Err(Encode)
      case Some(size) => if size > MAX_JOURNAL_BYTES then Err(TooLarge) else Ok(())
  }

  /** The tables after a persist that commits. */
  function Persisted(db: Database, plane: Plane, binding: Option<MemoryBinding>, codec: Codec)
    : Result<Database, StoreError>
  {
    var outbox :- Outboxed(db.outbox, plane.runId, plane.events, codec);
    var bindings :- if binding.None? then Ok(db.bindings) else Bound(db.bindings, plane.runId, binding.value);
    Ok(Database(db.journal[plane.runId := RowOf(plane)], outbox, bindings))
  }

  /** A committed persist holds its plane, all of the plane's events and its binding, and loses nothing. */
  lemma PersistedHolds(db: Database, plane: Plane, binding: Option<MemoryBinding>, codec: Codec)
    requires Persisted(db, plane, binding, codec).Ok?
    ensures var after := Persisted(db, plane, binding, codec).value;
            && Keeps(db, after)
            && plane.runId in after.journal && after.journal[plane.runId].plane == plane
            && (forall run :: run != plane.runId ==> (run in after.journal <==> run in db.journal))
            && (forall run :: run in db.journal && run != plane.runId ==> after.journal[run] == db.journal[run])
            && (forall e :: e in plane.events ==> InOutbox(e, after.outbox, plane.runId, codec))
            && (binding.Some? ==> (plane.runId, binding.value.bindingId) in after.bindings
                                  && SameBinding(after.bindings[(plane.runId, binding.value.bindingId)], binding.value))
  {
    EventsKept(db.outbox, plane.runId, plane.events, codec);
  }

  /** And writes every event that is new, whole and unpublished, on top of rows that stay sound. */
  lemma PersistedWrites(db: Database, plane: Plane, binding: Option<MemoryBinding>, codec: Codec)
    requires Persisted(db, plane, binding, codec).Ok?
    ensures var after := Persisted(db, plane, binding, codec).value;
            && (RowsSound(db.outbox, codec) ==> RowsSound(after.outbox, codec))
            && forall i :: 0 <= i < |plane.events| && FirstOfKey(plane.events, i, plane.runId)
                           && EventKey(plane.runId, plane.events[i]) !in db.outbox
                           ==> Awaits(plane.events[i], after.outbox, plane.runId, codec)
  {
    EventsWritten(db.outbox, plane.runId, plane.events, codec);
  }

  /** The signed column has the same 64 bits. */
  predicate SameBits(column: int, n: u64) {
    -0x8000_0000_0000_0000 <= column <= 0x7FFF_FFFF_FFFF_FFFF && (column == n || column == n - 0x1_0000_0000_0000_0000)
  }

  /** What stands in the journal beside the plane, column by column. */
  lemma PersistedColumns(db: Database, plane: Plane, binding: Option<MemoryBinding>, codec: Codec)
    requires Persisted(db, plane, binding, codec).Ok?
    ensures var row := Persisted(db, plane, binding, codec).value.journal[plane.runId];
            && (row.managementActive == 1 <==> plane.enabled) && (row.managementActive == 0 <==> !plane.enabled)
            && row.activeRevisionId == plane.state.activeRevisionId
            && SameBits(row.controlVersion, plane.state.controlVersion)
            && (row.pauseLatched == 1 <==> plane.state.pauseLatched) && (row.pauseLatched == 0 <==> !plane.state.pauseLatched)
            && (row.stopLatched == 1 <==> plane.state.stopLatched) && (row.stopLatched == 0 <==> !plane.state.stopLatched)
            && SameBits(row.controllerEpoch, plane.state.controllerEpoch) && SameBits(row.gateEpoch, plane.state.gateEpoch)
            && SameBits(row.planEpoch, plane.state.planEpoch) && SameBits(row.lastSequence, plane.state.lastSequence)
  {}

  // ---- Loading what was persisted ----

  /** A journal decoded for a controller starts the controller's next epoch, unless there is none. */
  function Recovered(p: Plane, codec: Codec): Plane {
    var epoch := if p.state.controllerEpoch < U64_LIMIT - 1 then p.state.controllerEpoch + 1 else p.state.controllerEpoch;
    var q := p.(state := p.state.(controllerEpoch := epoch));
    q.(rest := codec.synced(q))
  }

  function Opened(p: Plane, recoverController: bool, codec: Codec): Plane {
    if recoverController then Recovered(p, codec) else p
  }

  /** A signed column plus one, at most the largest signed value. */
  function SaturatingNext(n: int): int {
    if n < I64_MAX then n + 1 else I64_MAX
  }

  /** The columns beside the envelope say what the decoded plane says. */
  predicate ColumnsAgree(row: JournalRow, p: Plane, runId: Id, recoverController: bool) {
    && p.runId == runId && Bit(p.enabled) == row.managementActive
    && p.state.activeRevisionId == row.activeRevisionId && AsI64(p.state.controlVersion) == row.controlVersion
    && Bit(p.state.pauseLatched) == row.pauseLatched && Bit(p.state.stopLatched) == row.stopLatched
    && AsI64(p.state.controllerEpoch)
       == (if recoverController then SaturatingNext(row.controllerEpoch) else row.controllerEpoch)
    && AsI64(p.state.gateEpoch) == row.gateEpoch && AsI64(p.state.planEpoch) == row.planEpoch
    && AsI64(p.state.lastSequence) == row.lastSequence
  }

  /** The size of a plane's envelope; one that could not be encoded was never stored. */
  function EnvelopeSize(p: Plane, codec: Codec): nat {
    SEAL_BYTES + match codec.journalSize(p) case None => 0 case Some(size) => size
  }

  /** `load_with_recovery`. */
  function Loaded(journal: map<Id, JournalRow>, runId: Id, recoverController: bool, codec: Codec): Result<Plane, StoreError> {
    if runId !in journal then Err(Missing)
    else
      var stored := journal[runId].plane;
      var plane := Opened(stored, recoverController, codec);
      if EnvelopeSize(stored, codec) > MAX_JOURNAL_BYTES then Err(Corrupt)
      else if |stored.events| > MAX_EVENTS || !codec.intact(stored) then Err(Decode)
      else if ColumnsAgree(journal[runId], plane, runId, recoverController) then Ok(plane)
      else Err(Corrupt)
  }

  /** A controller epoch whose successor the columns cannot follow: the largest signed and the largest unsigned value. */
  predicate EpochStuck(epoch: u64) {
    epoch == I64_MAX || epoch == U64_LIMIT - 1
  }

  /**
   What loading makes of a plane just persisted: it comes back, in the controller's next epoch if one is
   claimed, exactly when its envelope fits the bound the journal alone was held to, it is intact, and its
   epoch has a successor the columns can follow.
   */
  lemma PersistedLoads(db: Database, plane: Plane, binding: Option<MemoryBinding>, recoverController: bool, codec: Codec)
    requires Persisted(db, plane, binding, codec).Ok?
    ensures Loaded(Persisted(db, plane, binding, codec).value.journal, plane.runId, recoverController, codec)
            == if EnvelopeSize(plane, codec) > MAX_JOURNAL_BYTES then Err(Corrupt)
               else if !codec.intact(plane) then Err(Decode)
               else if recoverController && EpochStuck(plane.state.controllerEpoch) then Err(Corrupt)
               else Ok(Opened(plane, recoverController, codec))
  {
    var loaded := Opened(plane, recoverController, codec);
    assert ColumnsAgree(RowOf(plane), loaded, plane.runId, recoverController)
           <==> !(recoverController && EpochStuck(plane.state.controllerEpoch));
  }

  /** A journal within the bound, persisted and never loaded again: its envelope is over the same bound. */
  lemma LargeJournalLost(db: Database, plane: Plane, size: nat, recoverController: bool, codec: Codec)
    requires codec.journalSize(plane) == Some(size) && MAX_JOURNAL_BYTES - SEAL_BYTES < size <= MAX_JOURNAL_BYTES
    requires Persisted(db, plane, None, codec).Ok?
    ensures Checked(plane.runId, plane, None, codec).Ok?
    ensures Loaded(Persisted(db, plane, None, codec).value.journal, plane.runId, recoverController, codec) == Err(Corrupt)
  {
    PersistedLoads(db, plane, None, recoverController, codec);
  }
}
