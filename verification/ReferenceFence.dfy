/**
 The fence around forwarded mutations, as a property of transcripts: what each names was issued, what
 each requires was granted, and when a patch counts as changing the objective.
 */
module ReferenceFence {
  import opened Bytes
  import opened Identifiers
  import opened ReferenceModel
  import opened ReferenceState
  import opened ReferenceTranscript

  // ---- Objective authority ----

  predicate ObjectiveHeld(ix: Index, draftId: Id, revisionId: Id) {
    draftId in ix.drafts.table.entries && revisionId in ix.revisions.table.entries
  }

  /** Restoring the revision would leave the draft's objective as it is. */
  predicate KeepsObjective(ix: Index, draftId: Id, revisionId: Id)
    requires ObjectiveHeld(ix, draftId, revisionId)
  {
    ix.drafts.table.entries[draftId].objective == ix.revisions.table.entries[revisionId].objective
  }

  /** `patch_requires_objective_authority`: a patch that sets the objective, or restores another one first. */
  predicate NeedsObjective(ix: Index, patch: Patch) {
    || SetsObjective(patch)
    || (var first := FirstRestored(patch.operations);
        first.Some? && ObjectiveHeld(ix, patch.draftId, first.value) && !KeepsObjective(ix, patch.draftId, first.value))
  }

  /** The first restored configuration is held beside its draft, unless the objective is set anyway. */
  predicate ObjectiveDecided(ix: Index, patch: Patch) {
    var first := FirstRestored(patch.operations);
    SetsObjective(patch) || first.None? || ObjectiveHeld(ix, patch.draftId, first.value)
  }

  function Restored(operations: seq<Operation>): seq<Id> {
    if operations == [] then []
    else (if operations[0].RestoreConfiguration? then [operations[0].sourceRevisionId] else []) + Restored(operations[1..])
  }

  lemma {:induction false} FirstOfRestored(operations: seq<Operation>)
    ensures FirstRestored(operations) == if Restored(operations) == [] then None else Some(Restored(operations)[0])
  {
    if operations != [] {
      FirstOfRestored(operations[1..]);
    }
  }

  /** Some configuration the patch restores has another objective than the draft. */
  predicate ChangesObjective(ix: Index, patch: Patch, objective: Id -> Option<ItemRef>) {
    && patch.draftId in ix.drafts.table.entries
    && exists k :: 0 <= k < |Restored(patch.operations)|
                   && objective(Restored(patch.operations)[k]) != ix.drafts.table.entries[patch.draftId].objective
  }

  /** The restored configurations do not all have the first one's objective. */
  predicate RestoresDiffer(patch: Patch, objective: Id -> Option<ItemRef>) {
    var ids := Restored(patch.operations);
    exists k :: 0 < k < |ids| && objective(ids[k]) != objective(ids[0])
  }

  /**
   Whatever objective every revision has, as far as the index tells it: a patch that the index lets pass
   as ordinary changes the objective after all exactly when its restored configurations differ in it.
   */
  lemma OrdinaryChange(ix: Index, patch: Patch, objective: Id -> Option<ItemRef>)
    requires ObjectiveDecided(ix, patch)
    requires forall id :: id in ix.revisions.table.entries ==> ix.revisions.table.entries[id].objective == objective(id)
    requires !NeedsObjective(ix, patch)
    ensures ChangesObjective(ix, patch, objective) <==> RestoresDiffer(patch, objective)
  {
    FirstOfRestored(patch.operations);
    var ids := Restored(patch.operations);
    if ids != [] {
      assert ix.drafts.table.entries[patch.draftId].objective == objective(ids[0]);
    }
  }

  /** Such a patch: its first restored configuration keeps the objective, its second does not. */
  lemma SecondRestoreUnauthorized(ix: Index, patch: Patch, first: Id, second: Id)
    requires patch.operations == [RestoreConfiguration(first), RestoreConfiguration(second)]
    requires ObjectiveHeld(ix, patch.draftId, first) && KeepsObjective(ix, patch.draftId, first)
    requires ObjectiveHeld(ix, patch.draftId, second) && !KeepsObjective(ix, patch.draftId, second)
    ensures ObjectiveDecided(ix, patch) && !NeedsObjective(ix, patch)
    ensures Entitled(ApplyPatch(patch, NeedsObjective(ix, patch)), {EditDrafts}, {DraftEdit})
    ensures second in Restored(patch.operations)
  {
    var rest := [RestoreConfiguration(second)];
    assert patch.operations[1..] == rest && rest[1..] == [];
    assert Restored(rest) == [second] + Restored([]);
    assert Restored(patch.operations) == [first, second];
    FirstOfRestored(patch.operations);
    assert !SetsObjective(patch);
  }

  // ---- What the index alone can vouch for ----

  predicate Held(ix: Index, id: Id, kind: ReferenceKind) {
    && ValidId(id)
    && match kind
       case RevisionKind => id in ix.revisions.ids.keys
       case DraftKind => id in ix.drafts.ids.keys
       case PreviewKind => id in ix.previews.ids.keys
       case ReceiptKind => id in ix.receipts.ids.keys
  }

  predicate OptionHeld(ix: Index, id: Option<Id>, kind: ReferenceKind) {
    id.Some? ==> Held(ix, id.value, kind)
  }

  predicate ItemHeld(ix: Index, item: ItemRef) {
    KeyOf(item) in ix.items.table.entries && ix.items.table.entries[KeyOf(item)] == item
  }

  /** The operation is well formed and everything it names is held. */
  predicate OperationHeld(ix: Index, operation: Operation, draftId: Id) {
    && WellFormedOperation(operation)
    && match operation
       case PutNote(_, _, _, _) => true
       case SetObjective(_) => true
       case RemoveNote(noteId, _) =>
         draftId in ix.drafts.table.entries && HasNote(ix.drafts.table.entries[draftId], noteId)
       case RestoreConfiguration(sourceRevisionId) => Held(ix, sourceRevisionId, RevisionKind)
       case _ => ItemHeld(ix, operation.item)
  }

  /** The patch is well formed, for the held draft's version, and everything it names is held. */
  predicate PatchHeld(ix: Index, patch: Patch, scope: Scope) {
    && WellFormed(ApplyPatch(patch, false)) && patch.scope == scope && Held(ix, patch.draftId, DraftKind)
    && patch.draftId in ix.drafts.table.entries
    && ix.drafts.table.entries[patch.draftId].version == patch.expectedDraftVersion
    && Held(ix, patch.expectedActiveRevisionId, RevisionKind)
    && forall k :: 0 <= k < |patch.operations| ==> OperationHeld(ix, patch.operations[k], patch.draftId)
  }

  /** The command is well formed, of the kind, in scope, and everything it names is held. */
  predicate CommandHeld(ix: Index, command: Command, kind: CommandKind, scope: Scope) {
    && WellFormed(Control(command)) && command.kind == kind && command.scope == scope
    && OptionHeld(ix, command.expectedActiveRevisionId, RevisionKind)
    && OptionHeld(ix, command.previewId, PreviewKind) && OptionHeld(ix, command.expectedPreviewId, PreviewKind)
  }

  // ---- The fence ----

  predicate HasNote(draft: Draft, noteId: Id) {
    exists k :: 0 <= k < |draft.notes| && draft.notes[k].itemId == noteId
  }

  /** A removed note is a note of the draft. */
  predicate RemovesFrom(operation: Operation, draft: Draft) {
    operation.RemoveNote? ==> HasNote(draft, operation.noteId)
  }

  /** The draft is held at the version the patch expects, and carries every note the patch removes. */
  predicate PatchCurrent(ix: Index, patch: Patch) {
    && patch.draftId in ix.drafts.table.entries
    && ix.drafts.table.entries[patch.draftId].version == patch.expectedDraftVersion
    && forall k :: 0 <= k < |patch.operations|
                   ==> RemovesFrom(patch.operations[k], ix.drafts.table.entries[patch.draftId])
  }

  /** What `pause`, `held_commit` and `resume` need the owner to offer. */
  function OperationOf(kind: CommandKind): OwnerOperation {
    match kind
    case Pause => PauseRun
    case Commit => CommitPlan
    case Resume => ResumeRun
  }

  function Offered(capabilities: Reply<Capabilities>): set<OwnerOperation> {
    if capabilities.Ok? && capabilities.value.enabled then capabilities.value.supported else {}
  }

  /** The grants and the owner's operation each mutation needs. */
  predicate Entitled(mutation: Mutation, granted: set<FacadePermission>, offered: set<OwnerOperation>) {
    match mutation
    case CreateDraft(_, _) => EditDrafts in granted && DraftCreate in offered
    case ApplyPatch(_, withObjective) =>
      EditDrafts in granted && (withObjective ==> ChangeObjective in granted) && DraftEdit in offered
    case CreatePreview(preview) =>
      EditDrafts in granted && (preview.applicableRequested ==> PauseRuns in granted) && PreviewCreate in offered
    case Control(command) =>
      && (command.kind.Pause? ==> PauseRuns in granted && PauseRun in offered)
      && (command.kind.Commit? ==> CommitPlans in granted && CommitPlan in offered)
      && (command.kind.Resume? ==> ResumeRuns in granted && ResumeRun in offered)
  }

  // ---- Well-formed mutations ----

  predicate SafeVersion(version: nat) {
    version <= 9_007_199_254_740_991
  }

  /** A text of at most so many bytes, not empty and without a zero byte. */
  predicate PlainText(text: bytes, limit: nat) {
    0 < |text| <= limit && forall k :: 0 <= k < |text| ==> text[k] != 0
  }

  predicate WellFormedOperation(operation: Operation) {
    match operation
    case PutNote(noteId, expectedVersion, text, timely) =>
      ValidId(noteId) && PlainText(text, 4096) && timely && (expectedVersion.Some? ==> SafeVersion(expectedVersion.value))
    case RemoveNote(noteId, expectedNoteVersion) => ValidId(noteId) && SafeVersion(expectedNoteVersion)
    case SetObjective(text) => PlainText(text, 512)
    case RestoreConfiguration(sourceRevisionId) => ValidId(sourceRevisionId)
    case _ => ValidItemRef(operation.item)
  }

  predicate OptionValid(id: Option<Id>) {
    id.Some? ==> ValidId(id.value)
  }

  predicate WellFormed(mutation: Mutation) {
    match mutation
    case CreateDraft(_, revisionId) => ValidId(revisionId)
    case ApplyPatch(patch, _) =>
      && patch.schemaKnown && 1 <= |patch.operations| <= 32
      && 0 < patch.expectedDraftVersion && SafeVersion(patch.expectedDraftVersion)
      && ValidId(patch.draftId) && ValidId(patch.expectedActiveRevisionId)
      && forall k :: 0 <= k < |patch.operations| ==> WellFormedOperation(patch.operations[k])
    case CreatePreview(preview) =>
      && ValidId(preview.draftId) && 0 < preview.expectedDraftVersion && SafeVersion(preview.expectedDraftVersion)
      && SafeVersion(preview.expectedControlVersion)
    case Control(command) =>
      && command.schemaKnown && ValidId(command.idempotencyKey) && ValidId(command.commandWindowId)
      && SafeVersion(command.expectedControlVersion) && OptionValid(command.expectedActiveRevisionId)
      && OptionValid(command.previewId) && OptionValid(command.expectedPreviewId)
      && (command.approvedManifest.Some? ==> ValidDigest(command.approvedManifest.value))
  }

  /** A forwarded patch is current, and says that it changes the objective exactly when the index says so. */
  predicate PatchFits(ix: Index, mutation: Mutation) {
    mutation.ApplyPatch?
    ==> PatchCurrent(ix, mutation.patch) && ObjectiveDecided(ix, mutation.patch)
        && mutation.withObjective == NeedsObjective(ix, mutation.patch)
  }

  /**
   What was asked so far allows the mutation: it is well formed and in scope, names only what the owner
   issued since the last reset, everything it needs was granted to the request at hand, and the owner
   offers it.
   */
  ghost predicate Allowed(world: World, asked: Transcript, mutation: Mutation, scope: Scope) {
    && Fenced(mutation, IssuedBy(world, asked, scope), scope)
    && WellFormed(mutation)
    && Entitled(mutation, GrantedBy(world, asked), Offered(CapabilitiesBy(world, asked)))
    && PatchFits(IndexBy(world, asked, scope), mutation)
  }

  ghost predicate AllAllowed(world: World, t: Transcript, scope: Scope) {
    forall k :: 0 <= k < |t| && t[k].Sent? ==> Allowed(world, t[..k], t[k].mutation, scope)
  }

  predicate Asks(e: Entry) {
    !e.Sent? && !e.Reset? && !e.Begin?
  }

  /** Only questions were added: nothing was sent, reset or begun. */
  ghost predicate OnlyAsks(before: Transcript, after: Transcript) {
    && |before| <= |after| && (forall k :: 0 <= k < |before| ==> after[k] == before[k])
    && forall k :: |before| <= k < |after| ==> Asks(after[k])
  }

  // ---- One entry more ----

  lemma NothingAsked(world: World, scope: Scope)
    ensures IndexBy(world, [], scope) == EMPTY && CapabilitiesBy(world, []) == Err(Unknown)
    ensures AllAllowed(world, [], scope) && Sends([]) == []
  {}

  lemma NextEntry(world: World, t: Transcript, e: Entry, scope: Scope)
    ensures IndexBy(world, t + [e], scope) == IndexStep(IndexBy(world, t, scope), e, world, |t|, scope)
    ensures CapabilitiesBy(world, t + [e])
            == if e.CapabilitiesAsked? then world.capabilities(|t|) else CapabilitiesBy(world, t)
  {
    hide IndexStep;
    assert (t + [e])[..|t|] == t;
  }

  lemma NextFiled(world: World, t: Transcript, e: Entry, scope: Scope)
    ensures FiledBy(world, t + [e], scope)
            == FiledStep(FiledBy(world, t, scope), IndexBy(world, t, scope), e, world, |t|, scope)
  {
    hide FiledStep;
    assert (t + [e])[..|t|] == t;
  }

  lemma AllAllowedAfter(world: World, t: Transcript, e: Entry, scope: Scope)
    requires AllAllowed(world, t, scope) && (e.Sent? ==> Allowed(world, t, e.mutation, scope))
    ensures AllAllowed(world, t + [e], scope)
  {
    hide Allowed;
    var u := t + [e];
    forall k | 0 <= k < |u| && u[k].Sent? ensures Allowed(world, u[..k], u[k].mutation, scope) {
      assert u[..k] == if k < |t| then t[..k] else t;
    }
  }

  // ---- Questions take nothing away ----

  lemma {:induction false} AsksGrow(world: World, before: Transcript, after: Transcript, scope: Scope)
    requires OnlyAsks(before, after)
    ensures Within(IssuedBy(world, before, scope), IssuedBy(world, after, scope))
    ensures GrantedBy(world, before) <= GrantedBy(world, after)
    decreases |after|
  {
    hide References;
    if |before| < |after| {
      var n := |after| - 1;
      AsksGrow(world, before, after[..n], scope);
    } else {
      assert before == after;
    }
  }

  lemma FenceStays(mutation: Mutation, world: World, before: Transcript, after: Transcript, scope: Scope)
    requires OnlyAsks(before, after) && Fenced(mutation, IssuedBy(world, before, scope), scope)
    ensures Fenced(mutation, IssuedBy(world, after, scope), scope)
  {
    hide IssuedBy, OperationFenced, OnlyAsks;
    AsksGrow(world, before, after, scope);
    if mutation.ApplyPatch? {
      forall k | 0 <= k < |mutation.patch.operations|
        ensures OperationFenced(mutation.patch.operations[k], IssuedBy(world, after, scope))
      {
        OperationFenceGrows(mutation.patch.operations[k], IssuedBy(world, before, scope), IssuedBy(world, after, scope));
      }
    }
  }

  // ---- What was granted ----

  /** The permission was asked for and allowed since the request at hand began. */
  ghost predicate GrantedFor(world: World, t: Transcript, permission: FacadePermission) {
    exists j :: 0 <= j < |t| && t[j] == GrantAsked(permission) && world.allows(j) && Since(t, j)
  }

  /** No request began after the entry `j`. */
  predicate Since(t: Transcript, j: nat) {
    forall i :: j < i < |t| ==> !t[i].Begin?
  }

  lemma {:induction false} GrantedExactly(world: World, t: Transcript, permission: FacadePermission)
    ensures permission in GrantedBy(world, t) <==> GrantedFor(world, t, permission)
  {
    if t != [] {
      var n := |t| - 1;
      var before := t[..n];
      GrantedExactly(world, before, permission);
      if permission in GrantedBy(world, t) {
        if permission in GrantedBy(world, before) {
          var j :| 0 <= j < |before| && before[j] == GrantAsked(permission) && world.allows(j) && Since(before, j);
          assert t[j] == before[j] && Since(t, j);
        } else {
          assert t[n] == GrantAsked(permission) && Since(t, n);
        }
      }
      if GrantedFor(world, t, permission) {
        var j :| 0 <= j < |t| && t[j] == GrantAsked(permission) && world.allows(j) && Since(t, j);
        if j < n {
          assert before[j] == t[j] && Since(before, j);
        }
      }
    }
  }

  /**
   In every transcript all of whose mutations were allowed: what each of them was granted, by the grant
   check, during its own request.
   */
  lemma SentGranted(world: World, t: Transcript, k: nat, scope: Scope)
    requires AllAllowed(world, t, scope) && k < |t| && t[k].Sent?
    ensures var mutation := t[k].mutation;
            var offered := Offered(CapabilitiesBy(world, t[..k]));
            && (mutation.CreateDraft? ==> GrantedFor(world, t[..k], EditDrafts) && DraftCreate in offered)
            && (mutation.ApplyPatch? ==> GrantedFor(world, t[..k], EditDrafts) && DraftEdit in offered)
            && (mutation.ApplyPatch? && NeedsObjective(IndexBy(world, t[..k], scope), mutation.patch)
                ==> GrantedFor(world, t[..k], ChangeObjective))
            && (mutation.CreatePreview? ==> GrantedFor(world, t[..k], EditDrafts) && PreviewCreate in offered)
            && (mutation.CreatePreview? && mutation.preview.applicableRequested ==> GrantedFor(world, t[..k], PauseRuns))
            && (mutation.Control? && mutation.command.kind == Pause
                ==> GrantedFor(world, t[..k], PauseRuns) && PauseRun in offered)
            && (mutation.Control? && mutation.command.kind == Commit
                ==> GrantedFor(world, t[..k], CommitPlans) && CommitPlan in offered)
            && (mutation.Control? && mutation.command.kind == Resume
                ==> GrantedFor(world, t[..k], ResumeRuns) && ResumeRun in offered)
  {
    hide IndexBy, GrantedBy, GrantedFor, Fenced, WellFormed, NeedsObjective, PatchCurrent, ObjectiveDecided;
    assert Allowed(world, t[..k], t[k].mutation, scope);
    GrantedExactly(world, t[..k], EditDrafts);
    GrantedExactly(world, t[..k], ChangeObjective);
    GrantedExactly(world, t[..k], PauseRuns);
    GrantedExactly(world, t[..k], CommitPlans);
    GrantedExactly(world, t[..k], ResumeRuns);
  }

  // ---- What was sent, in order ----

  function Sends(t: Transcript): seq<Mutation> {
    if t == [] then []
    else
      var e := t[|t| - 1];
      Sends(t[..|t| - 1]) + if e.Sent? then [e.mutation] else []
  }

  /** Nothing was sent since. */
  ghost predicate NothingSent(before: Transcript, after: Transcript) {
    && |before| <= |after| && (forall k :: 0 <= k < |before| ==> after[k] == before[k])
    && forall k :: |before| <= k < |after| ==> !after[k].Sent?
  }

  lemma {:induction false} NothingSentKeeps(before: Transcript, after: Transcript)
    requires NothingSent(before, after)
    ensures Sends(after) == Sends(before)
    decreases |after|
  {
    if |before| < |after| {
      NothingSentKeeps(before, after[..|after| - 1]);
    } else {
      assert before == after;
    }
  }
}
