/**
 What the facade and its owner exchange: owner-issued entities, the mutations the facade forwards,
 and the fence a forwarded mutation must stand inside.
 */
module ReferenceModel {
  import opened Bytes
  import opened Identifiers

  const MAX_LISTING: nat := 64
  const MAX_NOTES: nat := 16
  const MAX_OPERATIONS: nat := 32
  const MAX_NOTE_BYTES: nat := 4096
  const MAX_OBJECTIVE_BYTES: nat := 512

  datatype ItemRef = ItemRef(itemId: Id, version: nat, sha256: bytes)

  type ItemKey = (Id, nat)

  function KeyOf(item: ItemRef): ItemKey {
    (item.itemId, item.version)
  }

  // `wellFormed` stands for the field checks of an entity that no reference depends on.
  datatype EligibleItem = EligibleItem(scope: Scope, item: ItemRef, wellFormed: bool)
  datatype Revision = Revision(scope: Scope, revisionId: Id, objective: Option<ItemRef>, wellFormed: bool)
  datatype Draft = Draft(scope: Scope, draftId: Id, version: nat, selected: seq<ItemRef>, notes: seq<ItemRef>,
                         objective: Option<ItemRef>, wellFormed: bool)
  datatype Preview = Preview(scope: Scope, previewId: Id, wellFormed: bool)
  datatype Receipt = Receipt(scope: Scope, commandId: Id, activeRevisionId: Id, wellFormed: bool)

  predicate ValidItemRef(item: ItemRef) {
    ValidId(item.itemId) && 0 < item.version <= MAX_SAFE_INTEGER && ValidDigest(item.sha256)
  }

  predicate AllValid(items: seq<ItemRef>) {
    forall k :: 0 <= k < |items| ==> ValidItemRef(items[k])
  }

  function References(draft: Draft): seq<ItemRef> {
    draft.selected + draft.notes + if draft.objective.Some? then [draft.objective.value] else []
  }

  // ---- What the facade accepts from the owner ----

  predicate AcceptsItem(item: EligibleItem, scope: Scope) {
    item.scope == scope && ValidItemRef(item.item) && item.wellFormed
  }

  predicate AcceptsRevision(revision: Revision, scope: Scope) {
    revision.scope == scope && ValidId(revision.revisionId) && revision.wellFormed
  }

  predicate AcceptsDraft(draft: Draft, scope: Scope) {
    && draft.scope == scope && ValidId(draft.draftId) && 0 < draft.version <= MAX_SAFE_INTEGER
    && |draft.selected| <= MAX_LISTING && |draft.notes| <= MAX_NOTES
    && AllValid(References(draft)) && Distinct(draft.selected) && Distinct(draft.notes)
    && draft.wellFormed
  }

  predicate AcceptsPreview(preview: Preview, scope: Scope) {
    preview.scope == scope && ValidId(preview.previewId) && preview.wellFormed
  }

  predicate AcceptsReceipt(receipt: Receipt, scope: Scope) {
    receipt.scope == scope && ValidId(receipt.commandId) && ValidId(receipt.activeRevisionId) && receipt.wellFormed
  }

  // A listing is accepted whole or not at all.

  predicate AcceptsItems(listing: seq<EligibleItem>, scope: Scope) {
    |listing| <= MAX_LISTING && forall k :: 0 <= k < |listing| ==> AcceptsItem(listing[k], scope)
  }

  predicate AcceptsRevisions(listing: seq<Revision>, scope: Scope) {
    |listing| <= MAX_LISTING && forall k :: 0 <= k < |listing| ==> AcceptsRevision(listing[k], scope)
  }

  predicate AcceptsDrafts(listing: seq<Draft>, scope: Scope) {
    |listing| <= MAX_LISTING && forall k :: 0 <= k < |listing| ==> AcceptsDraft(listing[k], scope)
  }

  predicate AcceptsPreviews(listing: seq<Preview>, scope: Scope) {
    |listing| <= MAX_LISTING && forall k :: 0 <= k < |listing| ==> AcceptsPreview(listing[k], scope)
  }

  predicate AcceptsReceipts(listing: seq<Receipt>, scope: Scope) {
    |listing| <= MAX_LISTING && forall k :: 0 <= k < |listing| ==> AcceptsReceipt(listing[k], scope)
  }

  // ---- What the owner has issued ----

  /** The references the owner returned in scope since the last reset of the index. */
  datatype Issued = Issued(revisions: set<Id>, drafts: set<Id>, previews: set<Id>, receipts: set<Id>,
                           items: set<ItemRef>)

  const NOTHING := Issued({}, {}, {}, {}, {})

  predicate Within(a: Issued, b: Issued) {
    a.revisions <= b.revisions && a.drafts <= b.drafts && a.previews <= b.previews && a.receipts <= b.receipts
    && a.items <= b.items
  }

  ghost function WithItems(issued: Issued, listing: seq<EligibleItem>, scope: Scope): Issued {
    issued.(items := issued.items + set e | e in listing && e.scope == scope :: e.item)
  }

  ghost function WithRevisions(issued: Issued, listing: seq<Revision>, scope: Scope): Issued {
    issued.(revisions := issued.revisions + set e | e in listing && e.scope == scope :: e.revisionId)
  }

  ghost function WithDrafts(issued: Issued, listing: seq<Draft>, scope: Scope): Issued {
    issued.(drafts := issued.drafts + (set e | e in listing && e.scope == scope :: e.draftId),
            items := issued.items + set e, r | e in listing && e.scope == scope && r in References(e) :: r)
  }

  ghost function WithPreviews(issued: Issued, listing: seq<Preview>, scope: Scope): Issued {
    issued.(previews := issued.previews + set e | e in listing && e.scope == scope :: e.previewId)
  }

  ghost function WithReceipts(issued: Issued, listing: seq<Receipt>, scope: Scope): Issued {
    issued.(receipts := issued.receipts + (set e | e in listing && e.scope == scope :: e.commandId),
            revisions := issued.revisions + set e | e in listing && e.scope == scope :: e.activeRevisionId)
  }

  ghost function WithRevision(issued: Issued, revision: Revision, scope: Scope): Issued {
    if revision.scope != scope then issued
    else issued.(revisions := issued.revisions + {revision.revisionId})
  }

  ghost function WithDraft(issued: Issued, draft: Draft, scope: Scope): Issued {
    if draft.scope != scope then issued
    else issued.(drafts := issued.drafts + {draft.draftId}, items := issued.items + set r | r in References(draft))
  }

  ghost function WithPreview(issued: Issued, preview: Preview, scope: Scope): Issued {
    if preview.scope != scope then issued
    else issued.(previews := issued.previews + {preview.previewId})
  }

  ghost function WithReceipt(issued: Issued, receipt: Receipt, scope: Scope): Issued {
    if receipt.scope != scope then issued
    else issued.(receipts := issued.receipts + {receipt.commandId},
                 revisions := issued.revisions + {receipt.activeRevisionId})
  }

  datatype ReferenceKind = RevisionKind | DraftKind | PreviewKind | ReceiptKind

  function IssuedIds(issued: Issued, kind: ReferenceKind): set<Id> {
    match kind
    case RevisionKind => issued.revisions
    case DraftKind => issued.drafts
    case PreviewKind => issued.previews
    case ReceiptKind => issued.receipts
  }

  // ---- What the facade forwards ----

  datatype Operation =
    | IncludeItem(item: ItemRef)
    | ExcludeItem(item: ItemRef)
    | PinItem(item: ItemRef)
    | UnpinItem(item: ItemRef)
    | PutNote(noteId: Id, expectedVersion: Option<nat>, text: bytes, timely: bool)
    | RemoveNote(noteId: Id, expectedNoteVersion: nat)
    | SetObjective(objective: bytes)
    | RestoreConfiguration(sourceRevisionId: Id)

  datatype Patch = Patch(schemaKnown: bool, scope: Scope, draftId: Id, expectedDraftVersion: nat,
                         expectedActiveRevisionId: Id, operations: seq<Operation>)

  datatype PreviewRequest = PreviewRequest(scope: Scope, draftId: Id, expectedDraftVersion: nat,
                                           applicableRequested: bool, expectedControlVersion: nat,
                                           riskAcknowledged: bool)

  datatype CommandKind = Pause | Commit | Resume

  datatype Command = Command(schemaKnown: bool, scope: Scope, idempotencyKey: Id, commandWindowId: Id,
                             expectedControlVersion: nat, kind: CommandKind,
                             expectedActiveRevisionId: Option<Id>, previewId: Option<Id>,
                             approvedManifest: Option<bytes>, expectedPreviewId: Option<Id>)

  datatype Mutation =
    | CreateDraft(scope: Scope, expectedActiveRevisionId: Id)
    | ApplyPatch(patch: Patch, withObjective: bool)
    | CreatePreview(preview: PreviewRequest)
    | Control(command: Command)

  /** Every reference the operation names was issued; a removed note names an issued item. */
  ghost predicate OperationFenced(operation: Operation, issued: Issued) {
    match operation
    case PutNote(_, _, _, _) => true
    case SetObjective(_) => true
    case RemoveNote(noteId, _) => exists item :: item in issued.items && item.itemId == noteId
    case RestoreConfiguration(sourceRevisionId) => sourceRevisionId in issued.revisions
    case _ => operation.item in issued.items
  }

  ghost predicate OptionFenced(id: Option<Id>, ids: set<Id>) {
    id.Some? ==> id.value in ids
  }

  /** The mutation is in scope and names only issued references. */
  ghost predicate Fenced(mutation: Mutation, issued: Issued, scope: Scope) {
    match mutation
    case CreateDraft(s, revisionId) => s == scope && revisionId in issued.revisions
    case ApplyPatch(patch, _) =>
      && patch.scope == scope && patch.draftId in issued.drafts && patch.expectedActiveRevisionId in issued.revisions
      && forall k :: 0 <= k < |patch.operations| ==> OperationFenced(patch.operations[k], issued)
    case CreatePreview(preview) => preview.scope == scope && preview.draftId in issued.drafts
    case Control(command) =>
      CommandFenced(command, issued, scope)
      && (command.kind.Commit? ==> command.previewId.Some? && command.approvedManifest.Some?)
  }

  ghost predicate CommandFenced(command: Command, issued: Issued, scope: Scope) {
    && command.scope == scope
    && OptionFenced(command.expectedActiveRevisionId, issued.revisions)
    && OptionFenced(command.previewId, issued.previews) && OptionFenced(command.expectedPreviewId, issued.previews)
  }

  lemma OperationFenceGrows(operation: Operation, a: Issued, b: Issued)
    requires OperationFenced(operation, a) && Within(a, b)
    ensures OperationFenced(operation, b)
  {}

  // ---- What a mutation must be granted ----

  datatype FacadePermission = ReadMetadata | EditDrafts | ChangeObjective | PauseRuns | CommitPlans | ResumeRuns

  predicate SetsObjective(patch: Patch) {
    exists k :: 0 <= k < |patch.operations| && patch.operations[k].SetObjective?
  }

  /** The configuration the patch restores first, if any. */
  function FirstRestored(operations: seq<Operation>): Option<Id> {
    if operations == [] then None
    else if operations[0].RestoreConfiguration? then Some(operations[0].sourceRevisionId)
    else FirstRestored(operations[1..])
  }

  /** What `pause`, `held_commit` and `resume` ask the grant check for. */
  function PermissionFor(kind: CommandKind): FacadePermission {
    match kind
    case Pause => PauseRuns
    case Commit => CommitPlans
    case Resume => ResumeRuns
  }

  // ---- What the facade answers ----

  datatype OwnerError = Unsupported | NotFound | Unavailable | Unknown | OtherOwner

  datatype FacadeError =
    | Invalid
    | Unauthorized
    | ScopeMismatch
    | RejectedReply
    | ForeignReference
    | OwnerDisabled
    | StaleDraft
    | FromOwner(error: OwnerError)

  type Reply<T> = Result<T, OwnerError>

  /** The operations an owner can advertise, each standing for all its names. */
  datatype OwnerOperation =
    | EligibleItems | Revisions | Drafts | Previews | Receipts | ReceiptRecovery
    | DraftCreate | DraftEdit | PreviewCreate | PauseRun | CommitPlan | ResumeRun

  datatype Capabilities = Capabilities(enabled: bool, supported: set<OwnerOperation>)

  /** How an exact item reference is judged before the owner is asked. */
  datatype ItemVerdict = KnownItem | ForeignItem | AskOwner

  function JudgeItem(itemRefs: map<ItemKey, ItemRef>, complete: bool, item: ItemRef): ItemVerdict {
    if KeyOf(item) in itemRefs then if itemRefs[KeyOf(item)] == item then KnownItem else ForeignItem
    else if complete then ForeignItem
    else AskOwner
  }
}
