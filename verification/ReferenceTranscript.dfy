/**
 Everything a facade asks and forwards, in order, against an owner and a grant check that are given:
 what they answer at each place is fixed beforehand, and may be anything. The index, the references
 issued, the latest listings and the grants held are all functions of that transcript.
 */
module ReferenceTranscript {
  import opened Bytes
  import opened BoundedCache
  import opened Identifiers
  import opened ReferenceModel
  import opened ReferenceState
  import Sorting

  /** The answers of the grant check and of the owner to whatever is asked at each place. */
  datatype World = World(
    allows: nat -> bool,
    capabilities: nat -> Reply<Capabilities>,
    items: nat -> Reply<seq<EligibleItem>>,
    revisions: nat -> Reply<seq<Revision>>,
    revision: nat -> Reply<Revision>,
    drafts: nat -> Reply<seq<Draft>>,
    draft: nat -> Reply<Draft>,
    previews: nat -> Reply<seq<Preview>>,
    preview: nat -> Reply<Preview>,
    receipts: nat -> Reply<seq<Receipt>>,
    receipt: nat -> Reply<Receipt>)

  /** A listing is asked for at a reset, for a caller, or to look something up. */
  datatype ListUse = AtReset | ForCaller | LookingUp

  /** A single entity asked for by an id is kept only under that id. */
  datatype Entry =
    | Reset
    | Begin
    | GrantAsked(permission: FacadePermission)
    | CapabilitiesAsked
    | ItemsAsked(use: ListUse, wanted: Option<ItemRef>)
    | RevisionsAsked(use: ListUse)
    | RevisionAsked(id: Id)
    | DraftsAsked(use: ListUse)
    | DraftAsked(wantedId: Option<Id>)
    | PreviewsAsked(use: ListUse)
    | PreviewAsked(wantedId: Option<Id>)
    | ReceiptsAsked(use: ListUse)
    | ReceiptAsked(wantedId: Option<Id>, withRevision: bool)
    | Sent(mutation: Mutation)

  type Transcript = seq<Entry>

  predicate Wants(wanted: Option<Id>, id: Id) {
    wanted.Some? ==> wanted.value == id
  }

  // ---- What the transcript makes of the index ----

  /** After a listing that was not stored: dropped at a reset, or when a caller's was rejected. */
  function Unlisted<C>(use: ListUse, failed: bool, kept: C, incomplete: C, cleared: C): C {
    match use
    case AtReset => incomplete
    case ForCaller => if failed then kept else cleared
    case LookingUp => kept
  }

  function Filed(listing: seq<EligibleItem>, ix: Index, use: ListUse): seq<ItemRef> {
    ItemsOf(listing) + if use.AtReset? then [] else DraftReferences(ix.drafts)
  }

  /** What a wanted item adds once it was found. */
  function Found(wanted: Option<ItemRef>, items: seq<ItemRef>): seq<ItemRef> {
    if wanted.Some? && wanted.value in items then [wanted.value] else []
  }

  function ItemsStep(ix: Index, use: ListUse, wanted: Option<ItemRef>, reply: Reply<seq<EligibleItem>>, scope: Scope): Index {
    if reply.Ok? && AcceptsItems(reply.value, scope) then
      var items := Filed(reply.value, ix, use);
      ix.(items := AddItems(NoItems(true), items + Found(wanted, items)))
    else ix.(items := Unlisted(use, reply.Err?, ix.items, ix.items.(complete := false), NoItems(false)))
  }

  function RevisionsStep(ix: Index, use: ListUse, reply: Reply<seq<Revision>>, scope: Scope): Index {
    if reply.Ok? && AcceptsRevisions(reply.value, scope) then
      ix.(revisions := AddRevisions(NoEntities(true), reply.value))
    else ix.(revisions := Unlisted(use, reply.Err?, ix.revisions, ix.revisions.(complete := false), NoEntities(false)))
  }

  function RevisionStep(ix: Index, id: Id, reply: Reply<Revision>, scope: Scope): Index {
    if reply.Ok? && AcceptsRevision(reply.value, scope) && reply.value.revisionId == id then
      ix.(revisions := AddEntity(ix.revisions, id, reply.value))
    else ix
  }

  function DraftsStep(ix: Index, use: ListUse, reply: Reply<seq<Draft>>, scope: Scope): Index {
    if reply.Ok? && AcceptsDrafts(reply.value, scope) then AddDrafts(ix.(drafts := NoEntities(true)), reply.value)
    else ix.(drafts := Unlisted(use, reply.Err?, ix.drafts, ix.drafts.(complete := false), NoEntities(false)))
  }

  function DraftStep(ix: Index, wanted: Option<Id>, reply: Reply<Draft>, scope: Scope): Index {
    if reply.Ok? && AcceptsDraft(reply.value, scope) && Wants(wanted, reply.value.draftId) then AddDraft(ix, reply.value)
    else ix
  }

  function PreviewsStep(ix: Index, use: ListUse, reply: Reply<seq<Preview>>, scope: Scope): Index {
    if reply.Ok? && AcceptsPreviews(reply.value, scope) then
      ix.(previews := AddPlainIds(NoPlainIds(true), PreviewIds(reply.value)))
    else ix.(previews := Unlisted(use, reply.Err?, ix.previews, ix.previews.(complete := false), NoPlainIds(false)))
  }

  function PreviewStep(ix: Index, wanted: Option<Id>, reply: Reply<Preview>, scope: Scope): Index {
    if reply.Ok? && AcceptsPreview(reply.value, scope) && Wants(wanted, reply.value.previewId) then
      ix.(previews := AddPlainId(ix.previews, reply.value.previewId))
    else ix
  }

  function ReceiptsStep(ix: Index, use: ListUse, reply: Reply<seq<Receipt>>, scope: Scope): Index {
    if reply.Ok? && AcceptsReceipts(reply.value, scope) then
      ix.(receipts := AddPlainIds(NoPlainIds(true), ReceiptIds(reply.value)))
    else ix.(receipts := Unlisted(use, reply.Err?, ix.receipts, ix.receipts.(complete := false), NoPlainIds(false)))
  }

  function ReceiptStep(ix: Index, wanted: Option<Id>, withRevision: bool, reply: Reply<Receipt>, scope: Scope): Index {
    if reply.Ok? && AcceptsReceipt(reply.value, scope) && Wants(wanted, reply.value.commandId) then
      ix.(receipts := AddPlainId(ix.receipts, reply.value.commandId),
          revisions := if withRevision then AddEntityId(ix.revisions, reply.value.activeRevisionId) else ix.revisions)
    else ix
  }

  function IndexStep(ix: Index, e: Entry, world: World, at: nat, scope: Scope): Index {
    match e
    case Reset => EMPTY
    case ItemsAsked(use, wanted) => ItemsStep(ix, use, wanted, world.items(at), scope)
    case RevisionsAsked(use) => RevisionsStep(ix, use, world.revisions(at), scope)
    case RevisionAsked(id) => RevisionStep(ix, id, world.revision(at), scope)
    case DraftsAsked(use) => DraftsStep(ix, use, world.drafts(at), scope)
    case DraftAsked(wanted) => DraftStep(ix, wanted, world.draft(at), scope)
    case PreviewsAsked(use) => PreviewsStep(ix, use, world.previews(at), scope)
    case PreviewAsked(wanted) => PreviewStep(ix, wanted, world.preview(at), scope)
    case ReceiptsAsked(use) => ReceiptsStep(ix, use, world.receipts(at), scope)
    case ReceiptAsked(wanted, withRevision) => ReceiptStep(ix, wanted, withRevision, world.receipt(at), scope)
    case _ => ix
  }

  function IndexBy(world: World, t: Transcript, scope: Scope): Index {
    if t == [] then EMPTY
    else
      var n := |t| - 1;
      IndexStep(IndexBy(world, t[..n], scope), t[n], world, n, scope)
  }

  // ---- What the owner has issued ----

  ghost function IssuedStep(issued: Issued, e: Entry, world: World, at: nat, scope: Scope): Issued {
    match e
    case Reset => NOTHING
    case ItemsAsked(_, _) => if world.items(at).Ok? then WithItems(issued, world.items(at).value, scope) else issued
    case RevisionsAsked(_) =>
      if world.revisions(at).Ok? then WithRevisions(issued, world.revisions(at).value, scope) else issued
    case RevisionAsked(_) =>
      if world.revision(at).Ok? then WithRevision(issued, world.revision(at).value, scope) else issued
    case DraftsAsked(_) => if world.drafts(at).Ok? then WithDrafts(issued, world.drafts(at).value, scope) else issued
    case DraftAsked(_) => if world.draft(at).Ok? then WithDraft(issued, world.draft(at).value, scope) else issued
    case PreviewsAsked(_) =>
      if world.previews(at).Ok? then WithPreviews(issued, world.previews(at).value, scope) else issued
    case PreviewAsked(_) => if world.preview(at).Ok? then WithPreview(issued, world.preview(at).value, scope) else issued
    case ReceiptsAsked(_) =>
      if world.receipts(at).Ok? then WithReceipts(issued, world.receipts(at).value, scope) else issued
    case ReceiptAsked(_, _) =>
      if world.receipt(at).Ok? then WithReceipt(issued, world.receipt(at).value, scope) else issued
    case _ => issued
  }

  /** The references the owner returned in scope since the last reset. */
  ghost function IssuedBy(world: World, t: Transcript, scope: Scope): Issued {
    if t == [] then NOTHING
    else
      var n := |t| - 1;
      IssuedStep(IssuedBy(world, t[..n], scope), t[n], world, n, scope)
  }

  // ---- The latest accepted listings, and what was cached since ----

  datatype Listed = Listed(revisions: set<Id>, drafts: set<Id>, previews: set<Id>, receipts: set<Id>)

  ghost function ListedStep(l: Listed, e: Entry, world: World, at: nat, scope: Scope): Listed {
    match e
    case Reset => Listed({}, {}, {}, {})
    case RevisionsAsked(_) =>
      if world.revisions(at).Ok? && AcceptsRevisions(world.revisions(at).value, scope) then
        l.(revisions := SetOf(RevisionIds(world.revisions(at).value)))
      else l
    case RevisionAsked(id) =>
      if world.revision(at).Ok? && AcceptsRevision(world.revision(at).value, scope)
         && world.revision(at).value.revisionId == id
      then l.(revisions := l.revisions + {id}) else l
    case DraftsAsked(_) =>
      if world.drafts(at).Ok? && AcceptsDrafts(world.drafts(at).value, scope) then
        l.(drafts := SetOf(DraftIds(world.drafts(at).value)))
      else l
    case DraftAsked(wanted) =>
      if world.draft(at).Ok? && AcceptsDraft(world.draft(at).value, scope) && Wants(wanted, world.draft(at).value.draftId)
      then l.(drafts := l.drafts + {world.draft(at).value.draftId}) else l
    case PreviewsAsked(_) =>
      if world.previews(at).Ok? && AcceptsPreviews(world.previews(at).value, scope) then
        l.(previews := SetOf(PreviewIds(world.previews(at).value)))
      else l
    case PreviewAsked(wanted) =>
      if world.preview(at).Ok? && AcceptsPreview(world.preview(at).value, scope)
         && Wants(wanted, world.preview(at).value.previewId)
      then l.(previews := l.previews + {world.preview(at).value.previewId}) else l
    case ReceiptsAsked(_) =>
      if world.receipts(at).Ok? && AcceptsReceipts(world.receipts(at).value, scope) then
        l.(receipts := SetOf(ReceiptIds(world.receipts(at).value)))
      else l
    case ReceiptAsked(wanted, withRevision) =>
      var reply := world.receipt(at);
      if reply.Ok? && AcceptsReceipt(reply.value, scope) && Wants(wanted, reply.value.commandId) then
        l.(receipts := l.receipts + {reply.value.commandId},
           revisions := l.revisions + if withRevision then {reply.value.activeRevisionId} else {})
      else l
    case _ => l
  }

  ghost function ListedBy(world: World, t: Transcript, scope: Scope): Listed {
    if t == [] then Listed({}, {}, {}, {})
    else
      var n := |t| - 1;
      ListedStep(ListedBy(world, t[..n], scope), t[n], world, n, scope)
  }

  function ListedIds(l: Listed, kind: ReferenceKind): set<Id> {
    match kind
    case RevisionKind => l.revisions
    case DraftKind => l.drafts
    case PreviewKind => l.previews
    case ReceiptKind => l.receipts
  }

  ghost function FiledStep(filed: seq<ItemRef>, ix: Index, e: Entry, world: World, at: nat, scope: Scope): seq<ItemRef> {
    match e
    case Reset => []
    case ItemsAsked(use, wanted) =>
      if world.items(at).Ok? && AcceptsItems(world.items(at).value, scope) then
        var items := Filed(world.items(at).value, ix, use);
        items + Found(wanted, items)
      else filed
    case DraftsAsked(_) =>
      if world.drafts(at).Ok? && AcceptsDrafts(world.drafts(at).value, scope) then
        filed + AllReferences(world.drafts(at).value)
      else filed
    case DraftAsked(wanted) =>
      if world.draft(at).Ok? && AcceptsDraft(world.draft(at).value, scope) && Wants(wanted, world.draft(at).value.draftId)
      then filed + References(world.draft(at).value) else filed
    case _ => filed
  }

  /** The exact item references of the latest accepted listing and all that was cached since, in order. */
  ghost function FiledBy(world: World, t: Transcript, scope: Scope): seq<ItemRef> {
    if t == [] then []
    else
      var n := |t| - 1;
      FiledStep(FiledBy(world, t[..n], scope), IndexBy(world, t[..n], scope), t[n], world, n, scope)
  }

  // ---- Grants and capabilities ----

  /** What the request at hand has been granted. */
  ghost function GrantedBy(world: World, t: Transcript): set<FacadePermission> {
    if t == [] then {}
    else
      var n := |t| - 1;
      match t[n]
      case Begin => {}
      case GrantAsked(permission) => GrantedBy(world, t[..n]) + if world.allows(n) then {permission} else {}
      case _ => GrantedBy(world, t[..n])
  }

  /** The owner's latest answer about what it supports. */
  ghost function CapabilitiesBy(world: World, t: Transcript): Reply<Capabilities> {
    if t == [] then Err(Unknown)
    else if t[|t| - 1].CapabilitiesAsked? then world.capabilities(|t| - 1)
    else CapabilitiesBy(world, t[..|t| - 1])
  }

  // ---- The index is sound in every transcript ----

  ghost predicate Sound(ix: Index, issued: Issued, l: Listed, filed: seq<ItemRef>) {
    && DraftsSound(ix, issued, l.drafts, filed)
    && IdsSound(ix.revisions.ids, ix.revisions.complete, issued.revisions, l.revisions)
    && EntriesSound(ix.revisions.table, issued.revisions, RevisionId)
    && IdsSound(ix.previews.ids, ix.previews.complete, issued.previews, l.previews)
    && IdsSound(ix.receipts.ids, ix.receipts.complete, issued.receipts, l.receipts)
  }

  lemma SoundGrows(ix: Index, a: Issued, b: Issued, l: Listed, filed: seq<ItemRef>)
    requires Sound(ix, a, l, filed) && Within(a, b)
    ensures Sound(ix, b, l, filed)
  {
    hide Synced, Files, References;
  }

  lemma ItemsStepSound(ix: Index, issued: Issued, l: Listed, filed: seq<ItemRef>, use: ListUse, wanted: Option<ItemRef>,
                       world: World, at: nat, scope: Scope)
    requires Sound(ix, issued, l, filed)
    ensures var e := ItemsAsked(use, wanted);
            Sound(IndexStep(ix, e, world, at, scope), IssuedStep(issued, e, world, at, scope), l,
                  FiledStep(filed, ix, e, world, at, scope))
  {
    hide Synced, AddItems, IdsSound, EntriesSound, References, DraftReferences;
    var reply := world.items(at);
    var after := IssuedStep(issued, ItemsAsked(use, wanted), world, at, scope);
    SoundGrows(ix, issued, after, l, filed);
    if reply.Ok? && AcceptsItems(reply.value, scope) {
      var items := Filed(reply.value, ix, use);
      ListedItemsIssued(reply.value, scope, issued);
      DraftReferencesIssued(ix.drafts, after.items);
      EmptyItemsSound(after.items, true, []);
      AddItemsSound(NoItems(true), items + Found(wanted, items), after.items, []);
      assert [] + (items + Found(wanted, items)) == items + Found(wanted, items);
    } else {
      EmptyItemsSound(after.items, false, filed);
    }
  }

  lemma EmptyItemsSound(issued: set<ItemRef>, complete: bool, filed: seq<ItemRef>)
    requires complete ==> filed == []
    ensures ItemsSound(NoItems(complete), issued, filed)
  {}

  lemma DraftReferencesIssued(c: EntityCache<Draft>, items: set<ItemRef>)
    requires DraftsIssued(c.table.entries, items)
    ensures forall item :: item in DraftReferences(c) ==> item in items
  {
    ReferencesOfIssued(Sorting.Sort(c.table.order, AsKey), c.table.entries, items);
  }

  lemma ListedItemsIssued(listing: seq<EligibleItem>, scope: Scope, issued: Issued)
    requires AcceptsItems(listing, scope)
    ensures forall item :: item in ItemsOf(listing) ==> item in WithItems(issued, listing, scope).items
  {
    forall item | item in ItemsOf(listing) ensures item in WithItems(issued, listing, scope).items {
      var k :| 0 <= k < |listing| && ItemsOf(listing)[k] == item;
      assert listing[k] in listing && listing[k].scope == scope;
    }
  }

  lemma RevisionsStepSound(ix: Index, issued: Issued, l: Listed, filed: seq<ItemRef>, use: ListUse, world: World, at: nat,
                           scope: Scope)
    requires Sound(ix, issued, l, filed)
    ensures var e := RevisionsAsked(use);
            Sound(IndexStep(ix, e, world, at, scope), IssuedStep(issued, e, world, at, scope),
                  ListedStep(l, e, world, at, scope), filed)
  {
    hide Synced, ItemsSound, DraftsIssued, AddRevisions;
    var reply := world.revisions(at);
    var after := IssuedStep(issued, RevisionsAsked(use), world, at, scope);
    SoundGrows(ix, issued, after, l, filed);
    NoEntitiesSound(true, after.revisions, {}, RevisionId);
    NoEntitiesSound(false, after.revisions, l.revisions, RevisionId);
    if reply.Ok? && AcceptsRevisions(reply.value, scope) {
      assert SetOf(RevisionIds(reply.value)) <= after.revisions by {
        forall k | 0 <= k < |reply.value| ensures RevisionIds(reply.value)[k] in after.revisions {
          assert reply.value[k] in reply.value && AcceptsRevision(reply.value[k], scope);
        }
      }
      AddRevisionsSound(NoEntities(true), reply.value, after.revisions, {});
      assert {} + SetOf(RevisionIds(reply.value)) == SetOf(RevisionIds(reply.value));
    }
  }

  lemma NoEntitiesSound<V>(complete: bool, issued: set<Id>, listed: set<Id>, idOf: V -> Id)
    requires complete ==> listed == {}
    ensures var c: EntityCache<V> := NoEntities(complete);
            IdsSound(c.ids, c.complete, issued, listed) && EntriesSound(c.table, issued, idOf)
    ensures IdsSound(NoPlainIds(complete).ids, complete, issued, listed)
  {}

  lemma RevisionStepSound(ix: Index, issued: Issued, l: Listed, filed: seq<ItemRef>, id: Id, world: World, at: nat,
                          scope: Scope)
    requires Sound(ix, issued, l, filed)
    ensures var e := RevisionAsked(id);
            Sound(IndexStep(ix, e, world, at, scope), IssuedStep(issued, e, world, at, scope),
                  ListedStep(l, e, world, at, scope), filed)
  {
    hide IdsSound, EntriesSound, ItemsSound, DraftsIssued, AddEntity;
    var reply := world.revision(at);
    var after := IssuedStep(issued, RevisionAsked(id), world, at, scope);
    SoundGrows(ix, issued, after, l, filed);
    if reply.Ok? && AcceptsRevision(reply.value, scope) && reply.value.revisionId == id {
      AddEntitySound(ix.revisions, id, reply.value, after.revisions, l.revisions, RevisionId);
    }
  }

  lemma DraftsStepSound(ix: Index, issued: Issued, l: Listed, filed: seq<ItemRef>, use: ListUse, world: World, at: nat,
                        scope: Scope)
    requires Sound(ix, issued, l, filed)
    ensures var e := DraftsAsked(use);
            Sound(IndexStep(ix, e, world, at, scope), IssuedStep(issued, e, world, at, scope),
                  ListedStep(l, e, world, at, scope), FiledStep(filed, ix, e, world, at, scope))
  {
    hide Synced, ItemsSound, AddDrafts, AllReferences, References;
    var reply := world.drafts(at);
    var after := IssuedStep(issued, DraftsAsked(use), world, at, scope);
    SoundGrows(ix, issued, after, l, filed);
    NoEntitiesSound(true, after.drafts, {}, DraftId);
    NoEntitiesSound(false, after.drafts, l.drafts, DraftId);
    if reply.Ok? && AcceptsDrafts(reply.value, scope) {
      ListedDraftsIssued(reply.value, scope, issued);
      AddDraftsSound(ix.(drafts := NoEntities(true)), reply.value, after, {}, filed);
      assert {} + SetOf(DraftIds(reply.value)) == SetOf(DraftIds(reply.value));
    }
  }

  lemma ListedDraftsIssued(listing: seq<Draft>, scope: Scope, issued: Issued)
    requires AcceptsDrafts(listing, scope)
    ensures var after := WithDrafts(issued, listing, scope);
            && SetOf(DraftIds(listing)) <= after.drafts
            && forall draft :: draft in listing ==> DraftIssued(draft, after.items)
  {
    hide References;
    var after := WithDrafts(issued, listing, scope);
    forall k | 0 <= k < |listing| ensures DraftIds(listing)[k] in after.drafts {
      assert listing[k] in listing && AcceptsDraft(listing[k], scope);
    }
  }

  lemma DraftStepSound(ix: Index, issued: Issued, l: Listed, filed: seq<ItemRef>, wanted: Option<Id>, world: World, at: nat,
                       scope: Scope)
    requires Sound(ix, issued, l, filed)
    ensures var e := DraftAsked(wanted);
            Sound(IndexStep(ix, e, world, at, scope), IssuedStep(issued, e, world, at, scope),
                  ListedStep(l, e, world, at, scope), FiledStep(filed, ix, e, world, at, scope))
  {
    hide IdsSound, EntriesSound, DraftsSound, AddDraft, References;
    var reply := world.draft(at);
    var after := IssuedStep(issued, DraftAsked(wanted), world, at, scope);
    SoundGrows(ix, issued, after, l, filed);
    if reply.Ok? && AcceptsDraft(reply.value, scope) && Wants(wanted, reply.value.draftId) {
      AddDraftSound(ix, reply.value, after, l.drafts, filed);
      DraftOnly(ix, reply.value);
    }
  }

  lemma DraftOnly(ix: Index, draft: Draft)
    ensures AddDraft(ix, draft) == ix.(items := AddDraft(ix, draft).items, drafts := AddDraft(ix, draft).drafts)
  {}

  lemma PreviewsStepSound(ix: Index, issued: Issued, l: Listed, filed: seq<ItemRef>, use: ListUse, world: World, at: nat,
                          scope: Scope)
    requires Sound(ix, issued, l, filed)
    ensures var e := PreviewsAsked(use);
            Sound(IndexStep(ix, e, world, at, scope), IssuedStep(issued, e, world, at, scope),
                  ListedStep(l, e, world, at, scope), filed)
  {
    hide Synced, ItemsSound, DraftsIssued, EntriesSound, AddPlainIds;
    var reply := world.previews(at);
    var after := IssuedStep(issued, PreviewsAsked(use), world, at, scope);
    SoundGrows(ix, issued, after, l, filed);
    NoEntitiesSound(true, after.previews, {}, RevisionId);
    NoEntitiesSound(false, after.previews, l.previews, RevisionId);
    if reply.Ok? && AcceptsPreviews(reply.value, scope) {
      assert SetOf(PreviewIds(reply.value)) <= after.previews by {
        forall k | 0 <= k < |reply.value| ensures PreviewIds(reply.value)[k] in after.previews {
          assert reply.value[k] in reply.value && AcceptsPreview(reply.value[k], scope);
        }
      }
      AddPlainIdsSound(NoPlainIds(true), PreviewIds(reply.value), after.previews, {});
      assert {} + SetOf(PreviewIds(reply.value)) == SetOf(PreviewIds(reply.value));
    }
  }

  lemma PreviewStepSound(ix: Index, issued: Issued, l: Listed, filed: seq<ItemRef>, wanted: Option<Id>, world: World, at: nat,
                         scope: Scope)
    requires Sound(ix, issued, l, filed)
    ensures var e := PreviewAsked(wanted);
            Sound(IndexStep(ix, e, world, at, scope), IssuedStep(issued, e, world, at, scope),
                  ListedStep(l, e, world, at, scope), filed)
  {
    hide IdsSound, EntriesSound, ItemsSound, DraftsIssued, WithId, Evicts;
    var reply := world.preview(at);
    var after := IssuedStep(issued, PreviewAsked(wanted), world, at, scope);
    SoundGrows(ix, issued, after, l, filed);
    if reply.Ok? && AcceptsPreview(reply.value, scope) && Wants(wanted, reply.value.previewId) {
      WithIdSound(ix.previews.ids, ix.previews.complete, reply.value.previewId, after.previews, l.previews);
    }
  }

  lemma ReceiptsStepSound(ix: Index, issued: Issued, l: Listed, filed: seq<ItemRef>, use: ListUse, world: World, at: nat,
                          scope: Scope)
    requires Sound(ix, issued, l, filed)
    ensures var e := ReceiptsAsked(use);
            Sound(IndexStep(ix, e, world, at, scope), IssuedStep(issued, e, world, at, scope),
                  ListedStep(l, e, world, at, scope), filed)
  {
    hide Synced, ItemsSound, DraftsIssued, EntriesSound, AddPlainIds;
    var reply := world.receipts(at);
    var after := IssuedStep(issued, ReceiptsAsked(use), world, at, scope);
    SoundGrows(ix, issued, after, l, filed);
    NoEntitiesSound(true, after.receipts, {}, RevisionId);
    NoEntitiesSound(false, after.receipts, l.receipts, RevisionId);
    if reply.Ok? && AcceptsReceipts(reply.value, scope) {
      assert SetOf(ReceiptIds(reply.value)) <= after.receipts by {
        forall k | 0 <= k < |reply.value| ensures ReceiptIds(reply.value)[k] in after.receipts {
          assert reply.value[k] in reply.value && AcceptsReceipt(reply.value[k], scope);
        }
      }
      AddPlainIdsSound(NoPlainIds(true), ReceiptIds(reply.value), after.receipts, {});
      assert {} + SetOf(ReceiptIds(reply.value)) == SetOf(ReceiptIds(reply.value));
    }
  }

  lemma ReceiptStepSound(ix: Index, issued: Issued, l: Listed, filed: seq<ItemRef>, wanted: Option<Id>, withRevision: bool,
                         world: World, at: nat, scope: Scope)
    requires Sound(ix, issued, l, filed)
    ensures var e := ReceiptAsked(wanted, withRevision);
            Sound(IndexStep(ix, e, world, at, scope), IssuedStep(issued, e, world, at, scope),
                  ListedStep(l, e, world, at, scope), filed)
  {
    hide IdsSound, EntriesSound, ItemsSound, DraftsIssued, WithId, Evicts;
    var reply := world.receipt(at);
    var after := IssuedStep(issued, ReceiptAsked(wanted, withRevision), world, at, scope);
    SoundGrows(ix, issued, after, l, filed);
    if reply.Ok? && AcceptsReceipt(reply.value, scope) && Wants(wanted, reply.value.commandId) {
      WithIdSound(ix.receipts.ids, ix.receipts.complete, reply.value.commandId, after.receipts, l.receipts);
      WithIdSound(ix.revisions.ids, ix.revisions.complete, reply.value.activeRevisionId, after.revisions, l.revisions);
      assert l.revisions + {} == l.revisions;
    }
  }

  lemma EmptySound()
    ensures Sound(EMPTY, NOTHING, Listed({}, {}, {}, {}), [])
  {}

  /**
   In every transcript the index holds only references the owner issued since the last reset, files the
   latest item under each key, and while a flag is set holds everything listed or cached since.
   */
  lemma {:induction false} TranscriptSound(world: World, t: Transcript, scope: Scope)
    ensures Sound(IndexBy(world, t, scope), IssuedBy(world, t, scope), ListedBy(world, t, scope), FiledBy(world, t, scope))
  {
    hide Sound, ItemsStep, RevisionsStep, RevisionStep, DraftsStep, DraftStep, PreviewsStep, PreviewStep, ReceiptsStep;
    hide ReceiptStep, AcceptsItems, AcceptsDrafts, AcceptsRevisions, AcceptsPreviews, AcceptsReceipts, Filed, Found;
    EmptySound();
    if t != [] {
      var n := |t| - 1;
      var before := t[..n];
      TranscriptSound(world, before, scope);
      var ix, issued := IndexBy(world, before, scope), IssuedBy(world, before, scope);
      var l, filed := ListedBy(world, before, scope), FiledBy(world, before, scope);
      match t[n]
      case ItemsAsked(use, wanted) => ItemsStepSound(ix, issued, l, filed, use, wanted, world, n, scope);
      case RevisionsAsked(use) => RevisionsStepSound(ix, issued, l, filed, use, world, n, scope);
      case RevisionAsked(id) => RevisionStepSound(ix, issued, l, filed, id, world, n, scope);
      case DraftsAsked(use) => DraftsStepSound(ix, issued, l, filed, use, world, n, scope);
      case DraftAsked(wanted) => DraftStepSound(ix, issued, l, filed, wanted, world, n, scope);
      case PreviewsAsked(use) => PreviewsStepSound(ix, issued, l, filed, use, world, n, scope);
      case PreviewAsked(wanted) => PreviewStepSound(ix, issued, l, filed, wanted, world, n, scope);
      case ReceiptsAsked(use) => ReceiptsStepSound(ix, issued, l, filed, use, world, n, scope);
      case ReceiptAsked(wanted, withRevision) =>
        ReceiptStepSound(ix, issued, l, filed, wanted, withRevision, world, n, scope);
      case _ =>
    }
  }
}
