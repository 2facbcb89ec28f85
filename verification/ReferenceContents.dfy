/**
 What stands in the index besides being issued: every entry is in scope and within the limits of its
 kind, whatever the owner answered.
 */
module ReferenceContents {
  import opened Bytes
  import opened BoundedCache
  import opened Identifiers
  import opened ReferenceModel
  import opened ReferenceState
  import opened ReferenceTranscript
  import opened ReferenceIssued
  import Sorting

  predicate CleanItem(item: ItemRef) {
    ValidId(item.itemId) && 1 <= item.version <= 9_007_199_254_740_991 && ValidDigest(item.sha256)
  }

  predicate CleanRevision(revision: Revision, scope: Scope) {
    revision.scope == scope && ValidId(revision.revisionId) && revision.wellFormed
  }

  /** At most 64 selected items and 16 notes, none twice, and every carried item clean. */
  predicate CleanDraft(draft: Draft, scope: Scope) {
    && draft.scope == scope && ValidId(draft.draftId) && 1 <= draft.version <= 9_007_199_254_740_991
    && |draft.selected| <= 64 && |draft.notes| <= 16 && Distinct(draft.selected) && Distinct(draft.notes)
    && (forall k :: 0 <= k < |draft.selected| ==> CleanItem(draft.selected[k]))
    && (forall k :: 0 <= k < |draft.notes| ==> CleanItem(draft.notes[k]))
    && (draft.objective.Some? ==> CleanItem(draft.objective.value)) && draft.wellFormed
  }

  ghost predicate CleanIds(c: Ids) {
    (forall id :: id in c.order ==> ValidId(id)) && (forall id :: id in c.keys ==> ValidId(id))
  }

  ghost predicate CleanItems(c: ItemCache) {
    forall key :: key in c.table.entries ==> CleanItem(c.table.entries[key])
  }

  ghost predicate CleanRevisions(c: EntityCache<Revision>, scope: Scope) {
    CleanIds(c.ids) && forall id :: id in c.table.entries ==> CleanRevision(c.table.entries[id], scope)
  }

  ghost predicate CleanDrafts(c: EntityCache<Draft>, scope: Scope) {
    CleanIds(c.ids) && forall id :: id in c.table.entries ==> CleanDraft(c.table.entries[id], scope)
  }

  ghost predicate Clean(ix: Index, scope: Scope) {
    && CleanItems(ix.items) && CleanRevisions(ix.revisions, scope) && CleanDrafts(ix.drafts, scope)
    && CleanIds(ix.previews.ids) && CleanIds(ix.receipts.ids)
  }

  // ---- Insertions ----

  lemma WithIdClean(c: Ids, id: Id)
    requires CleanIds(c) && ValidId(id)
    ensures CleanIds(WithId(c, id))
  {
    hide ValidId;
    var all := Without(c.order, id) + [id];
    assert forall x :: x in Touch(c.order, id, MAX_ENTRIES) ==> x in all;
  }

  lemma {:induction false} AddItemsClean(c: ItemCache, items: seq<ItemRef>)
    requires CleanItems(c) && forall item :: item in items ==> CleanItem(item)
    ensures CleanItems(AddItems(c, items))
  {
    hide CleanItem;
    if items != [] {
      AddItemsClean(c, items[..|items| - 1]);
    }
  }

  lemma AddRevisionClean(c: EntityCache<Revision>, revision: Revision, scope: Scope)
    requires CleanRevisions(c, scope) && CleanRevision(revision, scope)
    ensures CleanRevisions(AddEntity(c, revision.revisionId, revision), scope)
  {
    WithIdClean(c.ids, revision.revisionId);
  }

  lemma {:induction false} AddRevisionsClean(c: EntityCache<Revision>, listing: seq<Revision>, scope: Scope)
    requires CleanRevisions(c, scope) && forall k :: 0 <= k < |listing| ==> CleanRevision(listing[k], scope)
    ensures CleanRevisions(AddRevisions(c, listing), scope)
  {
    hide CleanRevisions, CleanRevision, AddEntity;
    if listing != [] {
      var n := |listing| - 1;
      AddRevisionsClean(c, listing[..n], scope);
      AddRevisionClean(AddRevisions(c, listing[..n]), listing[n], scope);
    }
  }

  lemma ReferencesClean(draft: Draft, scope: Scope)
    requires CleanDraft(draft, scope)
    ensures forall item :: item in References(draft) ==> CleanItem(item)
  {
    forall item | item in References(draft) ensures CleanItem(item) {
      Carried(draft, item);
    }
  }

  lemma AddDraftClean(ix: Index, draft: Draft, scope: Scope)
    requires CleanItems(ix.items) && CleanDrafts(ix.drafts, scope) && CleanDraft(draft, scope)
    ensures CleanItems(AddDraft(ix, draft).items) && CleanDrafts(AddDraft(ix, draft).drafts, scope)
  {
    hide CleanItems, CleanItem, AddItems, References;
    ReferencesClean(draft, scope);
    AddItemsClean(ix.items, References(draft));
    WithIdClean(ix.drafts.ids, draft.draftId);
  }

  lemma {:induction false} AddDraftsClean(ix: Index, listing: seq<Draft>, scope: Scope)
    requires CleanItems(ix.items) && CleanDrafts(ix.drafts, scope)
    requires forall k :: 0 <= k < |listing| ==> CleanDraft(listing[k], scope)
    ensures CleanItems(AddDrafts(ix, listing).items) && CleanDrafts(AddDrafts(ix, listing).drafts, scope)
    ensures AddDrafts(ix, listing) == ix.(items := AddDrafts(ix, listing).items, drafts := AddDrafts(ix, listing).drafts)
  {
    hide CleanItems, CleanDrafts, CleanDraft, AddItems, AddEntity, References;
    if listing != [] {
      var n := |listing| - 1;
      AddDraftsClean(ix, listing[..n], scope);
      AddDraftClean(AddDrafts(ix, listing[..n]), listing[n], scope);
    }
  }

  lemma {:induction false} AddPlainIdsClean(c: IdCache, ids: seq<Id>)
    requires CleanIds(c.ids) && forall k :: 0 <= k < |ids| ==> ValidId(ids[k])
    ensures CleanIds(AddPlainIds(c, ids).ids)
  {
    hide CleanIds, ValidId, WithId;
    if ids != [] {
      var n := |ids| - 1;
      AddPlainIdsClean(c, ids[..n]);
      WithIdClean(AddPlainIds(c, ids[..n]).ids, ids[n]);
    }
  }

  lemma {:induction false} ReferencesOfClean(ids: seq<Id>, drafts: map<Id, Draft>, scope: Scope)
    requires forall id :: id in drafts ==> CleanDraft(drafts[id], scope)
    ensures forall item :: item in ReferencesOf(ids, drafts) ==> CleanItem(item)
  {
    hide CleanDraft, CleanItem, References;
    if ids != [] {
      var last := ids[|ids| - 1];
      ReferencesOfClean(ids[..|ids| - 1], drafts, scope);
      if last in drafts {
        ReferencesClean(drafts[last], scope);
      }
    }
  }

  // ---- What is accepted is clean ----

  lemma AcceptedDraftClean(draft: Draft, scope: Scope)
    requires AcceptsDraft(draft, scope)
    ensures CleanDraft(draft, scope)
  {
    hide ValidId, ValidDigest;
    var refs := References(draft);
    forall k | 0 <= k < |draft.selected| ensures CleanItem(draft.selected[k]) {
      assert refs[k] == draft.selected[k];
    }
    forall k | 0 <= k < |draft.notes| ensures CleanItem(draft.notes[k]) {
      assert refs[|draft.selected| + k] == draft.notes[k];
    }
    if draft.objective.Some? {
      assert refs[|draft.selected| + |draft.notes|] == draft.objective.value;
    }
  }

  lemma ItemsStepClean(ix: Index, use: ListUse, wanted: Option<ItemRef>, reply: Reply<seq<EligibleItem>>, scope: Scope)
    requires Clean(ix, scope)
    ensures Clean(ItemsStep(ix, use, wanted, reply, scope), scope)
  {
    hide CleanIds, CleanRevision, CleanDraft, AddItems, ReferencesOf, ValidId, ValidDigest;
    if reply.Ok? && AcceptsItems(reply.value, scope) {
      var items := Filed(reply.value, ix, use);
      ReferencesOfClean(Sorting.Sort(ix.drafts.table.order, AsKey), ix.drafts.table.entries, scope);
      forall k | 0 <= k < |reply.value| ensures CleanItem(ItemsOf(reply.value)[k]) {
        assert AcceptsItem(reply.value[k], scope);
      }
      AddItemsClean(NoItems(true), items + Found(wanted, items));
    }
  }

  lemma StepClean(ix: Index, e: Entry, world: World, at: nat, scope: Scope)
    requires Clean(ix, scope)
    ensures Clean(IndexStep(ix, e, world, at, scope), scope)
  {
    hide CleanItem, CleanDraft, AddItems, AddDrafts, AddRevisions, AddPlainIds, AddEntity, ItemsStep, WithId, Evicts;
    hide AcceptsItems, References, ValidId;
    match e
    case ItemsAsked(use, wanted) => ItemsStepClean(ix, use, wanted, world.items(at), scope);
    case RevisionsAsked(use) =>
      var reply := world.revisions(at);
      if reply.Ok? && AcceptsRevisions(reply.value, scope) {
        forall k | 0 <= k < |reply.value| ensures CleanRevision(reply.value[k], scope) {
          assert AcceptsRevision(reply.value[k], scope);
        }
        AddRevisionsClean(NoEntities(true), reply.value, scope);
      }
    case RevisionAsked(id) =>
      var reply := world.revision(at);
      if reply.Ok? && AcceptsRevision(reply.value, scope) {
        AddRevisionClean(ix.revisions, reply.value, scope);
      }
    case DraftsAsked(use) =>
      var reply := world.drafts(at);
      if reply.Ok? && AcceptsDrafts(reply.value, scope) {
        forall k | 0 <= k < |reply.value| ensures CleanDraft(reply.value[k], scope) {
          AcceptedDraftClean(reply.value[k], scope);
        }
        AddDraftsClean(ix.(drafts := NoEntities(true)), reply.value, scope);
      }
    case DraftAsked(wanted) =>
      var reply := world.draft(at);
      if reply.Ok? && AcceptsDraft(reply.value, scope) {
        AcceptedDraftClean(reply.value, scope);
        AddDraftClean(ix, reply.value, scope);
        DraftOnly(ix, reply.value);
      }
    case PreviewsAsked(use) =>
      var reply := world.previews(at);
      if reply.Ok? && AcceptsPreviews(reply.value, scope) {
        forall k | 0 <= k < |reply.value| ensures ValidId(PreviewIds(reply.value)[k]) {
          assert AcceptsPreview(reply.value[k], scope);
        }
        AddPlainIdsClean(NoPlainIds(true), PreviewIds(reply.value));
      }
    case PreviewAsked(_) =>
      var reply := world.preview(at);
      if reply.Ok? && AcceptsPreview(reply.value, scope) {
        WithIdClean(ix.previews.ids, reply.value.previewId);
      }
    case ReceiptsAsked(use) =>
      var reply := world.receipts(at);
      if reply.Ok? && AcceptsReceipts(reply.value, scope) {
        forall k | 0 <= k < |reply.value| ensures ValidId(ReceiptIds(reply.value)[k]) {
          assert AcceptsReceipt(reply.value[k], scope);
        }
        AddPlainIdsClean(NoPlainIds(true), ReceiptIds(reply.value));
      }
    case ReceiptAsked(_, _) =>
      var reply := world.receipt(at);
      if reply.Ok? && AcceptsReceipt(reply.value, scope) {
        WithIdClean(ix.receipts.ids, reply.value.commandId);
        WithIdClean(ix.revisions.ids, reply.value.activeRevisionId);
      }
    case _ =>
  }

  /** After anything asked of any owner, the index holds nothing malformed, oversized or out of scope. */
  lemma {:induction false} TranscriptClean(world: World, t: Transcript, scope: Scope)
    ensures Clean(IndexBy(world, t, scope), scope)
  {
    hide IndexStep, Clean;
    if t == [] {
      EmptyClean(scope);
    } else {
      var n := |t| - 1;
      TranscriptClean(world, t[..n], scope);
      StepClean(IndexBy(world, t[..n], scope), t[n], world, n, scope);
    }
  }

  lemma EmptyClean(scope: Scope)
    ensures Clean(EMPTY, scope)
  {}

  // ---- How much it holds ----

  /** At most 64 ids and 64 entities of a kind, and 80 items. */
  predicate Small(ix: Index) {
    && |ix.items.table.order| <= 80
    && |ix.revisions.ids.order| <= 64 && |ix.revisions.table.order| <= 64
    && |ix.drafts.ids.order| <= 64 && |ix.drafts.table.order| <= 64
    && |ix.previews.ids.order| <= 64 && |ix.receipts.ids.order| <= 64
  }

  lemma {:induction false} AddItemsSmall(c: ItemCache, items: seq<ItemRef>)
    requires |c.table.order| <= 80
    ensures |AddItems(c, items).table.order| <= 80
  {
    hide Without;
    if items != [] {
      AddItemsSmall(c, items[..|items| - 1]);
    }
  }

  lemma {:induction false} AddRevisionsSmall(c: EntityCache<Revision>, listing: seq<Revision>)
    requires |c.ids.order| <= 64 && |c.table.order| <= 64
    ensures |AddRevisions(c, listing).ids.order| <= 64 && |AddRevisions(c, listing).table.order| <= 64
  {
    hide Without;
    if listing != [] {
      AddRevisionsSmall(c, listing[..|listing| - 1]);
    }
  }

  lemma AddDraftSmall(ix: Index, draft: Draft)
    requires Small(ix)
    ensures Small(AddDraft(ix, draft))
  {
    hide References, AddItems, Without;
    AddItemsSmall(ix.items, References(draft));
  }

  lemma {:induction false} AddDraftsSmall(ix: Index, listing: seq<Draft>)
    requires Small(ix)
    ensures Small(AddDrafts(ix, listing))
  {
    hide AddDraft, Small;
    if listing != [] {
      AddDraftsSmall(ix, listing[..|listing| - 1]);
      AddDraftSmall(AddDrafts(ix, listing[..|listing| - 1]), listing[|listing| - 1]);
    }
  }

  lemma {:induction false} AddPlainIdsSmall(c: IdCache, ids: seq<Id>)
    requires |c.ids.order| <= 64
    ensures |AddPlainIds(c, ids).ids.order| <= 64
  {
    hide Without;
    if ids != [] {
      AddPlainIdsSmall(c, ids[..|ids| - 1]);
    }
  }

  lemma StepSmall(ix: Index, e: Entry, world: World, at: nat, scope: Scope)
    requires Small(ix)
    ensures Small(IndexStep(ix, e, world, at, scope))
  {
    hide AddItems, AddDrafts, AddRevisions, AddPlainIds, Without, References, Evicts, Filed, Found, AcceptsItems;
    match e
    case ItemsAsked(use, wanted) =>
      var reply := world.items(at);
      if reply.Ok? && AcceptsItems(reply.value, scope) {
        var items := Filed(reply.value, ix, use);
        AddItemsSmall(NoItems(true), items + Found(wanted, items));
      }
    case RevisionsAsked(_) =>
      if world.revisions(at).Ok? {
        AddRevisionsSmall(NoEntities(true), world.revisions(at).value);
      }
    case DraftsAsked(_) =>
      if world.drafts(at).Ok? {
        AddDraftsSmall(ix.(drafts := NoEntities(true)), world.drafts(at).value);
      }
    case DraftAsked(_) =>
      if world.draft(at).Ok? {
        AddDraftSmall(ix, world.draft(at).value);
      }
    case PreviewsAsked(_) =>
      if world.previews(at).Ok? {
        AddPlainIdsSmall(NoPlainIds(true), PreviewIds(world.previews(at).value));
      }
    case ReceiptsAsked(_) =>
      if world.receipts(at).Ok? {
        AddPlainIdsSmall(NoPlainIds(true), ReceiptIds(world.receipts(at).value));
      }
    case _ =>
  }

  /** However much the owner lists, the index never holds more than its limits. */
  lemma {:induction false} TranscriptSmall(world: World, t: Transcript, scope: Scope)
    ensures Small(IndexBy(world, t, scope))
  {
    hide IndexStep;
    if t != [] {
      var n := |t| - 1;
      TranscriptSmall(world, t[..n], scope);
      StepSmall(IndexBy(world, t[..n], scope), t[n], world, n, scope);
    }
  }

  /** A listing is accepted exactly when it has at most 64 entries and each of them is accepted. */
  lemma ListingsExactly(items: seq<EligibleItem>, revisions: seq<Revision>, drafts: seq<Draft>, previews: seq<Preview>,
                        receipts: seq<Receipt>, scope: Scope)
    ensures AcceptsItems(items, scope) <==> |items| <= 64 && forall e :: e in items ==> AcceptsItem(e, scope)
    ensures AcceptsRevisions(revisions, scope) <==> |revisions| <= 64 && forall e :: e in revisions ==> AcceptsRevision(e, scope)
    ensures AcceptsDrafts(drafts, scope) <==> |drafts| <= 64 && forall e :: e in drafts ==> AcceptsDraft(e, scope)
    ensures AcceptsPreviews(previews, scope) <==> |previews| <= 64 && forall e :: e in previews ==> AcceptsPreview(e, scope)
    ensures AcceptsReceipts(receipts, scope) <==> |receipts| <= 64 && forall e :: e in receipts ==> AcceptsReceipt(e, scope)
  {
    hide AcceptsItem, AcceptsRevision, AcceptsDraft, AcceptsPreview, AcceptsReceipt;
  }

  /** And an accepted listing is always held whole, with its flag set. */
  lemma ListingsComplete(items: seq<EligibleItem>, revisions: seq<Revision>, drafts: seq<Draft>, ix: Index,
                         previews: seq<Preview>, receipts: seq<Receipt>, scope: Scope)
    requires AcceptsItems(items, scope) && AcceptsRevisions(revisions, scope) && AcceptsDrafts(drafts, scope)
    requires AcceptsPreviews(previews, scope) && AcceptsReceipts(receipts, scope)
    ensures AddItems(NoItems(true), ItemsOf(items)).complete
    ensures AddRevisions(NoEntities(true), revisions).complete
    ensures AddDrafts(ix.(drafts := NoEntities(true)), drafts).drafts.complete
    ensures AddPlainIds(NoPlainIds(true), PreviewIds(previews)).complete
    ensures AddPlainIds(NoPlainIds(true), ReceiptIds(receipts)).complete
  {
    hide AddItems, AddRevisions, AddDrafts, AddPlainIds, AcceptsItem, AcceptsRevision, AcceptsDraft, AcceptsPreview;
    hide AcceptsReceipt;
    AddItemsFit(NoItems(true), ItemsOf(items));
    AddRevisionsFit(NoEntities(true), revisions, 0);
    AddDraftsFit(ix.(drafts := NoEntities(true)), drafts, 0);
    AddPlainIdsFit(NoPlainIds(true), PreviewIds(previews));
    AddPlainIdsFit(NoPlainIds(true), ReceiptIds(receipts));
  }

  // ---- What cached drafts carry stays filed ----

  /** The listing of items that a reset asks for comes right after it. */
  predicate ResetsFirst(t: Transcript) {
    forall k :: 0 <= k < |t| && t[k].ItemsAsked? && t[k].use.AtReset? ==> k > 0 && t[k - 1].Reset?
  }

  ghost predicate CarriedIn(c: EntityCache<Draft>, filed: seq<ItemRef>) {
    forall id, item :: id in c.table.entries && Carries(c.table.entries[id], item) ==> item in filed
  }

  lemma {:induction false} ReferencesOfCarried(ids: seq<Id>, drafts: map<Id, Draft>, id: Id, item: ItemRef)
    requires id in ids && id in drafts && Carries(drafts[id], item)
    ensures item in ReferencesOf(ids, drafts)
  {
    var n := |ids| - 1;
    if ids[n] == id {
      Carried(drafts[id], item);
    } else {
      assert ids == ids[..n] + [ids[n]];
      ReferencesOfCarried(ids[..n], drafts, id, item);
    }
  }

  lemma AddDraftCarried(ix: Index, draft: Draft, filed: seq<ItemRef>)
    requires CarriedIn(ix.drafts, filed)
    ensures CarriedIn(AddDraft(ix, draft).drafts, filed + References(draft))
  {
    hide Carries, References;
    forall item | Carries(draft, item) ensures item in References(draft) {
      Carried(draft, item);
    }
  }

  lemma {:induction false} AddDraftsCarried(ix: Index, listing: seq<Draft>, filed: seq<ItemRef>)
    requires CarriedIn(ix.drafts, filed)
    ensures CarriedIn(AddDrafts(ix, listing).drafts, filed + AllReferences(listing))
  {
    hide CarriedIn, References, AddDraft;
    if listing == [] {
      assert filed + AllReferences(listing) == filed;
    } else {
      var n := |listing| - 1;
      AddDraftsCarried(ix, listing[..n], filed);
      AddDraftCarried(AddDrafts(ix, listing[..n]), listing[n], filed + AllReferences(listing[..n]));
      Assoc(filed, AllReferences(listing[..n]), References(listing[n]));
    }
  }

  lemma StepCarried(ix: Index, filed: seq<ItemRef>, e: Entry, world: World, at: nat, scope: Scope)
    requires CarriedIn(ix.drafts, filed) && Synced(ix.drafts.table.entries.Keys, ix.drafts.table.order)
    requires e.ItemsAsked? && e.use.AtReset? ==> ix == EMPTY
    ensures CarriedIn(IndexStep(ix, e, world, at, scope).drafts, FiledStep(filed, ix, e, world, at, scope))
  {
    hide Carries, AddItems, AddDrafts, AddRevisions, AddPlainIds, AddEntity, WithId, Evicts, AcceptsItems, References;
    hide AllReferences, ReferencesOf;
    match e
    case ItemsAsked(use, wanted) =>
      var order := Sorting.Sort(ix.drafts.table.order, AsKey);
      Sorting.SortSorts(ix.drafts.table.order, AsKey);
      forall id, item | id in ix.drafts.table.entries && Carries(ix.drafts.table.entries[id], item)
        ensures item in DraftReferences(ix.drafts)
      {
        ReferencesOfCarried(order, ix.drafts.table.entries, id, item);
      }
    case DraftsAsked(use) =>
      var reply := world.drafts(at);
      if reply.Ok? && AcceptsDrafts(reply.value, scope) {
        AddDraftsCarried(ix.(drafts := NoEntities(true)), reply.value, filed);
      }
    case DraftAsked(wanted) =>
      var reply := world.draft(at);
      if reply.Ok? && AcceptsDraft(reply.value, scope) {
        AddDraftCarried(ix, reply.value, filed);
      }
    case _ =>
  }

  /**
   Whatever was listed or looked up since, every item a cached draft carries is still filed, so while
   the items' flag is set none of their ids and versions is missing.
   */
  lemma {:induction false} CarriedStays(world: World, t: Transcript, scope: Scope)
    requires ResetsFirst(t)
    ensures CarriedIn(IndexBy(world, t, scope).drafts, FiledBy(world, t, scope))
    ensures var ix := IndexBy(world, t, scope);
            ix.items.complete
            ==> forall id, item :: id in ix.drafts.table.entries && Carries(ix.drafts.table.entries[id], item)
                                   ==> KeyOf(item) in ix.items.table.entries
  {
    hide IndexStep, FiledStep, IssuedBy, ListedBy, Carries, IdsSound;
    TranscriptSound(world, t, scope);
    if t != [] {
      var n := |t| - 1;
      var before := t[..n];
      assert forall k :: 0 <= k < n ==> before[k] == t[k];
      CarriedStays(world, before, scope);
      TranscriptSound(world, before, scope);
      if t[n].ItemsAsked? && t[n].use.AtReset? {
        AfterReset(world, before, scope);
      }
      StepCarried(IndexBy(world, before, scope), FiledBy(world, before, scope), t[n], world, n, scope);
    }
    KeysFiled(FiledBy(world, t, scope));
  }

  lemma AfterReset(world: World, t: Transcript, scope: Scope)
    requires t != [] && t[|t| - 1].Reset?
    ensures IndexBy(world, t, scope) == EMPTY
  {}

  lemma KeysFiled(filed: seq<ItemRef>)
    ensures forall item :: item in filed ==> KeyOf(item) in ItemKeys(filed)
  {}
}
