/**
 The facade's bounded index of owner-issued references, updated in place. Every method is proved
 against the index as a value.
 */
module ReferenceIndexes {
  import opened Bytes
  import opened Identifiers
  import opened BoundedCache
  import opened ReferenceModel
  import opened ReferenceState
  import opened Sorting

  class ReferenceIndex {
    var itemRefs: map<ItemKey, ItemRef>
    var itemOrder: seq<ItemKey>
    var itemsComplete: bool

    var revisionIds: set<Id>
    var revisionIdOrder: seq<Id>
    var revisions: map<Id, Revision>
    var revisionOrder: seq<Id>
    var revisionsComplete: bool

    var draftIds: set<Id>
    var draftIdOrder: seq<Id>
    var drafts: map<Id, Draft>
    var draftOrder: seq<Id>
    var draftsComplete: bool

    var previewIds: set<Id>
    var previewOrder: seq<Id>
    var previewsComplete: bool

    var receiptIds: set<Id>
    var receiptOrder: seq<Id>
    var receiptsComplete: bool

    constructor ()
      ensures Valid() && View() == EMPTY
    {
      itemRefs, itemOrder, itemsComplete := map[], [], false;
      revisionIds, revisionIdOrder, revisions, revisionOrder := {}, [], map[], [];
      revisionsComplete := false;
      draftIds, draftIdOrder, drafts, draftOrder := {}, [], map[], [];
      draftsComplete := false;
      previewIds, previewOrder, previewsComplete := {}, [], false;
      receiptIds, receiptOrder, receiptsComplete := {}, [], false;
    }

    ghost function Items(): ItemCache
      reads `itemRefs, `itemOrder, `itemsComplete
    {
      ItemCache(Table(itemRefs, itemOrder), itemsComplete)
    }

    ghost function Revisions(): EntityCache<Revision>
      reads `revisionIds, `revisionIdOrder, `revisions, `revisionOrder, `revisionsComplete
    {
      EntityCache(Ids(revisionIds, revisionIdOrder), Table(revisions, revisionOrder), revisionsComplete)
    }

    ghost function Drafts(): EntityCache<Draft>
      reads `draftIds, `draftIdOrder, `drafts, `draftOrder, `draftsComplete
    {
      EntityCache(Ids(draftIds, draftIdOrder), Table(drafts, draftOrder), draftsComplete)
    }

    ghost function Previews(): IdCache
      reads `previewIds, `previewOrder, `previewsComplete
    {
      IdCache(Ids(previewIds, previewOrder), previewsComplete)
    }

    ghost function Receipts(): IdCache
      reads `receiptIds, `receiptOrder, `receiptsComplete
    {
      IdCache(Ids(receiptIds, receiptOrder), receiptsComplete)
    }

    /** The index as a value. */
    ghost function View(): Index
      reads this
    {
      Index(Items(), Revisions(), Drafts(), Previews(), Receipts())
    }

    /** Every queue names the entries beside it. */
    ghost predicate Valid()
      reads this
    {
      && Synced(itemRefs.Keys, itemOrder)
      && Synced(revisionIds, revisionIdOrder) && Synced(revisions.Keys, revisionOrder)
      && Synced(draftIds, draftIdOrder) && Synced(drafts.Keys, draftOrder)
      && Synced(previewIds, previewOrder) && Synced(receiptIds, receiptOrder)
    }

    predicate Known(kind: ReferenceKind, id: Id)
      reads this
    {
      match kind
      case RevisionKind => id in revisionIds
      case DraftKind => id in draftIds
      case PreviewKind => id in previewIds
      case ReceiptKind => id in receiptIds
    }

    predicate Complete(kind: ReferenceKind)
      reads this
    {
      match kind
      case RevisionKind => revisionsComplete
      case DraftKind => draftsComplete
      case PreviewKind => previewsComplete
      case ReceiptKind => receiptsComplete
    }

    /** The exact reference is the one filed under its id and version. */
    predicate Holds(item: ItemRef)
      reads `itemRefs
    {
      KeyOf(item) in itemRefs && itemRefs[KeyOf(item)] == item
    }

    // ---- Clearing ----

    method ClearItems()
      requires Valid()
      modifies `itemRefs, `itemOrder, `itemsComplete
      ensures Valid() && View() == old(View()).(items := NoItems(false))
    {
      hide Synced;
      NothingSynced<ItemKey>();
      itemRefs, itemOrder, itemsComplete := map[], [], false;
      assert itemRefs.Keys == {};
    }

    method ClearRevisions()
      requires Valid()
      modifies `revisionIds, `revisionIdOrder, `revisions, `revisionOrder, `revisionsComplete
      ensures Valid() && View() == old(View()).(revisions := NoEntities(false))
    {
      hide Synced;
      NothingSynced<Id>();
      revisionIds, revisionIdOrder, revisions, revisionOrder := {}, [], map[], [];
      revisionsComplete := false;
      assert revisions.Keys == {};
    }

    method ClearDrafts()
      requires Valid()
      modifies `draftIds, `draftIdOrder, `drafts, `draftOrder, `draftsComplete
      ensures Valid() && View() == old(View()).(drafts := NoEntities(false))
    {
      hide Synced;
      NothingSynced<Id>();
      draftIds, draftIdOrder, drafts, draftOrder := {}, [], map[], [];
      draftsComplete := false;
      assert drafts.Keys == {};
    }

    method ClearPreviews()
      requires Valid()
      modifies `previewIds, `previewOrder, `previewsComplete
      ensures Valid() && View() == old(View()).(previews := NoPlainIds(false))
    {
      hide Synced;
      NothingSynced<Id>();
      previewIds, previewOrder, previewsComplete := {}, [], false;
    }

    method ClearReceipts()
      requires Valid()
      modifies `receiptIds, `receiptOrder, `receiptsComplete
      ensures Valid() && View() == old(View()).(receipts := NoPlainIds(false))
    {
      hide Synced;
      NothingSynced<Id>();
      receiptIds, receiptOrder, receiptsComplete := {}, [], false;
    }

    method Reset()
      requires Valid()
      modifies this
      ensures Valid() && View() == EMPTY
    {
      hide Valid;
      ClearItems();
      ClearRevisions();
      ClearDrafts();
      ClearPreviews();
      ClearReceipts();
    }

    // ---- Caching one entry, without its flag ----

    method InsertItem(item: ItemRef) returns (evicted: bool)
      requires Valid()
      modifies `itemRefs, `itemOrder
      ensures Valid() && Items().table == WithEntry(old(Items()).table, KeyOf(item), item, MAX_ITEM_ENTRIES)
      ensures evicted <==> Evicts(old(itemOrder), KeyOf(item), MAX_ITEM_ENTRIES)
    {
      itemRefs, itemOrder, evicted := BoundedMapInsert(itemRefs, itemOrder, KeyOf(item), item, MAX_ITEM_ENTRIES);
    }

    method InsertRevision(revision: Revision) returns (evicted: bool)
      requires Valid()
      modifies `revisionIds, `revisionIdOrder, `revisions, `revisionOrder
      ensures Valid()
      ensures Revisions() == AddEntity(old(Revisions()), revision.revisionId, revision).(complete := revisionsComplete)
      ensures evicted <==> Evicts(old(revisionIdOrder), revision.revisionId, MAX_ENTRIES)
                           || Evicts(old(revisionOrder), revision.revisionId, MAX_ENTRIES)
    {
      hide Synced, Touch, Evicts, Named;
      var id := revision.revisionId;
      ghost var before := Ids(revisionIds, revisionIdOrder);
      var evictedId, evictedEntry;
      revisionIds, revisionIdOrder, evictedId := BoundedSetInsert(revisionIds, revisionIdOrder, id, MAX_ENTRIES);
      IdAdded(before, id, revisionIds);
      revisions, revisionOrder, evictedEntry := BoundedMapInsert(revisions, revisionOrder, id, revision, MAX_ENTRIES);
      evicted := evictedId || evictedEntry;
    }

    method InsertDraft(draft: Draft) returns (evicted: bool)
      requires Valid()
      modifies `draftIds, `draftIdOrder, `drafts, `draftOrder
      ensures Valid()
      ensures Drafts() == AddEntity(old(Drafts()), draft.draftId, draft).(complete := draftsComplete)
      ensures evicted <==> Evicts(old(draftIdOrder), draft.draftId, MAX_ENTRIES)
                           || Evicts(old(draftOrder), draft.draftId, MAX_ENTRIES)
    {
      hide Synced, Touch, Evicts, Named;
      var id := draft.draftId;
      ghost var before := Ids(draftIds, draftIdOrder);
      var evictedId, evictedEntry;
      draftIds, draftIdOrder, evictedId := BoundedSetInsert(draftIds, draftIdOrder, id, MAX_ENTRIES);
      IdAdded(before, id, draftIds);
      drafts, draftOrder, evictedEntry := BoundedMapInsert(drafts, draftOrder, id, draft, MAX_ENTRIES);
      evicted := evictedId || evictedEntry;
    }

    method InsertPreview(id: Id) returns (evicted: bool)
      requires Valid()
      modifies `previewIds, `previewOrder
      ensures Valid() && Previews().ids == WithId(old(Previews()).ids, id)
      ensures evicted <==> Evicts(old(previewOrder), id, MAX_ENTRIES)
    {
      hide Synced, Touch, Evicts;
      ghost var before := Ids(previewIds, previewOrder);
      previewIds, previewOrder, evicted := BoundedSetInsert(previewIds, previewOrder, id, MAX_ENTRIES);
      IdAdded(before, id, previewIds);
    }

    method InsertReceipt(id: Id) returns (evicted: bool)
      requires Valid()
      modifies `receiptIds, `receiptOrder
      ensures Valid() && Receipts().ids == WithId(old(Receipts()).ids, id)
      ensures evicted <==> Evicts(old(receiptOrder), id, MAX_ENTRIES)
    {
      hide Synced, Touch, Evicts;
      ghost var before := Ids(receiptIds, receiptOrder);
      receiptIds, receiptOrder, evicted := BoundedSetInsert(receiptIds, receiptOrder, id, MAX_ENTRIES);
      IdAdded(before, id, receiptIds);
    }

    // ---- Caching one entry, and giving up the flag when something was evicted ----

    method CacheItem(item: ItemRef)
      requires Valid()
      modifies `itemRefs, `itemOrder, `itemsComplete
      ensures Valid() && View() == old(View()).(items := AddItem(old(Items()), item))
    {
      hide Synced, Evicts, WithEntry;
      var evicted := InsertItem(item);
      if evicted {
        itemsComplete := false;
      }
    }

    method CacheRevisionId(id: Id)
      requires Valid()
      modifies `revisionIds, `revisionIdOrder, `revisionsComplete
      ensures Valid() && View() == old(View()).(revisions := AddEntityId(old(Revisions()), id))
    {
      hide Synced, Touch, Evicts;
      ghost var before := Ids(revisionIds, revisionIdOrder);
      var evicted;
      revisionIds, revisionIdOrder, evicted := BoundedSetInsert(revisionIds, revisionIdOrder, id, MAX_ENTRIES);
      IdAdded(before, id, revisionIds);
      if evicted {
        revisionsComplete := false;
      }
    }

    method CacheRevision(revision: Revision)
      requires Valid()
      modifies `revisionIds, `revisionIdOrder, `revisions, `revisionOrder, `revisionsComplete
      ensures Valid()
      ensures View() == old(View()).(revisions := AddEntity(old(Revisions()), revision.revisionId, revision))
    {
      hide Synced, Evicts, WithEntry, WithId;
      var evicted := InsertRevision(revision);
      if evicted {
        revisionsComplete := false;
      }
    }

    method CacheDraft(draft: Draft)
      requires Valid()
      modifies `draftIds, `draftIdOrder, `drafts, `draftOrder, `draftsComplete
      ensures Valid() && View() == old(View()).(drafts := AddEntity(old(Drafts()), draft.draftId, draft))
    {
      hide Synced, Evicts, WithEntry, WithId;
      var evicted := InsertDraft(draft);
      if evicted {
        draftsComplete := false;
      }
    }

    method CachePreview(preview: Preview)
      requires Valid()
      modifies `previewIds, `previewOrder, `previewsComplete
      ensures Valid() && View() == old(View()).(previews := AddPlainId(old(Previews()), preview.previewId))
    {
      hide Synced, Evicts, WithId;
      var evicted := InsertPreview(preview.previewId);
      if evicted {
        previewsComplete := false;
      }
    }

    method CacheReceipt(receipt: Receipt)
      requires Valid()
      modifies `receiptIds, `receiptOrder, `receiptsComplete
      ensures Valid() && View() == old(View()).(receipts := AddPlainId(old(Receipts()), receipt.commandId))
    {
      hide Synced, Evicts, WithId;
      var evicted := InsertReceipt(receipt.commandId);
      if evicted {
        receiptsComplete := false;
      }
    }

    /** `cache_draft_references`: every item reference a returned draft carries. */
    method CacheDraftReferences(draft: Draft)
      requires Valid()
      modifies `itemRefs, `itemOrder, `itemsComplete
      ensures Valid() && View() == old(View()).(items := AddItems(old(Items()), References(draft)))
    {
      hide Valid, References, AddItem;
      var items := References(draft);
      for k := 0 to |items|
        invariant Valid() && View() == old(View()).(items := AddItems(old(Items()), items[..k]))
      {
        NextItem(old(Items()), items, k);
        CacheItem(items[k]);
      }
      assert items[..|items|] == items;
    }

    // ---- Replacing a kind by an accepted listing ----

    /** The listed items, then the references of the cached drafts. */
    method StoreItems(listing: seq<ItemRef>, more: seq<ItemRef>)
      requires Valid()
      modifies `itemRefs, `itemOrder, `itemsComplete
      ensures Valid() && View() == old(View()).(items := AddItems(NoItems(true), listing + more))
    {
      hide Synced, AddItem, WithEntry, Evicts;
      var items := listing + more;
      itemRefs, itemOrder := map[], [];
      NothingSynced<ItemKey>();
      assert itemRefs.Keys == {};
      var evicted := false;
      for k := 0 to |items|
        invariant Valid() && itemsComplete == old(itemsComplete)
        invariant ItemCache(Items().table, !evicted) == AddItems(NoItems(true), items[..k])
      {
        NextItem(NoItems(true), items, k);
        ItemAdded(AddItems(NoItems(true), items[..k]), items[k]);
        var dropped := InsertItem(items[k]);
        evicted := evicted || dropped;
      }
      itemsComplete := !evicted;
      assert items[..|items|] == items;
    }

    method StoreRevisions(listing: seq<Revision>)
      requires Valid()
      modifies `revisionIds, `revisionIdOrder, `revisions, `revisionOrder, `revisionsComplete
      ensures Valid() && View() == old(View()).(revisions := AddRevisions(NoEntities(true), listing))
    {
      hide Synced, Evicts, AddEntity;
      ClearRevisions();
      var evicted := false;
      for k := 0 to |listing|
        invariant Valid()
        invariant Revisions().(complete := !evicted) == AddRevisions(NoEntities(true), listing[..k])
      {
        NextRevision(listing, k);
        EntityAdded(Revisions(), !evicted, listing[k].revisionId, listing[k]);
        var dropped := InsertRevision(listing[k]);
        evicted := evicted || dropped;
      }
      revisionsComplete := !evicted;
      assert listing[..|listing|] == listing;
    }

    method StoreDrafts(listing: seq<Draft>)
      requires Valid()
      modifies `draftIds, `draftIdOrder, `drafts, `draftOrder, `draftsComplete
      modifies `itemRefs, `itemOrder, `itemsComplete
      ensures Valid() && View() == AddDrafts(old(View()).(drafts := NoEntities(true)), listing)
    {
      hide Synced, Evicts, AddEntity, AddItems, AddDrafts, References;
      ClearDrafts();
      assert listing[..0] == [];
      NoDrafts(View().(drafts := NoEntities(true)));
      ghost var start := old(View()).(drafts := NoEntities(true));
      var evicted := false;
      for k := 0 to |listing|
        invariant Valid()
        invariant View().(drafts := Drafts().(complete := !evicted)) == AddDrafts(start, listing[..k])
      {
        NextDraft(start, listing, k);
        EntityAdded(Drafts(), !evicted, listing[k].draftId, listing[k]);
        CacheDraftReferences(listing[k]);
        var dropped := InsertDraft(listing[k]);
        evicted := evicted || dropped;
      }
      draftsComplete := !evicted;
      assert listing[..|listing|] == listing;
    }

    method StorePreviews(listing: seq<Preview>)
      requires Valid()
      modifies `previewIds, `previewOrder, `previewsComplete
      ensures Valid() && View() == old(View()).(previews := AddPlainIds(NoPlainIds(true), PreviewIds(listing)))
    {
      hide Synced, WithId, Evicts;
      ClearPreviews();
      var evicted := false;
      for k := 0 to |listing|
        invariant Valid()
        invariant Previews().(complete := !evicted) == AddPlainIds(NoPlainIds(true), PreviewIds(listing)[..k])
      {
        NextId(PreviewIds(listing), k);
        var dropped := InsertPreview(listing[k].previewId);
        evicted := evicted || dropped;
      }
      previewsComplete := !evicted;
      assert PreviewIds(listing)[..|listing|] == PreviewIds(listing);
    }

    method StoreReceipts(listing: seq<Receipt>)
      requires Valid()
      modifies `receiptIds, `receiptOrder, `receiptsComplete
      ensures Valid() && View() == old(View()).(receipts := AddPlainIds(NoPlainIds(true), ReceiptIds(listing)))
    {
      hide Synced, WithId, Evicts;
      ClearReceipts();
      var evicted := false;
      for k := 0 to |listing|
        invariant Valid()
        invariant Receipts().(complete := !evicted) == AddPlainIds(NoPlainIds(true), ReceiptIds(listing)[..k])
      {
        NextId(ReceiptIds(listing), k);
        var dropped := InsertReceipt(listing[k].commandId);
        evicted := evicted || dropped;
      }
      receiptsComplete := !evicted;
      assert ReceiptIds(listing)[..|listing|] == ReceiptIds(listing);
    }

    /** `cached_draft_references`: the references of every cached draft, in the order of their ids. */
    method CachedDraftReferences() returns (items: seq<ItemRef>)
      requires Valid()
      ensures items == DraftReferences(Drafts())
    {
      hide References;
      var ids := Sort(draftOrder, AsKey);
      SortSorts(draftOrder, AsKey);
      items := [];
      for k := 0 to |ids|
        invariant items == ReferencesOf(ids[..k], drafts)
      {
        assert ids[k] in draftOrder;
        assert ids[..k + 1][..k] == ids[..k];
        items := items + References(drafts[ids[k]]);
      }
      assert ids[..|ids|] == ids;
    }
  }

  // ---- One entry more ----

  lemma NothingSynced<K(!new)>()
    ensures Synced<K>({}, [])
  {}

  lemma IdAdded(c: Ids, id: Id, keys: set<Id>)
    requires Synced(keys, Touch(c.order, id, MAX_ENTRIES))
    ensures WithId(c, id) == Ids(keys, Touch(c.order, id, MAX_ENTRIES))
  {}

  lemma NextItem(c: ItemCache, items: seq<ItemRef>, k: nat)
    requires k < |items|
    ensures AddItems(c, items[..k + 1]) == AddItem(AddItems(c, items[..k]), items[k])
  {
    assert items[..k + 1][..k] == items[..k];
  }

  lemma ItemAdded(c: ItemCache, item: ItemRef)
    ensures AddItem(c, item).table == WithEntry(c.table, KeyOf(item), item, MAX_ITEM_ENTRIES)
    ensures AddItem(c, item).complete == (c.complete && !Evicts(c.table.order, KeyOf(item), MAX_ITEM_ENTRIES))
  {}

  lemma NextRevision(listing: seq<Revision>, k: nat)
    requires k < |listing|
    ensures AddRevisions(NoEntities(true), listing[..k + 1])
            == AddEntity(AddRevisions(NoEntities(true), listing[..k]), listing[k].revisionId, listing[k])
  {
    assert listing[..k + 1][..k] == listing[..k];
  }

  lemma EntityAdded<V>(c: EntityCache<V>, complete: bool, id: Id, value: V)
    ensures AddEntity(c.(complete := complete), id, value)
            == AddEntity(c, id, value).(complete := complete && !Evicts(c.ids.order, id, MAX_ENTRIES)
                                                    && !Evicts(c.table.order, id, MAX_ENTRIES))
  {}

  lemma NoDrafts(ix: Index)
    ensures AddDrafts(ix, []) == ix
  {}

  lemma NextDraft(ix: Index, listing: seq<Draft>, k: nat)
    requires k < |listing|
    ensures AddDrafts(ix, listing[..k + 1]) == AddDraft(AddDrafts(ix, listing[..k]), listing[k])
  {
    assert listing[..k + 1][..k] == listing[..k];
  }

  lemma NextId(ids: seq<Id>, k: nat)
    requires k < |ids|
    ensures AddPlainIds(NoPlainIds(true), ids[..k + 1]) == AddPlainId(AddPlainIds(NoPlainIds(true), ids[..k]), ids[k])
  {
    assert ids[..k + 1][..k] == ids[..k];
  }
}
