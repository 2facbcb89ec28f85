/**
 The facade's bounded index as a value, one cache a kind: what each insertion makes of it, that it
 never holds a reference nobody issued, and that a set completeness flag means nothing was lost.
 */
module ReferenceState {
  import opened Bytes
  import opened BoundedCache
  import opened Identifiers
  import opened ReferenceModel
  import opened Sorting

  const MAX_ENTRIES: nat := 64
  const MAX_ITEM_ENTRIES: nat := MAX_LISTING + MAX_NOTES

  datatype Ids = Ids(keys: set<Id>, order: seq<Id>)

  datatype Table<K, V> = Table(entries: map<K, V>, order: seq<K>)

  /** Exact item references, filed under their id and version. */
  datatype ItemCache = ItemCache(table: Table<ItemKey, ItemRef>, complete: bool)

  /** Known ids, and beside them the entities last returned under some of them. */
  datatype EntityCache<V> = EntityCache(ids: Ids, table: Table<Id, V>, complete: bool)

  datatype IdCache = IdCache(ids: Ids, complete: bool)

  datatype Index = Index(items: ItemCache, revisions: EntityCache<Revision>, drafts: EntityCache<Draft>,
                         previews: IdCache, receipts: IdCache)

  function NoItems(complete: bool): ItemCache {
    ItemCache(Table(map[], []), complete)
  }

  function NoEntities<V>(complete: bool): EntityCache<V> {
    EntityCache(Ids({}, []), Table(map[], []), complete)
  }

  function NoPlainIds(complete: bool): IdCache {
    IdCache(Ids({}, []), complete)
  }

  const EMPTY := Index(NoItems(false), NoEntities(false), NoEntities(false), NoPlainIds(false), NoPlainIds(false))

  // ---- Insertions ----

  function WithId(c: Ids, id: Id): Ids {
    var order := Touch(c.order, id, MAX_ENTRIES);
    Ids(SetOf(order), order)
  }

  function WithEntry<K(==, !new), V>(t: Table<K, V>, key: K, value: V, capacity: nat): Table<K, V> {
    var order := Touch(t.order, key, capacity);
    Table(Named(t.entries[key := value], order), order)
  }

  function AddItem(c: ItemCache, item: ItemRef): ItemCache {
    ItemCache(WithEntry(c.table, KeyOf(item), item, MAX_ITEM_ENTRIES),
              c.complete && !Evicts(c.table.order, KeyOf(item), MAX_ITEM_ENTRIES))
  }

  function AddItems(c: ItemCache, items: seq<ItemRef>): ItemCache {
    if items == [] then c else AddItem(AddItems(c, items[..|items| - 1]), items[|items| - 1])
  }

  /** An id known without its entity. */
  function AddEntityId<V>(c: EntityCache<V>, id: Id): EntityCache<V> {
    c.(ids := WithId(c.ids, id), complete := c.complete && !Evicts(c.ids.order, id, MAX_ENTRIES))
  }

  function AddEntity<V>(c: EntityCache<V>, id: Id, value: V): EntityCache<V> {
    EntityCache(WithId(c.ids, id), WithEntry(c.table, id, value, MAX_ENTRIES),
                c.complete && !Evicts(c.ids.order, id, MAX_ENTRIES) && !Evicts(c.table.order, id, MAX_ENTRIES))
  }

  function AddRevisions(c: EntityCache<Revision>, listing: seq<Revision>): EntityCache<Revision> {
    if listing == [] then c
    else
      var last := listing[|listing| - 1];
      AddEntity(AddRevisions(c, listing[..|listing| - 1]), last.revisionId, last)
  }

  function AddPlainId(c: IdCache, id: Id): IdCache {
    IdCache(WithId(c.ids, id), c.complete && !Evicts(c.ids.order, id, MAX_ENTRIES))
  }

  function AddPlainIds(c: IdCache, ids: seq<Id>): IdCache {
    if ids == [] then c else AddPlainId(AddPlainIds(c, ids[..|ids| - 1]), ids[|ids| - 1])
  }

  /** A returned draft, cached after every item reference it carries. */
  function AddDraft(ix: Index, draft: Draft): Index {
    ix.(items := AddItems(ix.items, References(draft)), drafts := AddEntity(ix.drafts, draft.draftId, draft))
  }

  function AddDrafts(ix: Index, listing: seq<Draft>): Index {
    if listing == [] then ix else AddDraft(AddDrafts(ix, listing[..|listing| - 1]), listing[|listing| - 1])
  }

  function AsKey(id: Id): bytes {
    id
  }

  /** The references of the cached drafts, draft by draft in the order of their ids. */
  function DraftReferences(c: EntityCache<Draft>): seq<ItemRef> {
    ReferencesOf(Sort(c.table.order, AsKey), c.table.entries)
  }

  function ReferencesOf(ids: seq<Id>, drafts: map<Id, Draft>): seq<ItemRef> {
    if ids == [] then []
    else
      var last := ids[|ids| - 1];
      ReferencesOf(ids[..|ids| - 1], drafts) + if last in drafts then References(drafts[last]) else []
  }

  function ItemsOf(listing: seq<EligibleItem>): (items: seq<ItemRef>)
    ensures |items| == |listing| && forall k :: 0 <= k < |items| ==> items[k] == listing[k].item
  {
    seq(|listing|, k requires 0 <= k < |listing| => listing[k].item)
  }

  function PreviewIds(listing: seq<Preview>): (ids: seq<Id>)
    ensures |ids| == |listing| && forall k :: 0 <= k < |ids| ==> ids[k] == listing[k].previewId
  {
    seq(|listing|, k requires 0 <= k < |listing| => listing[k].previewId)
  }

  function ReceiptIds(listing: seq<Receipt>): (ids: seq<Id>)
    ensures |ids| == |listing| && forall k :: 0 <= k < |ids| ==> ids[k] == listing[k].commandId
  {
    seq(|listing|, k requires 0 <= k < |listing| => listing[k].commandId)
  }

  function RevisionIds(listing: seq<Revision>): (ids: seq<Id>)
    ensures |ids| == |listing| && forall k :: 0 <= k < |ids| ==> ids[k] == listing[k].revisionId
  {
    seq(|listing|, k requires 0 <= k < |listing| => listing[k].revisionId)
  }

  function DraftIds(listing: seq<Draft>): (ids: seq<Id>)
    ensures |ids| == |listing| && forall k :: 0 <= k < |ids| ==> ids[k] == listing[k].draftId
  {
    seq(|listing|, k requires 0 <= k < |listing| => listing[k].draftId)
  }

  function ItemKeys(items: seq<ItemRef>): set<ItemKey> {
    set item | item in items :: KeyOf(item)
  }

  // ---- Soundness, cache by cache ----

  /** Only issued ids; and while the flag is set, all of `listed`. */
  ghost predicate IdsSound(c: Ids, complete: bool, issued: set<Id>, listed: set<Id>) {
    Synced(c.keys, c.order) && c.keys <= issued && (complete ==> listed <= c.keys)
  }

  ghost predicate EntriesSound<V>(t: Table<Id, V>, issued: set<Id>, idOf: V -> Id) {
    && Synced(t.entries.Keys, t.order) && t.entries.Keys <= issued
    && forall id :: id in t.entries ==> idOf(t.entries[id]) == id
  }

  function RevisionId(r: Revision): Id {
    r.revisionId
  }

  function DraftId(d: Draft): Id {
    d.draftId
  }

  ghost predicate DraftIssued(draft: Draft, items: set<ItemRef>) {
    forall item :: item in References(draft) ==> item in items
  }

  ghost predicate DraftsIssued(drafts: map<Id, Draft>, items: set<ItemRef>) {
    forall id :: id in drafts ==> DraftIssued(drafts[id], items)
  }

  /** Only issued references, each under its own id and version. */
  ghost predicate ItemsHeld(t: Table<ItemKey, ItemRef>, issued: set<ItemRef>) {
    && Synced(t.entries.Keys, t.order)
    && forall key :: key in t.entries ==> t.entries[key] in issued && KeyOf(t.entries[key]) == key
  }

  /** The last of `items` under this id and version. */
  function Latest(items: seq<ItemRef>, key: ItemKey): Option<ItemRef> {
    if items == [] then None
    else
      var last := items[|items| - 1];
      if KeyOf(last) == key then Some(last) else Latest(items[..|items| - 1], key)
  }

  /** Every held key names the latest reference filed under it; a complete cache holds every key filed. */
  ghost predicate Files(c: ItemCache, filed: seq<ItemRef>) {
    && (forall key :: key in c.table.entries ==> Latest(filed, key) == Some(c.table.entries[key]))
    && (c.complete ==> ItemKeys(filed) <= c.table.entries.Keys)
  }

  ghost predicate ItemsSound(c: ItemCache, issued: set<ItemRef>, filed: seq<ItemRef>) {
    ItemsHeld(c.table, issued) && Files(c, filed)
  }

  // ---- Insertions keep it ----

  lemma TouchKeeps<K(!new)>(keys: set<K>, order: seq<K>, key: K, capacity: nat)
    requires Synced(keys, order) && capacity > 0
    ensures var touched := Touch(order, key, capacity);
            && Synced(SetOf(touched), touched) && SetOf(touched) <= keys + {key} && key in touched
            && (!Evicts(order, key, capacity) ==> SetOf(touched) == keys + {key})
  {
    hide Without;
    Pushed(keys, order, key);
    LastNDistinct(Without(order, key) + [key], capacity);
  }

  lemma LastNDistinct<K(!new)>(s: seq<K>, n: nat)
    requires Distinct(s) && s != [] && n > 0
    ensures var r := LastN(s, n);
            && Distinct(r) && SetOf(r) <= SetOf(s) && s[|s| - 1] in r && (|s| <= n ==> r == s)
  {
    var r := LastN(s, n);
    assert r[|r| - 1] == s[|s| - 1];
  }

  lemma WithIdSound(c: Ids, complete: bool, id: Id, issued: set<Id>, listed: set<Id>)
    requires IdsSound(c, complete, issued, listed) && id in issued
    ensures id in WithId(c, id).keys
    ensures IdsSound(WithId(c, id), complete && !Evicts(c.order, id, MAX_ENTRIES), issued, listed + {id})
  {
    TouchKeeps(c.keys, c.order, id, MAX_ENTRIES);
  }

  lemma WithEntryHeld<K(!new), V>(t: Table<K, V>, key: K, value: V, capacity: nat)
    requires Synced(t.entries.Keys, t.order) && capacity > 0
    ensures var u := WithEntry(t, key, value, capacity);
            && Synced(u.entries.Keys, u.order) && key in u.entries && u.entries[key] == value
            && (forall k :: k in u.entries && k != key ==> k in t.entries && u.entries[k] == t.entries[k])
            && (!Evicts(t.order, key, capacity) ==> u.entries.Keys == t.entries.Keys + {key})
  {
    TouchKeeps(t.entries.Keys, t.order, key, capacity);
    var u := WithEntry(t, key, value, capacity);
    assert u.entries.Keys == SetOf(u.order);
  }

  lemma AddItemSound(c: ItemCache, item: ItemRef, issued: set<ItemRef>, filed: seq<ItemRef>)
    requires ItemsSound(c, issued, filed) && item in issued
    ensures ItemsSound(AddItem(c, item), issued, filed + [item])
    ensures KeyOf(item) in AddItem(c, item).table.entries && AddItem(c, item).table.entries[KeyOf(item)] == item
  {
    hide Synced, WithEntry, Evicts;
    WithEntryHeld(c.table, KeyOf(item), item, MAX_ITEM_ENTRIES);
    assert (filed + [item])[..|filed|] == filed;
  }

  lemma {:induction false} AddItemsSound(c: ItemCache, items: seq<ItemRef>, issued: set<ItemRef>, filed: seq<ItemRef>)
    requires ItemsSound(c, issued, filed) && forall item :: item in items ==> item in issued
    ensures ItemsSound(AddItems(c, items), issued, filed + items)
  {
    hide ItemsSound, AddItem;
    if items == [] {
      assert filed + items == filed;
    } else {
      var init := items[..|items| - 1];
      AddItemsSound(c, init, issued, filed);
      AddItemSound(AddItems(c, init), items[|items| - 1], issued, filed + init);
      assert filed + items == filed + init + [items[|items| - 1]];
    }
  }

  lemma AddEntitySound<V>(c: EntityCache<V>, id: Id, value: V, issued: set<Id>, listed: set<Id>, idOf: V -> Id)
    requires IdsSound(c.ids, c.complete, issued, listed) && EntriesSound(c.table, issued, idOf)
    requires id in issued && idOf(value) == id
    ensures var d := AddEntity(c, id, value);
            && IdsSound(d.ids, d.complete, issued, listed + {id}) && EntriesSound(d.table, issued, idOf)
            && id in d.ids.keys && id in d.table.entries && d.table.entries[id] == value
            && forall k :: k in d.table.entries && k != id ==> k in c.table.entries && d.table.entries[k] == c.table.entries[k]
  {
    hide Synced, WithEntry, WithId, Evicts;
    WithIdSound(c.ids, c.complete, id, issued, listed);
    WithEntryHeld(c.table, id, value, MAX_ENTRIES);
  }

  /** What was just inserted is there. */
  lemma EntityHeld<V>(c: EntityCache<V>, id: Id, value: V)
    requires Synced(c.ids.keys, c.ids.order) && Synced(c.table.entries.Keys, c.table.order)
    ensures var d := AddEntity(c, id, value); id in d.ids.keys && id in d.table.entries && d.table.entries[id] == value
  {
    hide Synced, WithEntry, Evicts;
    TouchKeeps(c.ids.keys, c.ids.order, id, MAX_ENTRIES);
    WithEntryHeld(c.table, id, value, MAX_ENTRIES);
  }

  lemma IdHeld(c: Ids, id: Id)
    requires Synced(c.keys, c.order)
    ensures id in WithId(c, id).keys
  {
    TouchKeeps(c.keys, c.order, id, MAX_ENTRIES);
  }

  lemma ItemAdds(c: ItemCache, item: ItemRef)
    requires Synced(c.table.entries.Keys, c.table.order)
    ensures var d := AddItem(c, item); KeyOf(item) in d.table.entries && d.table.entries[KeyOf(item)] == item
  {
    WithEntryHeld(c.table, KeyOf(item), item, MAX_ITEM_ENTRIES);
  }

  lemma {:induction false} AddRevisionsSound(c: EntityCache<Revision>, listing: seq<Revision>, issued: set<Id>,
                                             listed: set<Id>)
    requires IdsSound(c.ids, c.complete, issued, listed) && EntriesSound(c.table, issued, RevisionId)
    requires SetOf(RevisionIds(listing)) <= issued
    ensures var d := AddRevisions(c, listing);
            && IdsSound(d.ids, d.complete, issued, listed + SetOf(RevisionIds(listing)))
            && EntriesSound(d.table, issued, RevisionId)
  {
    hide IdsSound, EntriesSound, AddEntity;
    var ids := RevisionIds(listing);
    if listing == [] {
      assert listed + SetOf(ids) == listed;
    } else {
      var n := |listing| - 1;
      var init, last := listing[..n], listing[n];
      assert ids == RevisionIds(init) + [last.revisionId];
      assert listed + SetOf(ids) == listed + SetOf(RevisionIds(init)) + {last.revisionId};
      AddRevisionsSound(c, init, issued, listed);
      AddEntitySound(AddRevisions(c, init), last.revisionId, last, issued, listed + SetOf(RevisionIds(init)), RevisionId);
    }
  }

  lemma {:induction false} AddPlainIdsSound(c: IdCache, ids: seq<Id>, issued: set<Id>, listed: set<Id>)
    requires IdsSound(c.ids, c.complete, issued, listed) && SetOf(ids) <= issued
    ensures var d := AddPlainIds(c, ids);
            IdsSound(d.ids, d.complete, issued, listed + SetOf(ids))
  {
    hide IdsSound, WithId;
    if ids == [] {
      assert listed + SetOf(ids) == listed;
    } else {
      var n := |ids| - 1;
      var init, last := ids[..n], ids[n];
      assert ids == init + [last];
      assert listed + SetOf(ids) == listed + SetOf(init) + {last};
      AddPlainIdsSound(c, init, issued, listed);
      var d := AddPlainIds(c, init);
      WithIdSound(d.ids, d.complete, last, issued, listed + SetOf(init));
    }
  }

  /** Everything the facade keeps about drafts and the items they carry. */
  ghost predicate DraftsSound(ix: Index, issued: Issued, listed: set<Id>, filed: seq<ItemRef>) {
    && ItemsSound(ix.items, issued.items, filed)
    && IdsSound(ix.drafts.ids, ix.drafts.complete, issued.drafts, listed)
    && EntriesSound(ix.drafts.table, issued.drafts, DraftId) && DraftsIssued(ix.drafts.table.entries, issued.items)
  }

  lemma AddDraftSound(ix: Index, draft: Draft, issued: Issued, listed: set<Id>, filed: seq<ItemRef>)
    requires DraftsSound(ix, issued, listed, filed)
    requires draft.draftId in issued.drafts && DraftIssued(draft, issued.items)
    ensures DraftsSound(AddDraft(ix, draft), issued, listed + {draft.draftId}, filed + References(draft))
  {
    hide IdsSound, EntriesSound, ItemsSound, AddEntity, AddItems, References;
    AddItemsSound(ix.items, References(draft), issued.items, filed);
    AddEntitySound(ix.drafts, draft.draftId, draft, issued.drafts, listed, DraftId);
  }

  function AllReferences(listing: seq<Draft>): seq<ItemRef> {
    if listing == [] then [] else AllReferences(listing[..|listing| - 1]) + References(listing[|listing| - 1])
  }

  lemma {:induction false} AddDraftsSound(ix: Index, listing: seq<Draft>, issued: Issued, listed: set<Id>, filed: seq<ItemRef>)
    requires DraftsSound(ix, issued, listed, filed)
    requires SetOf(DraftIds(listing)) <= issued.drafts
    requires forall draft :: draft in listing ==> DraftIssued(draft, issued.items)
    ensures DraftsSound(AddDrafts(ix, listing), issued, listed + SetOf(DraftIds(listing)), filed + AllReferences(listing))
    ensures AddDrafts(ix, listing) == ix.(items := AddDrafts(ix, listing).items, drafts := AddDrafts(ix, listing).drafts)
  {
    hide DraftsSound, DraftIssued, References, AddEntity, AddItems;
    var ids := DraftIds(listing);
    if listing == [] {
      assert listed + SetOf(ids) == listed;
      assert filed + AllReferences(listing) == filed;
    } else {
      var n := |listing| - 1;
      var init, last := listing[..n], listing[n];
      assert ids == DraftIds(init) + [last.draftId];
      assert listed + SetOf(ids) == listed + SetOf(DraftIds(init)) + {last.draftId};
      AddDraftsSound(ix, init, issued, listed, filed);
      AddDraftSound(AddDrafts(ix, init), last, issued, listed + SetOf(DraftIds(init)), filed + AllReferences(init));
      Assoc(filed, AllReferences(init), References(last));
    }
  }

  lemma {:induction false} ReferencesOfIssued(ids: seq<Id>, drafts: map<Id, Draft>, items: set<ItemRef>)
    requires DraftsIssued(drafts, items)
    ensures forall item :: item in ReferencesOf(ids, drafts) ==> item in items
  {
    hide References;
    if ids != [] {
      ReferencesOfIssued(ids[..|ids| - 1], drafts, items);
    }
  }

  // ---- A listing that fits is held whole ----

  lemma TouchLength<K(!new)>(order: seq<K>, key: K, capacity: nat)
    ensures |Touch(order, key, capacity)| <= |order| + 1
    ensures Evicts(order, key, capacity) ==> |order| >= capacity
  {}

  lemma {:induction false} AddItemsFit(c: ItemCache, items: seq<ItemRef>)
    requires |c.table.order| + |items| <= MAX_ITEM_ENTRIES
    ensures AddItems(c, items).complete == c.complete
    ensures |AddItems(c, items).table.order| <= |c.table.order| + |items|
  {
    hide Touch, Evicts, Named;
    if items != [] {
      var n := |items| - 1;
      AddItemsFit(c, items[..n]);
      TouchLength(AddItems(c, items[..n]).table.order, KeyOf(items[n]), MAX_ITEM_ENTRIES);
    }
  }

  predicate EntitiesFit<V>(c: EntityCache<V>, n: nat) {
    |c.ids.order| + n <= MAX_ENTRIES && |c.table.order| + n <= MAX_ENTRIES
  }

  lemma AddEntityFits<V>(c: EntityCache<V>, id: Id, value: V, n: nat)
    requires EntitiesFit(c, n + 1)
    ensures AddEntity(c, id, value).complete == c.complete && EntitiesFit(AddEntity(c, id, value), n)
  {
    TouchLength(c.ids.order, id, MAX_ENTRIES);
    TouchLength(c.table.order, id, MAX_ENTRIES);
  }

  lemma {:induction false} AddRevisionsFit(c: EntityCache<Revision>, listing: seq<Revision>, n: nat)
    requires EntitiesFit(c, |listing| + n)
    ensures AddRevisions(c, listing).complete == c.complete && EntitiesFit(AddRevisions(c, listing), n)
  {
    hide AddEntity;
    if listing != [] {
      var k := |listing| - 1;
      AddRevisionsFit(c, listing[..k], n + 1);
      AddEntityFits(AddRevisions(c, listing[..k]), listing[k].revisionId, listing[k], n);
    }
  }

  lemma {:induction false} AddDraftsFit(ix: Index, listing: seq<Draft>, n: nat)
    requires EntitiesFit(ix.drafts, |listing| + n)
    ensures AddDrafts(ix, listing).drafts.complete == ix.drafts.complete && EntitiesFit(AddDrafts(ix, listing).drafts, n)
  {
    hide AddEntity, AddItems, References;
    if listing != [] {
      var k := |listing| - 1;
      AddDraftsFit(ix, listing[..k], n + 1);
      AddEntityFits(AddDrafts(ix, listing[..k]).drafts, listing[k].draftId, listing[k], n);
    }
  }

  lemma {:induction false} AddPlainIdsFit(c: IdCache, ids: seq<Id>)
    requires |c.ids.order| + |ids| <= MAX_ENTRIES
    ensures AddPlainIds(c, ids).complete == c.complete
    ensures |AddPlainIds(c, ids).ids.order| <= |c.ids.order| + |ids|
  {
    hide Touch, Evicts;
    if ids != [] {
      var n := |ids| - 1;
      AddPlainIdsFit(c, ids[..n]);
      TouchLength(AddPlainIds(c, ids[..n]).ids.order, ids[n], MAX_ENTRIES);
    }
  }

  // ---- Judging an exact reference ----

  lemma {:induction false} LatestFound(items: seq<ItemRef>, key: ItemKey)
    ensures key in ItemKeys(items) <==> Latest(items, key).Some?
    ensures Latest(items, key).Some? ==> Latest(items, key).value in items && KeyOf(Latest(items, key).value) == key
  {
    if items != [] {
      var n := |items| - 1;
      assert items == items[..n] + [items[n]];
      LatestFound(items[..n], key);
      if KeyOf(items[n]) == key {
        assert items[n] in items;
      } else if key in ItemKeys(items) {
        var item :| item in items && KeyOf(item) == key;
        assert item in items[..n];
      }
    }
  }

  /**
   The verdict on an exact reference, whenever it is reached without asking: it is known exactly when
   it is the latest reference filed under its id and version, and foreign otherwise.
   */
  lemma JudgedByLatest(c: ItemCache, issued: set<ItemRef>, filed: seq<ItemRef>, item: ItemRef)
    requires ItemsSound(c, issued, filed)
    ensures var verdict := JudgeItem(c.table.entries, c.complete, item);
            && (verdict == KnownItem ==> Latest(filed, KeyOf(item)) == Some(item))
            && (verdict == ForeignItem ==> Latest(filed, KeyOf(item)) != Some(item))
            && (verdict == AskOwner <==> KeyOf(item) !in c.table.entries && !c.complete)
  {
    LatestFound(filed, KeyOf(item));
  }

  // ---- Listed, and denied unasked ----

  /** Two references with one id and version and two digests. */
  predicate Rivals(a: ItemRef, b: ItemRef) {
    KeyOf(a) == KeyOf(b) && a != b
  }

  /** After a listing that holds two rivals, the earlier one is denied unasked. */
  lemma ListedItemDenied(first: ItemRef, second: ItemRef)
    requires Rivals(first, second)
    ensures var c := AddItems(NoItems(true), [first, second]);
            JudgeItem(c.table.entries, c.complete, first) == ForeignItem
            && JudgeItem(c.table.entries, c.complete, second) == KnownItem
  {
    hide AddItems;
    var issued, listing := {first, second}, [first, second];
    assert ItemsSound(NoItems(true), issued, []);
    AddItemsSound(NoItems(true), listing, issued, []);
    AddItemsFit(NoItems(true), listing);
    assert [] + listing == [first] + [second];
    Displaced(AddItems(NoItems(true), listing), issued, [first], second, first);
  }

  /** So is a listed item once a draft carrying its rival is cached. */
  lemma ListedItemDisplaced(ix: Index, draft: Draft, issued: Issued, listed: set<Id>, filed: seq<ItemRef>, item: ItemRef)
    requires DraftsSound(ix, issued, listed, filed)
    requires draft.draftId in issued.drafts && DraftIssued(draft, issued.items)
    requires References(draft) != [] && Rivals(item, References(draft)[|References(draft)| - 1])
    ensures var c := AddDraft(ix, draft).items;
            JudgeItem(c.table.entries, c.complete, item) != KnownItem
            && (c.complete ==> JudgeItem(c.table.entries, c.complete, item) == ForeignItem)
  {
    hide References, AddItems, AddEntity;
    var refs := References(draft);
    var n := |refs| - 1;
    AddDraftSound(ix, draft, issued, listed, filed);
    assert filed + refs == filed + refs[..n] + [refs[n]];
    Displaced(AddDraft(ix, draft).items, issued.items, filed + refs[..n], refs[n], item);
  }

  lemma Displaced(c: ItemCache, issued: set<ItemRef>, before: seq<ItemRef>, last: ItemRef, item: ItemRef)
    requires ItemsSound(c, issued, before + [last]) && Rivals(item, last)
    ensures JudgeItem(c.table.entries, c.complete, item) != KnownItem
    ensures c.complete ==> JudgeItem(c.table.entries, c.complete, item) == ForeignItem
    ensures c.complete ==> JudgeItem(c.table.entries, c.complete, last) == KnownItem
  {
    var filed := before + [last];
    JudgedByLatest(c, issued, filed, item);
    JudgedByLatest(c, issued, filed, last);
    assert last in filed;
  }
}
