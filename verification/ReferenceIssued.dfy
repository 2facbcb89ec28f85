/**
 What it means that the owner issued a reference: one of its replies since the last reset named it, in
 scope. The sets the fence is stated with hold exactly these.
 */
module ReferenceIssued {
  import opened Bytes
  import opened Identifiers
  import opened ReferenceModel
  import opened ReferenceState
  import opened ReferenceTranscript

  /** The owner's reply to this entry names the id, as one of this kind and in scope. */
  ghost predicate Names(world: World, e: Entry, at: nat, scope: Scope, kind: ReferenceKind, id: Id) {
    match kind
    case RevisionKind =>
      || (e.RevisionsAsked? && world.revisions(at).Ok?
          && exists r :: r in world.revisions(at).value && r.scope == scope && r.revisionId == id)
      || (e.RevisionAsked? && world.revision(at).Ok? && world.revision(at).value.scope == scope
          && world.revision(at).value.revisionId == id)
      || (e.ReceiptsAsked? && world.receipts(at).Ok?
          && exists r :: r in world.receipts(at).value && r.scope == scope && r.activeRevisionId == id)
      || (e.ReceiptAsked? && world.receipt(at).Ok? && world.receipt(at).value.scope == scope
          && world.receipt(at).value.activeRevisionId == id)
    case DraftKind =>
      || (e.DraftsAsked? && world.drafts(at).Ok?
          && exists d :: d in world.drafts(at).value && d.scope == scope && d.draftId == id)
      || (e.DraftAsked? && world.draft(at).Ok? && world.draft(at).value.scope == scope
          && world.draft(at).value.draftId == id)
    case PreviewKind =>
      || (e.PreviewsAsked? && world.previews(at).Ok?
          && exists p :: p in world.previews(at).value && p.scope == scope && p.previewId == id)
      || (e.PreviewAsked? && world.preview(at).Ok? && world.preview(at).value.scope == scope
          && world.preview(at).value.previewId == id)
    case ReceiptKind =>
      || (e.ReceiptsAsked? && world.receipts(at).Ok?
          && exists r :: r in world.receipts(at).value && r.scope == scope && r.commandId == id)
      || (e.ReceiptAsked? && world.receipt(at).Ok? && world.receipt(at).value.scope == scope
          && world.receipt(at).value.commandId == id)
  }

  /** A draft carries an item as one of its selected items, as a note or as its objective. */
  predicate Carries(draft: Draft, item: ItemRef) {
    item in draft.selected || item in draft.notes || draft.objective == Some(item)
  }

  /** It names the exact item reference: in the listing of items, or carried by a draft. */
  ghost predicate NamesItem(world: World, e: Entry, at: nat, scope: Scope, item: ItemRef) {
    || (e.ItemsAsked? && world.items(at).Ok?
        && exists i :: i in world.items(at).value && i.scope == scope && i.item == item)
    || (e.DraftsAsked? && world.drafts(at).Ok?
        && exists d :: d in world.drafts(at).value && d.scope == scope && Carries(d, item))
    || (e.DraftAsked? && world.draft(at).Ok? && world.draft(at).value.scope == scope
        && Carries(world.draft(at).value, item))
  }

  /** No reset came after the entry `j`. */
  predicate Kept(t: Transcript, j: nat) {
    forall i :: j < i < |t| ==> !t[i].Reset?
  }

  ghost predicate NamedSince(world: World, t: Transcript, scope: Scope, kind: ReferenceKind, id: Id) {
    exists j :: 0 <= j < |t| && Names(world, t[j], j, scope, kind, id) && Kept(t, j)
  }

  ghost predicate ItemNamedSince(world: World, t: Transcript, scope: Scope, item: ItemRef) {
    exists j :: 0 <= j < |t| && NamesItem(world, t[j], j, scope, item) && Kept(t, j)
  }

  lemma IssuedNext(issued: Issued, e: Entry, world: World, at: nat, scope: Scope, kind: ReferenceKind, id: Id)
    ensures id in IssuedIds(IssuedStep(issued, e, world, at, scope), kind)
            <==> (!e.Reset? && id in IssuedIds(issued, kind)) || Names(world, e, at, scope, kind, id)
  {
    hide References;
  }

  lemma ItemIssuedNext(issued: Issued, e: Entry, world: World, at: nat, scope: Scope, item: ItemRef)
    ensures item in IssuedStep(issued, e, world, at, scope).items
            <==> (!e.Reset? && item in issued.items) || NamesItem(world, e, at, scope, item)
  {
    hide References;
    forall d: Draft ensures item in References(d) <==> Carries(d, item) {
      Carried(d, item);
    }
  }

  lemma Carried(draft: Draft, item: ItemRef)
    ensures item in References(draft) <==> Carries(draft, item)
  {}

  /** An id counts as issued exactly when the owner named it since the last reset. */
  lemma {:induction false} IssuedExactly(world: World, t: Transcript, scope: Scope, kind: ReferenceKind, id: Id)
    ensures id in IssuedIds(IssuedBy(world, t, scope), kind) <==> NamedSince(world, t, scope, kind, id)
  {
    hide Names, IssuedStep, IssuedIds;
    if t == [] {
      assert id !in IssuedIds(NOTHING, kind) by { NothingIssued(kind, id); }
    } else {
      var n := |t| - 1;
      var before := t[..n];
      IssuedExactly(world, before, scope, kind, id);
      IssuedNext(IssuedBy(world, before, scope), t[n], world, n, scope, kind, id);
      if NamedSince(world, before, scope, kind, id) && !t[n].Reset? {
        var j :| 0 <= j < n && Names(world, before[j], j, scope, kind, id) && Kept(before, j);
        assert before[j] == t[j] && Kept(t, j);
      }
      if Names(world, t[n], n, scope, kind, id) {
        assert Kept(t, n);
      }
      if NamedSince(world, t, scope, kind, id) {
        var j :| 0 <= j < |t| && Names(world, t[j], j, scope, kind, id) && Kept(t, j);
        if j < n {
          assert before[j] == t[j] && Kept(before, j);
        }
      }
    }
  }

  lemma NothingIssued(kind: ReferenceKind, id: Id)
    ensures id !in IssuedIds(NOTHING, kind)
  {}

  /** And so does an exact item reference. */
  lemma {:induction false} ItemIssuedExactly(world: World, t: Transcript, scope: Scope, item: ItemRef)
    ensures item in IssuedBy(world, t, scope).items <==> ItemNamedSince(world, t, scope, item)
  {
    hide NamesItem, IssuedStep;
    if t != [] {
      var n := |t| - 1;
      var before := t[..n];
      ItemIssuedExactly(world, before, scope, item);
      ItemIssuedNext(IssuedBy(world, before, scope), t[n], world, n, scope, item);
      if ItemNamedSince(world, before, scope, item) && !t[n].Reset? {
        var j :| 0 <= j < n && NamesItem(world, before[j], j, scope, item) && Kept(before, j);
        assert before[j] == t[j] && Kept(t, j);
      }
      if NamesItem(world, t[n], n, scope, item) {
        assert Kept(t, n);
      }
      if ItemNamedSince(world, t, scope, item) {
        var j :| 0 <= j < |t| && NamesItem(world, t[j], j, scope, item) && Kept(t, j);
        if j < n {
          assert before[j] == t[j] && Kept(before, j);
        }
      }
    }
  }
}
