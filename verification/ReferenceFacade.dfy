/**
 The facade between a console and the owner of its references, on the legacy ingress. Everything it
 asks and forwards goes into a transcript, and the index is at every moment what that transcript makes
 of it: nothing enters the index that the owner did not return.
 */
module ReferenceFacades {
  import opened Bytes
  import opened BoundedCache
  import opened Identifiers
  import opened ReferenceModel
  import opened ReferenceState
  import opened ReferenceTranscript
  import opened ReferenceFence
  import opened ReferenceIndexes

  type Answer<T> = Result<T, FacadeError>

  /** What an accepted, rejected or failed reply is answered with. */
  function Judged<T>(reply: Reply<T>, accepted: bool): Answer<T> {
    match reply
    case Err(error) => Err(FromOwner(error))
    case Ok(value) => if accepted then Ok(value) else Err(RejectedReply)
  }

  /** The same for one entity: looked up by id, an absent or different one is foreign. */
  function JudgedOne<T>(reply: Reply<T>, accepted: bool, same: bool, lookup: bool): Answer<T> {
    if lookup && reply == Err(NotFound) then Err(ForeignReference)
    else if reply.Ok? && accepted && !same then Err(ForeignReference)
    else Judged(reply, accepted)
  }

  /** How one entity's reply is answered, case by case. */
  lemma OneAnswered<T>(reply: Reply<T>, accepted: bool, same: bool, lookup: bool)
    ensures JudgedOne(reply, accepted, same, lookup) == Err(ForeignReference)
            <==> (lookup && reply == Err(NotFound)) || (reply.Ok? && accepted && !same)
    ensures JudgedOne(reply, accepted, same, lookup) == Err(RejectedReply) <==> reply.Ok? && !accepted
    ensures JudgedOne(reply, accepted, same, lookup).Ok? <==> reply.Ok? && accepted && same
    ensures forall error :: JudgedOne(reply, accepted, same, lookup) == Err(FromOwner(error))
                            <==> reply == Err(error) && !(lookup && error == NotFound)
    ensures reply.Ok? && accepted && same ==> JudgedOne(reply, accepted, same, lookup) == Ok(reply.value)
  {}

  /** A read: one request, and questions only. */
  ghost predicate Reads(before: Transcript, after: Transcript) {
    OnlyAsks(before + [Begin], after)
  }

  /**
   A request that forwards `mutation`, once and followed by its one reply; or that forwards nothing, and
   then it fails.
   */
  ghost predicate Forwards(before: Transcript, after: Transcript, mutation: Mutation, ok: bool) {
    if Reads(before, after) then !ok
    else
      var n := |after| - 2;
      n > |before| && Reads(before, after[..n]) && after[n] == Sent(mutation) && Asks(after[n + 1])
  }

  lemma Forwarded(before: Transcript, asked: Transcript, mutation: Mutation, reply: Entry, ok: bool)
    requires Reads(before, asked) && Asks(reply)
    ensures var after := asked + [Sent(mutation)] + [reply]; Forwards(before, after, mutation, ok) && !Reads(before, after)
  {
    var after := asked + [Sent(mutation)] + [reply];
    var n := |asked|;
    assert after[n] == Sent(mutation) && after[..n] == asked;
    assert !Asks(after[n]);
  }

  lemma NotForwarded(before: Transcript, after: Transcript, mutation: Mutation)
    requires Reads(before, after)
    ensures Forwards(before, after, mutation, false)
  {}

  lemma ReadsOn(before: Transcript, asked: Transcript, after: Transcript)
    requires Reads(before, asked) && OnlyAsks(asked, after)
    ensures Reads(before, after)
  {}

  class Facade {
    const scope: Scope
    const world: World
    const index: ReferenceIndex
    var capabilities: Reply<Capabilities>
    var turn: nat
    ghost var transcript: Transcript

    /** The index is what the transcript makes of it, and every mutation in it was allowed. */
    ghost predicate Valid()
      reads this, index
    {
      && turn == |transcript| && index.Valid() && index.View() == IndexBy(world, transcript, scope)
      && capabilities == CapabilitiesBy(world, transcript) && AllAllowed(world, transcript, scope)
    }

    constructor (scope: Scope, world: World)
      ensures Valid() && fresh(index) && this.scope == scope && this.world == world
      ensures Sends(transcript) == []
    {
      hide IndexBy;
      this.scope, this.world := scope, world;
      index := new ReferenceIndex();
      capabilities, turn, transcript := Err(Unknown), 0, [];
      new;
      NothingAsked(world, scope);
      LoadCapabilities();
      RefreshIndex();
      NothingSentKeeps([], transcript);
    }

    // ---- The transcript ----

    /** Nothing was asked, and the index is as it was. */
    twostate predicate Unmoved()
      reads this, index
    {
      turn == old(turn) && transcript == old(transcript) && index.View() == old(index.View())
    }

    /** Records one entry; what it makes of the index is still to be carried out. */
    method Note(e: Entry)
      requires Valid() && (e.Sent? ==> Allowed(world, transcript, e.mutation, scope))
      modifies `turn, `transcript
      ensures turn == |transcript| && transcript == old(transcript) + [e] && AllAllowed(world, transcript, scope)
      ensures IndexBy(world, transcript, scope) == IndexStep(index.View(), e, world, old(turn), scope)
      ensures CapabilitiesBy(world, transcript)
              == if e.CapabilitiesAsked? then world.capabilities(old(turn)) else capabilities
      ensures e.Begin? || e.GrantAsked? || e.Sent? ==> Valid()
    {
      hide Allowed, IndexBy, CapabilitiesBy;
      NextEntry(world, transcript, e, scope);
      AllAllowedAfter(world, transcript, e, scope);
      turn := turn + 1;
      transcript := transcript + [e];
    }

    /** What the index knows was issued, and a complete index knows all that was listed or cached since. */
    lemma KnownIssued(kind: ReferenceKind, id: Id)
      requires Valid()
      ensures index.Known(kind, id) ==> id in IssuedIds(IssuedBy(world, transcript, scope), kind)
      ensures index.Complete(kind) && id in ListedIds(ListedBy(world, transcript, scope), kind) ==> index.Known(kind, id)
    {
      hide IndexBy, IssuedBy, ListedBy, FiledBy, EntriesSound, ItemsSound, DraftsIssued;
      TranscriptSound(world, transcript, scope);
    }

    /** What the index files was issued, and is the latest under its id and version. */
    lemma HeldIssued(item: ItemRef)
      requires Valid()
      ensures index.Holds(item) ==> item in IssuedBy(world, transcript, scope).items
                                    && Latest(FiledBy(world, transcript, scope), KeyOf(item)) == Some(item)
      ensures JudgeItem(index.itemRefs, index.itemsComplete, item) == ForeignItem
              ==> Latest(FiledBy(world, transcript, scope), KeyOf(item)) != Some(item)
    {
      hide IndexBy, IssuedBy, ListedBy, FiledBy, EntriesSound, IdsSound, DraftsIssued;
      TranscriptSound(world, transcript, scope);
      JudgedByLatest(index.Items(), IssuedBy(world, transcript, scope).items, FiledBy(world, transcript, scope), item);
    }

    /** The references a held draft carries were issued. */
    lemma DraftHeldIssued(draftId: Id)
      requires Valid() && draftId in index.drafts
      ensures DraftIssued(index.drafts[draftId], IssuedBy(world, transcript, scope).items)
    {
      hide IndexBy, IssuedBy, ListedBy, FiledBy, EntriesSound, IdsSound, ItemsSound, DraftIssued;
      TranscriptSound(world, transcript, scope);
      assert DraftsIssued(index.drafts, IssuedBy(world, transcript, scope).items);
    }

    // ---- Grants, capabilities and the reset ----

    /** A request starts out with no grants. */
    method Start()
      requires Valid()
      modifies `turn, `transcript
      ensures Valid() && turn == old(turn) + 1 && transcript == old(transcript) + [Begin]
    {
      Note(Begin);
    }

    /** Grants are another component's. */
    method Authorize(permission: FacadePermission) returns (r: Answer<()>)
      requires Valid()
      modifies `turn, `transcript
      ensures Valid() && turn == old(turn) + 1 && transcript == old(transcript) + [GrantAsked(permission)]
      ensures r == if world.allows(old(turn)) then Ok(()) else Err(Unauthorized)
      ensures r.Ok? ==> permission in GrantedBy(world, transcript)
    {
      r := if world.allows(turn) then Ok(()) else Err(Unauthorized);
      Note(GrantAsked(permission));
    }

    /** A request that starts out asking for one grant. */
    method StartWith(permission: FacadePermission) returns (r: Answer<()>)
      requires Valid()
      modifies `turn, `transcript
      ensures Valid() && turn == old(turn) + 2 && transcript == old(transcript) + [Begin] + [GrantAsked(permission)]
      ensures Reads(old(transcript), transcript)
      ensures r == if world.allows(old(turn) + 1) then Ok(()) else Err(Unauthorized)
      ensures r.Ok? ==> permission in GrantedBy(world, transcript)
    {
      hide Valid;
      Start();
      r := Authorize(permission);
    }

    method LoadCapabilities()
      requires Valid()
      modifies `capabilities, `turn, `transcript
      ensures Valid() && transcript == old(transcript) + [CapabilitiesAsked]
      ensures capabilities == world.capabilities(old(turn))
    {
      var reply := world.capabilities(turn);
      Note(CapabilitiesAsked);
      capabilities := reply;
    }

    function RequireOwner(operation: OwnerOperation): (r: Answer<()>)
      reads `capabilities
    {
      match capabilities
      case Err(error) => Err(FromOwner(error))
      case Ok(c) =>
        if !c.enabled then Err(OwnerDisabled)
        else if operation in c.supported then Ok(())
        else Err(FromOwner(Unsupported))
    }

    predicate OwnerSupports(operation: OwnerOperation)
      reads `capabilities
    {
      RequireOwner(operation).Ok?
    }

    function Supported(): set<OwnerOperation>
      reads `capabilities
    {
      if capabilities.Ok? then capabilities.value.supported else {}
    }

    /** What a reset asks about one kind, if the owner supports it. */
    function Relisted(operation: OwnerOperation): Transcript
      reads `capabilities
    {
      if operation !in Supported() then []
      else
        match operation
        case EligibleItems => [ItemsAsked(AtReset, None)]
        case Revisions => [RevisionsAsked(AtReset)]
        case Drafts => [DraftsAsked(AtReset)]
        case Previews => [PreviewsAsked(AtReset)]
        case Receipts => [ReceiptsAsked(AtReset)]
        case _ => []
    }

    method Relist(operation: OwnerOperation)
      requires Valid()
      modifies `turn, `transcript, index
      ensures Valid() && transcript == old(transcript) + Relisted(operation) && NothingSent(old(transcript), transcript)
    {
      hide Valid;
      if operation !in Supported() {
        return;
      }
      match operation
      case EligibleItems => var _ := TakeItems(AtReset);
      case Revisions => var _ := TakeRevisions(AtReset);
      case Drafts => var _ := TakeDrafts(AtReset);
      case Previews => var _ := TakePreviews(AtReset);
      case Receipts => var _ := TakeReceipts(AtReset);
      case _ =>
    }

    /** `refresh_reference_index`: forgets everything, then lists each kind the owner supports. */
    method RefreshIndex()
      requires Valid()
      modifies `turn, `transcript, index
      ensures Valid() && NothingSent(old(transcript), transcript)
      ensures transcript == old(transcript) + [Entry.Reset] + Relisted(EligibleItems) + Relisted(Revisions)
                            + Relisted(Drafts) + Relisted(Previews) + Relisted(Receipts)
    {
      hide Valid, Relisted;
      Forget();
      Relist(EligibleItems);
      Relist(Revisions);
      Relist(Drafts);
      Relist(Previews);
      Relist(Receipts);
    }

    method Forget()
      requires Valid()
      modifies `turn, `transcript, index
      ensures Valid() && transcript == old(transcript) + [Entry.Reset]
    {
      Note(Entry.Reset);
      index.Reset();
    }

    // ---- Taking a listing: at a reset, for a caller, or to look something up ----

    method TakeItems(use: ListUse) returns (r: Answer<seq<EligibleItem>>)
      requires Valid() && !use.LookingUp?
      modifies `turn, `transcript, index
      ensures Valid() && turn == old(turn) + 1 && transcript == old(transcript) + [ItemsAsked(use, None)]
      ensures var reply := world.items(old(turn)); r == Judged(reply, reply.Ok? && AcceptsItems(reply.value, scope))
      ensures index.View() == ItemsStep(old(index.View()), use, None, world.items(old(turn)), scope)
    {
      hide IndexBy, CapabilitiesBy, AddItems, AllAllowed, Allowed, Synced, AcceptsItems, References;
      var more := index.CachedDraftReferences();
      if use.AtReset? {
        more := [];
      }
      var reply := world.items(turn);
      Note(ItemsAsked(use, None));
      r := Judged(reply, reply.Ok? && AcceptsItems(reply.value, scope));
      if r.Ok? {
        index.StoreItems(ItemsOf(r.value), more);
        assert ItemsOf(r.value) + more + [] == ItemsOf(r.value) + more;
      } else if use.AtReset? {
        index.itemsComplete := false;
      } else if r.error.RejectedReply? {
        index.ClearItems();
      }
    }

    method TakeRevisions(use: ListUse) returns (r: Answer<seq<Revision>>)
      requires Valid()
      modifies `turn, `transcript, index
      ensures Valid() && turn == old(turn) + 1 && transcript == old(transcript) + [RevisionsAsked(use)]
      ensures var reply := world.revisions(old(turn)); r == Judged(reply, reply.Ok? && AcceptsRevisions(reply.value, scope))
      ensures index.View() == RevisionsStep(old(index.View()), use, world.revisions(old(turn)), scope)
    {
      hide IndexBy, CapabilitiesBy, AddRevisions, AllAllowed, Allowed, Synced, AcceptsRevisions;
      var reply := world.revisions(turn);
      Note(RevisionsAsked(use));
      r := Judged(reply, reply.Ok? && AcceptsRevisions(reply.value, scope));
      if r.Ok? {
        index.StoreRevisions(r.value);
      } else if use.AtReset? {
        index.revisionsComplete := false;
      } else if use.ForCaller? && r.error.RejectedReply? {
        index.ClearRevisions();
      }
    }

    method TakeDrafts(use: ListUse) returns (r: Answer<seq<Draft>>)
      requires Valid()
      modifies `turn, `transcript, index
      ensures Valid() && turn == old(turn) + 1 && transcript == old(transcript) + [DraftsAsked(use)]
      ensures var reply := world.drafts(old(turn)); r == Judged(reply, reply.Ok? && AcceptsDrafts(reply.value, scope))
      ensures index.View() == DraftsStep(old(index.View()), use, world.drafts(old(turn)), scope)
    {
      hide IndexBy, CapabilitiesBy, AddDrafts, AllAllowed, Allowed, Synced, AcceptsDrafts;
      var reply := world.drafts(turn);
      Note(DraftsAsked(use));
      r := Judged(reply, reply.Ok? && AcceptsDrafts(reply.value, scope));
      if r.Ok? {
        index.StoreDrafts(r.value);
      } else if use.AtReset? {
        index.draftsComplete := false;
      } else if use.ForCaller? && r.error.RejectedReply? {
        index.ClearDrafts();
      }
    }

    method TakePreviews(use: ListUse) returns (r: Answer<seq<Preview>>)
      requires Valid()
      modifies `turn, `transcript, index
      ensures Valid() && turn == old(turn) + 1 && transcript == old(transcript) + [PreviewsAsked(use)]
      ensures var reply := world.previews(old(turn)); r == Judged(reply, reply.Ok? && AcceptsPreviews(reply.value, scope))
      ensures index.View() == PreviewsStep(old(index.View()), use, world.previews(old(turn)), scope)
    {
      hide IndexBy, CapabilitiesBy, AddPlainIds, AllAllowed, Allowed, Synced, AcceptsPreviews;
      var reply := world.previews(turn);
      Note(PreviewsAsked(use));
      r := Judged(reply, reply.Ok? && AcceptsPreviews(reply.value, scope));
      if r.Ok? {
        index.StorePreviews(r.value);
      } else if use.AtReset? {
        index.previewsComplete := false;
      } else if use.ForCaller? && r.error.RejectedReply? {
        index.ClearPreviews();
      }
    }

    method TakeReceipts(use: ListUse) returns (r: Answer<seq<Receipt>>)
      requires Valid()
      modifies `turn, `transcript, index
      ensures Valid() && turn == old(turn) + 1 && transcript == old(transcript) + [ReceiptsAsked(use)]
      ensures var reply := world.receipts(old(turn)); r == Judged(reply, reply.Ok? && AcceptsReceipts(reply.value, scope))
      ensures index.View() == ReceiptsStep(old(index.View()), use, world.receipts(old(turn)), scope)
    {
      hide IndexBy, CapabilitiesBy, AddPlainIds, AllAllowed, Allowed, Synced, AcceptsReceipts;
      var reply := world.receipts(turn);
      Note(ReceiptsAsked(use));
      r := Judged(reply, reply.Ok? && AcceptsReceipts(reply.value, scope));
      if r.Ok? {
        index.StoreReceipts(r.value);
      } else if use.AtReset? {
        index.receiptsComplete := false;
      } else if use.ForCaller? && r.error.RejectedReply? {
        index.ClearReceipts();
      }
    }

    function DraftAnswer(at: nat, wanted: Option<Id>): Answer<Draft> {
      var reply := world.draft(at);
      JudgedOne(reply, reply.Ok? && AcceptsDraft(reply.value, scope), reply.Ok? && Wants(wanted, reply.value.draftId),
                wanted.Some?)
    }

    function PreviewAnswer(at: nat, wanted: Option<Id>): Answer<Preview> {
      var reply := world.preview(at);
      JudgedOne(reply, reply.Ok? && AcceptsPreview(reply.value, scope), reply.Ok? && Wants(wanted, reply.value.previewId),
                wanted.Some?)
    }

    function ReceiptAnswer(at: nat, wanted: Option<Id>): Answer<Receipt> {
      var reply := world.receipt(at);
      JudgedOne(reply, reply.Ok? && AcceptsReceipt(reply.value, scope), reply.Ok? && Wants(wanted, reply.value.commandId),
                wanted.Some?)
    }

    // ---- Taking one entity: looked up, read, or returned by a mutation ----

    method TakeRevision(id: Id) returns (r: Answer<Revision>)
      requires Valid()
      modifies `turn, `transcript, index
      ensures Valid() && transcript == old(transcript) + [RevisionAsked(id)]
      ensures var reply := world.revision(old(turn));
              r == JudgedOne(reply, reply.Ok? && AcceptsRevision(reply.value, scope),
                             reply.Ok? && reply.value.revisionId == id, true)
      ensures index.View() == RevisionStep(old(index.View()), id, world.revision(old(turn)), scope)
      ensures r.Ok? ==> id in index.revisionIds && id in index.revisions
    {
      hide IndexBy, CapabilitiesBy, AllAllowed, Allowed, Synced, AddEntity;
      var reply := world.revision(turn);
      Note(RevisionAsked(id));
      r := JudgedOne(reply, reply.Ok? && AcceptsRevision(reply.value, scope), reply.Ok? && reply.value.revisionId == id,
                     true);
      if r.Ok? {
        EntityHeld(index.Revisions(), id, r.value);
        index.CacheRevision(r.value);
      }
    }

    /** The draft is held, and every item reference it carries was filed. */
    ghost predicate Cached(draft: Draft)
      reads this, index
    {
      && draft.draftId in index.draftIds && draft.draftId in index.drafts && index.drafts[draft.draftId] == draft
      && forall item :: item in References(draft) ==> item in FiledBy(world, transcript, scope)
    }

    /** A returned draft is cached after every item reference it carries. */
    method TakeDraft(wanted: Option<Id>) returns (r: Answer<Draft>)
      requires Valid()
      modifies `turn, `transcript, index
      ensures Valid() && turn == old(turn) + 1 && transcript == old(transcript) + [DraftAsked(wanted)]
      ensures r == DraftAnswer(old(turn), wanted)
      ensures index.View() == DraftStep(old(index.View()), wanted, world.draft(old(turn)), scope)
      ensures r.Ok? ==> Cached(r.value)
    {
      hide IndexBy, CapabilitiesBy, AllAllowed, Allowed, Synced, AddEntity, AddItems, References, AcceptsDraft, FiledBy;
      r := DraftAnswer(turn, wanted);
      NextFiled(world, transcript, DraftAsked(wanted), scope);
      Note(DraftAsked(wanted));
      if r.Ok? {
        index.CacheDraftReferences(r.value);
        EntityHeld(index.Drafts(), r.value.draftId, r.value);
        index.CacheDraft(r.value);
      }
    }

    method TakePreview(wanted: Option<Id>) returns (r: Answer<Preview>)
      requires Valid()
      modifies `turn, `transcript, index
      ensures Valid() && turn == old(turn) + 1 && transcript == old(transcript) + [PreviewAsked(wanted)]
      ensures r == PreviewAnswer(old(turn), wanted)
      ensures index.View() == PreviewStep(old(index.View()), wanted, world.preview(old(turn)), scope)
      ensures r.Ok? ==> r.value.previewId in index.previewIds
    {
      hide IndexBy, CapabilitiesBy, AllAllowed, Allowed, Synced, WithId;
      r := PreviewAnswer(turn, wanted);
      Note(PreviewAsked(wanted));
      if r.Ok? {
        IdHeld(index.Previews().ids, r.value.previewId);
        index.CachePreview(r.value);
      }
    }

    /** The receipt of a control command also names a revision that later commands may use. */
    method TakeReceipt(wanted: Option<Id>, withRevision: bool) returns (r: Answer<Receipt>)
      requires Valid()
      modifies `turn, `transcript, index
      ensures Valid() && turn == old(turn) + 1 && transcript == old(transcript) + [ReceiptAsked(wanted, withRevision)]
      ensures r == ReceiptAnswer(old(turn), wanted)
      ensures index.View() == ReceiptStep(old(index.View()), wanted, withRevision, world.receipt(old(turn)), scope)
      ensures r.Ok? ==> r.value.commandId in index.receiptIds
      ensures r.Ok? && withRevision ==> r.value.activeRevisionId in index.revisionIds
    {
      hide IndexBy, CapabilitiesBy, AllAllowed, Allowed, Synced, WithId, Evicts;
      r := ReceiptAnswer(turn, wanted);
      Note(ReceiptAsked(wanted, withRevision));
      if r.Ok? {
        IdHeld(index.Receipts().ids, r.value.commandId);
        index.CacheReceipt(r.value);
        if withRevision {
          IdHeld(index.Revisions().ids, r.value.activeRevisionId);
          index.CacheRevisionId(r.value.activeRevisionId);
        }
      }
    }

    // ---- Asking the owner about a reference ----

    /** An owner without the scoped lookup is asked for its whole listing. */
    method RevalidateRevision(id: Id) returns (r: Answer<()>)
      requires Valid()
      modifies `turn, `transcript, index
      ensures Valid() && OnlyAsks(old(transcript), transcript)
      ensures index.View() == old(index.View()).(revisions := index.Revisions())
      ensures r.Ok? ==> id in index.revisionIds
      ensures r.Err? && id in index.revisionIds ==> id in old(index.revisionIds)
      ensures r == Err(ForeignReference) ==> transcript != old(transcript)
      ensures r != Err(StaleDraft)
    {
      hide Valid, AddEntity, AddRevisions;
      if !OwnerSupports(Revisions) {
        return Err(FromOwner(Unsupported));
      }
      var found := TakeRevision(id);
      if found != Err(FromOwner(Unsupported)) {
        return if found.Ok? then Ok(()) else Err(found.error);
      }
      var _ :- TakeRevisions(LookingUp);
      r := if id in index.revisionIds then Ok(()) else Err(ForeignReference);
    }

    method RevalidateReference(id: Id, kind: ReferenceKind) returns (r: Answer<()>)
      requires Valid()
      modifies `turn, `transcript, index
      ensures Valid() && OnlyAsks(old(transcript), transcript)
      ensures kind != DraftKind ==> index.Drafts() == old(index.Drafts())
      ensures r.Ok? ==> index.Known(kind, id)
      ensures r.Err? && index.Known(kind, id) ==> old(index.Known(kind, id))
      ensures r == Err(ForeignReference) ==> transcript != old(transcript)
      ensures r != Err(StaleDraft)
    {
      hide Valid, AddEntity, AddPlainId, AddItems, WithId;
      match kind
      case RevisionKind => r := RevalidateRevision(id);
      case DraftKind =>
        if !OwnerSupports(Drafts) {
          return Err(FromOwner(Unsupported));
        }
        var _ :- TakeDraft(Some(id));
        r := Ok(());
      case PreviewKind =>
        if !OwnerSupports(Previews) {
          return Err(FromOwner(Unsupported));
        }
        var _ :- TakePreview(Some(id));
        r := Ok(());
      case ReceiptKind =>
        if !OwnerSupports(Receipts) {
          return Err(FromOwner(Unsupported));
        }
        var _ :- TakeReceipt(Some(id), false);
        r := Ok(());
    }

    /**
     An id passes exactly when it is well formed and known afterwards, and then the owner issued it since
     the last reset. It is denied without asking only when neither the latest accepted listing nor
     anything cached since names it.
     */
    method EnsureKnownId(id: Id, kind: ReferenceKind) returns (r: Answer<()>)
      requires Valid()
      modifies `turn, `transcript, index
      ensures Valid() && OnlyAsks(old(transcript), transcript)
      ensures kind != DraftKind ==> index.Drafts() == old(index.Drafts())
      ensures r.Ok? <==> ValidId(id) && index.Known(kind, id)
      ensures r.Ok? ==> id in IssuedIds(IssuedBy(world, transcript, scope), kind)
      ensures r == Err(ForeignReference) && transcript == old(transcript)
              ==> id !in ListedIds(ListedBy(world, transcript, scope), kind)
      ensures old(Held(index.View(), id, kind)) ==> r.Ok? && Unmoved()
    {
      hide Valid, IssuedBy, ListedBy;
      if !ValidId(id) {
        return Err(Invalid);
      }
      KnownIssued(kind, id);
      if index.Known(kind, id) {
        return Ok(());
      }
      if index.Complete(kind) {
        return Err(ForeignReference);
      }
      r := RevalidateReference(id, kind);
      KnownIssued(kind, id);
    }

    /** As `EnsureKnownId` for an optional id. */
    method EnsureKnownOption(id: Option<Id>, kind: ReferenceKind) returns (r: Answer<()>)
      requires Valid()
      modifies `turn, `transcript, index
      ensures Valid() && OnlyAsks(old(transcript), transcript)
      ensures r.Ok? ==> OptionFenced(id, IssuedIds(IssuedBy(world, transcript, scope), kind)) && OptionValid(id)
      ensures old(OptionHeld(index.View(), id, kind)) ==> r.Ok? && Unmoved()
    {
      hide Valid;
      if id.None? {
        return Ok(());
      }
      r := EnsureKnownId(id.value, kind);
    }

    /** An item not held is looked for in the whole listing and in the cached drafts. */
    method RevalidateItem(item: ItemRef) returns (r: Answer<()>)
      requires Valid() && KeyOf(item) !in index.itemRefs
      modifies `turn, `transcript, index
      ensures Valid() && OnlyAsks(old(transcript), transcript)
      ensures index.Drafts() == old(index.Drafts())
      ensures r.Ok? <==> index.Holds(item)
      ensures r == Err(ForeignReference)
              ==> transcript != old(transcript) && item !in FiledBy(world, transcript, scope)
    {
      hide IndexBy, FiledBy, CapabilitiesBy, AllAllowed, Allowed, AddItems, Synced, References, AcceptsItems;
      if !OwnerSupports(EligibleItems) {
        return Err(FromOwner(Unsupported));
      }
      var reply := world.items(turn);
      var e := ItemsAsked(LookingUp, Some(item));
      NextFiled(world, transcript, e, scope);
      Note(e);
      if reply.Err? {
        return Err(FromOwner(reply.error));
      }
      if !AcceptsItems(reply.value, scope) {
        return Err(RejectedReply);
      }
      var listed := ItemsOf(reply.value);
      var draftReferences := index.CachedDraftReferences();
      index.StoreItems(listed, draftReferences);
      if item in listed || item in draftReferences {
        OneItemMore(NoItems(true), listed + draftReferences, item);
        ItemAdds(index.Items(), item);
        index.CacheItem(item);
        r := Ok(());
      } else {
        assert listed + draftReferences + [] == listed + draftReferences;
        HeldIssued(item);
        LatestFound(FiledBy(world, transcript, scope), KeyOf(item));
        r := Err(if index.itemsComplete then ForeignReference else FromOwner(Unsupported));
      }
    }

    /**
     An exact item reference passes exactly when it is held afterwards, and then the owner issued it. Of
     everything filed under its id and version only the latest passes: where the index can tell without
     asking, a reference passes exactly when it is that latest one.
     */
    method EnsureItem(item: ItemRef) returns (r: Answer<()>)
      requires Valid()
      modifies `turn, `transcript, index
      ensures Valid() && OnlyAsks(old(transcript), transcript)
      ensures index.Drafts() == old(index.Drafts())
      ensures r.Ok? <==> ValidItemRef(item) && index.Holds(item)
      ensures r.Ok? ==> item in IssuedBy(world, transcript, scope).items
      ensures r.Ok? ==> Latest(FiledBy(world, transcript, scope), KeyOf(item)) == Some(item)
      ensures r == Err(ForeignReference) ==> Latest(FiledBy(world, transcript, scope), KeyOf(item)) != Some(item)
      ensures ValidItemRef(item) && (KeyOf(item) in old(index.itemRefs) || old(index.itemsComplete))
              ==> Unmoved() && r == JudgedUnasked(item)
      ensures ValidItemRef(item) && old(index.Holds(item)) ==> r.Ok?
    {
      hide Valid, IssuedBy, FiledBy;
      if !ValidItemRef(item) {
        return Err(Invalid);
      }
      HeldIssued(item);
      match JudgeItem(index.itemRefs, index.itemsComplete, item)
      case KnownItem => r := Ok(());
      case ForeignItem => r := Err(ForeignReference);
      case AskOwner =>
        r := RevalidateItem(item);
        HeldIssued(item);
        LatestFound(FiledBy(world, transcript, scope), KeyOf(item));
    }

    ghost function JudgedUnasked(item: ItemRef): Answer<()>
      reads this
    {
      if Latest(FiledBy(world, transcript, scope), KeyOf(item)) == Some(item) then Ok(()) else Err(ForeignReference)
    }

    // ---- Checking what a caller asks to forward ----

    method EnsureCurrentDraftVersion(draftId: Id, expectedVersion: nat) returns (r: Answer<()>)
      requires Valid()
      modifies `turn, `transcript, index
      ensures Valid() && OnlyAsks(old(transcript), transcript)
      ensures r.Ok? ==> draftId in index.drafts && index.drafts[draftId].version == expectedVersion
      ensures r == Err(StaleDraft) ==> draftId in index.drafts && index.drafts[draftId].version != expectedVersion
      ensures draftId in old(index.drafts)
              ==> Unmoved()
                  && (r.Ok? <==> index.drafts[draftId].version == expectedVersion)
    {
      hide Valid;
      if draftId !in index.drafts {
        var _ :- RevalidateReference(draftId, DraftKind);
      }
      if draftId !in index.drafts {
        return Err(FromOwner(Unsupported));
      }
      r := if index.drafts[draftId].version == expectedVersion then Ok(()) else Err(StaleDraft);
    }

    method ValidateOperation(operation: Operation, draftId: Id) returns (r: Answer<()>)
      requires Valid()
      modifies `turn, `transcript, index
      ensures Valid() && OnlyAsks(old(transcript), transcript)
      ensures index.Drafts() == old(index.Drafts())
      ensures r.Ok? ==> OperationFenced(operation, IssuedBy(world, transcript, scope))
      ensures r.Ok? && draftId in index.drafts ==> RemovesFrom(operation, index.drafts[draftId])
      ensures r.Ok? ==> WellFormedOperation(operation)
      ensures old(OperationHeld(index.View(), operation, draftId))
              ==> r.Ok? && Unmoved()
    {
      hide Valid, IssuedBy, FiledBy;
      match operation
      case PutNote(noteId, expectedVersion, text, timely) =>
        if !ValidId(noteId) || text == [] || |text| > MAX_NOTE_BYTES || 0 in text || !timely
           || (expectedVersion.Some? && expectedVersion.value > MAX_SAFE_INTEGER) {
          return Err(Invalid);
        }
        r := Ok(());
      case RemoveNote(noteId, expectedNoteVersion) =>
        if !ValidId(noteId) || expectedNoteVersion > MAX_SAFE_INTEGER {
          return Err(Invalid);
        }
        if draftId !in index.drafts {
          return Err(FromOwner(Unsupported));
        }
        var notes := index.drafts[draftId].notes;
        for k := 0 to |notes|
          invariant forall j :: 0 <= j < k ==> notes[j].itemId != noteId
        {
          if notes[k].itemId == noteId {
            DraftHeldIssued(draftId);
            assert notes[k] in References(index.drafts[draftId]);
            return Ok(());
          }
        }
        r := Err(ForeignReference);
      case SetObjective(text) =>
        r := if text == [] || |text| > MAX_OBJECTIVE_BYTES || 0 in text then Err(Invalid) else Ok(());
      case RestoreConfiguration(sourceRevisionId) =>
        r := EnsureKnownId(sourceRevisionId, RevisionKind);
      case _ =>
        r := EnsureItem(operation.item);
    }

    method ValidatePatch(patch: Patch) returns (r: Answer<()>)
      requires Valid()
      modifies `turn, `transcript, index
      ensures Valid() && OnlyAsks(old(transcript), transcript)
      ensures r.Ok? ==> Fenced(ApplyPatch(patch, false), IssuedBy(world, transcript, scope), scope)
      ensures r.Ok? ==> PatchCurrent(index.View(), patch) && WellFormed(ApplyPatch(patch, false))
      ensures old(PatchHeld(index.View(), patch, scope)) ==> r.Ok? && Unmoved()
    {
      hide Valid, IssuedBy, OperationFenced, Fenced, WellFormedOperation, OperationHeld, ValidId;
      if !patch.schemaKnown || patch.operations == [] || |patch.operations| > MAX_OPERATIONS
         || patch.expectedDraftVersion == 0 || patch.expectedDraftVersion > MAX_SAFE_INTEGER {
        return Err(Invalid);
      }
      if patch.scope != scope {
        return Err(ScopeMismatch);
      }
      var _ :- EnsureKnownId(patch.draftId, DraftKind);
      ghost var known := transcript;
      var _ :- EnsureCurrentDraftVersion(patch.draftId, patch.expectedDraftVersion);
      var _ :- EnsureKnownId(patch.expectedActiveRevisionId, RevisionKind);
      AsksGrow(world, known, transcript, scope);
      FenceStart(patch, IssuedBy(world, transcript, scope), scope);
      r := ValidateOperations(patch);
    }

    /** The loop of `validate_patch` over the operations. */
    method ValidateOperations(patch: Patch) returns (r: Answer<()>)
      requires Valid() && patch.draftId in index.drafts
      requires Fenced(ApplyPatch(FirstOf(patch, 0), false), IssuedBy(world, transcript, scope), scope)
      modifies `turn, `transcript, index
      ensures Valid() && OnlyAsks(old(transcript), transcript) && index.Drafts() == old(index.Drafts())
      ensures r.Ok? ==> Fenced(ApplyPatch(patch, false), IssuedBy(world, transcript, scope), scope)
      ensures r.Ok? ==> forall k :: 0 <= k < |patch.operations|
                                    ==> RemovesFrom(patch.operations[k], index.drafts[patch.draftId])
                                        && WellFormedOperation(patch.operations[k])
      ensures old(forall k :: 0 <= k < |patch.operations|
                              ==> OperationHeld(index.View(), patch.operations[k], patch.draftId))
              ==> r.Ok? && Unmoved()
    {
      hide Valid, IssuedBy, OperationFenced, RemovesFrom, Fenced, WellFormedOperation, OperationHeld;
      ghost var ready := forall k :: 0 <= k < |patch.operations|
                                     ==> OperationHeld(index.View(), patch.operations[k], patch.draftId);
      for n := 0 to |patch.operations|
        invariant Valid() && OnlyAsks(old(transcript), transcript) && index.Drafts() == old(index.Drafts())
        invariant Fenced(ApplyPatch(FirstOf(patch, n), false), IssuedBy(world, transcript, scope), scope)
        invariant forall k :: 0 <= k < n ==> RemovesFrom(patch.operations[k], index.drafts[patch.draftId])
                                             && WellFormedOperation(patch.operations[k])
        invariant ready ==> Unmoved()
      {
        ghost var before := transcript;
        var _ :- ValidateOperation(patch.operations[n], patch.draftId);
        FenceStays(ApplyPatch(FirstOf(patch, n), false), world, before, transcript, scope);
        FenceNext(patch, n, IssuedBy(world, transcript, scope), scope);
      }
      assert FirstOf(patch, |patch.operations|) == patch;
      r := Ok(());
    }

    /** `patch_requires_objective_authority`. */
    method PatchRequiresObjective(patch: Patch) returns (r: Answer<bool>)
      requires Valid()
      modifies `turn, `transcript, index
      ensures Valid() && OnlyAsks(old(transcript), transcript)
      ensures patch.draftId in old(index.drafts) ==> index.Drafts() == old(index.Drafts())
      ensures r.Ok? ==> ObjectiveDecided(index.View(), patch) && r.value == NeedsObjective(index.View(), patch)
      ensures old(ObjectiveDecided(index.View(), patch))
              ==> r.Ok? && Unmoved()
    {
      hide Valid;
      for k := 0 to |patch.operations|
        invariant forall j :: 0 <= j < k ==> !patch.operations[j].SetObjective?
      {
        if patch.operations[k].SetObjective? {
          return Ok(true);
        }
      }
      var source := FirstRestored(patch.operations);
      if source.None? {
        return Ok(false);
      }
      if patch.draftId !in index.drafts {
        var _ :- RevalidateReference(patch.draftId, DraftKind);
      }
      if source.value !in index.revisions {
        var _ :- RevalidateReference(source.value, RevisionKind);
      }
      if patch.draftId !in index.drafts || source.value !in index.revisions {
        return Err(FromOwner(Unsupported));
      }
      r := Ok(index.drafts[patch.draftId].objective != index.revisions[source.value].objective);
    }

    method ValidateCommand(command: Command, kind: CommandKind) returns (r: Answer<()>)
      requires Valid()
      modifies `turn, `transcript, index
      ensures Valid() && OnlyAsks(old(transcript), transcript)
      ensures r.Ok? ==> command.kind == kind && CommandFenced(command, IssuedBy(world, transcript, scope), scope)
      ensures r.Ok? ==> WellFormed(Control(command))
      ensures old(CommandHeld(index.View(), command, kind, scope)) ==> r.Ok? && Unmoved()
    {
      hide Valid, IssuedBy, ValidId, ValidDigest;
      if !command.schemaKnown || command.kind != kind || !ValidId(command.idempotencyKey)
         || !ValidId(command.commandWindowId) || command.expectedControlVersion > MAX_SAFE_INTEGER {
        return Err(Invalid);
      }
      if command.scope != scope {
        return Err(ScopeMismatch);
      }
      var _ :- EnsureKnownOption(command.expectedActiveRevisionId, RevisionKind);
      ghost var revisionKnown := transcript;
      var _ :- EnsureKnownOption(command.previewId, PreviewKind);
      ghost var previewKnown := transcript;
      var _ :- EnsureKnownOption(command.expectedPreviewId, PreviewKind);
      AsksGrow(world, revisionKnown, transcript, scope);
      AsksGrow(world, previewKnown, transcript, scope);
      var manifest := command.approvedManifest;
      r := if manifest.Some? && !ValidDigest(manifest.value) then Err(Invalid) else Ok(());
    }

    // ---- Reads ----

    /** Whether a read whose request starts at `at` goes on to ask the owner. */
    function ReadyAnswer(at: nat, operation: OwnerOperation): Answer<()>
      reads `capabilities
    {
      if world.allows(at + 1) then RequireOwner(operation) else Err(Unauthorized)
    }

    /** A read needs its grant and its operation. */
    method Ready(operation: OwnerOperation) returns (r: Answer<()>)
      requires Valid()
      modifies `turn, `transcript
      ensures Valid() && transcript == old(transcript) + [Begin] + [GrantAsked(ReadMetadata)]
      ensures turn == old(turn) + 2 && r == ReadyAnswer(old(turn), operation)
    {
      hide Valid;
      var _ :- StartWith(ReadMetadata);
      r := RequireOwner(operation);
    }

    /** An accepted listing replaces what was known, a rejected one clears it, a failed one leaves it. */
    method ListItems() returns (r: Answer<seq<EligibleItem>>)
      requires Valid()
      modifies `turn, `transcript, index
      ensures Valid() && Reads(old(transcript), transcript)
      ensures var ready, reply := ReadyAnswer(old(turn), EligibleItems), world.items(old(turn) + 2);
              r == if ready.Err? then Err(ready.error) else Judged(reply, reply.Ok? && AcceptsItems(reply.value, scope))
      ensures index.View() == if r.Ok? then
                                var items := ItemsOf(r.value) + DraftReferences(old(index.Drafts()));
                                old(index.View()).(items := AddItems(NoItems(true), items))
                              else if r.error.RejectedReply? then old(index.View()).(items := NoItems(false))
                              else old(index.View())
    {
      hide Valid, AddItems, AddRevisions, AddDrafts, AddPlainIds, References;
      var _ :- Ready(EligibleItems);
      r := TakeItems(ForCaller);
      if r.Ok? {
        ghost var items := ItemsOf(r.value) + DraftReferences(old(index.Drafts()));
        assert items + [] == items;
      }
    }

    method ListRevisions() returns (r: Answer<seq<Revision>>)
      requires Valid()
      modifies `turn, `transcript, index
      ensures Valid() && Reads(old(transcript), transcript)
      ensures var ready, reply := ReadyAnswer(old(turn), Revisions), world.revisions(old(turn) + 2);
              r == if ready.Err? then Err(ready.error) else Judged(reply, reply.Ok? && AcceptsRevisions(reply.value, scope))
      ensures index.View() == if r.Ok? then old(index.View()).(revisions := AddRevisions(NoEntities(true), r.value))
                              else if r.error.RejectedReply? then old(index.View()).(revisions := NoEntities(false))
                              else old(index.View())
    {
      hide Valid, AddItems, AddRevisions, AddDrafts, AddPlainIds, References;
      var _ :- Ready(Revisions);
      r := TakeRevisions(ForCaller);
    }

    method ListDrafts() returns (r: Answer<seq<Draft>>)
      requires Valid()
      modifies `turn, `transcript, index
      ensures Valid() && Reads(old(transcript), transcript)
      ensures var ready, reply := ReadyAnswer(old(turn), Drafts), world.drafts(old(turn) + 2);
              r == if ready.Err? then Err(ready.error) else Judged(reply, reply.Ok? && AcceptsDrafts(reply.value, scope))
      ensures index.View() == if r.Ok? then AddDrafts(old(index.View()).(drafts := NoEntities(true)), r.value)
                              else if r.error.RejectedReply? then old(index.View()).(drafts := NoEntities(false))
                              else old(index.View())
    {
      hide Valid, AddItems, AddRevisions, AddDrafts, AddPlainIds, References;
      var _ :- Ready(Drafts);
      r := TakeDrafts(ForCaller);
    }

    method ListPreviews() returns (r: Answer<seq<Preview>>)
      requires Valid()
      modifies `turn, `transcript, index
      ensures Valid() && Reads(old(transcript), transcript)
      ensures var ready, reply := ReadyAnswer(old(turn), Previews), world.previews(old(turn) + 2);
              r == if ready.Err? then Err(ready.error) else Judged(reply, reply.Ok? && AcceptsPreviews(reply.value, scope))
      ensures index.View() == if r.Ok? then old(index.View()).(previews := AddPlainIds(NoPlainIds(true), PreviewIds(r.value)))
                              else if r.error.RejectedReply? then old(index.View()).(previews := NoPlainIds(false))
                              else old(index.View())
    {
      hide Valid, AddItems, AddRevisions, AddDrafts, AddPlainIds, References;
      var _ :- Ready(Previews);
      r := TakePreviews(ForCaller);
    }

    method ListReceipts() returns (r: Answer<seq<Receipt>>)
      requires Valid()
      modifies `turn, `transcript, index
      ensures Valid() && Reads(old(transcript), transcript)
      ensures var ready, reply := ReadyAnswer(old(turn), Receipts), world.receipts(old(turn) + 2);
              r == if ready.Err? then Err(ready.error) else Judged(reply, reply.Ok? && AcceptsReceipts(reply.value, scope))
      ensures index.View() == if r.Ok? then old(index.View()).(receipts := AddPlainIds(NoPlainIds(true), ReceiptIds(r.value)))
                              else if r.error.RejectedReply? then old(index.View()).(receipts := NoPlainIds(false))
                              else old(index.View())
    {
      hide Valid, AddItems, AddRevisions, AddDrafts, AddPlainIds, References;
      var _ :- Ready(Receipts);
      r := TakeReceipts(ForCaller);
    }

    method ReadDraft(draftId: Id) returns (r: Answer<Draft>)
      requires Valid()
      modifies `turn, `transcript, index
      ensures Valid() && Reads(old(transcript), transcript)
      ensures r.Ok? ==> turn > 0 && r == DraftAnswer(turn - 1, None)
      ensures r.Ok? ==> draftId in IssuedBy(world, transcript, scope).drafts && Cached(r.value)
      ensures old(Granted(draftId, DraftKind, Drafts)) ==> r == DraftAnswer(old(turn) + 2, None)
    {
      hide Valid, IssuedBy, Cached, DraftStep, DraftAnswer;
      var _ :- KnownAndReady(ReadMetadata, draftId, DraftKind, Drafts);
      ghost var known := transcript;
      r := TakeDraft(None);
      AsksGrow(world, known, transcript, scope);
    }

    method ReadPreview(previewId: Id) returns (r: Answer<Preview>)
      requires Valid()
      modifies `turn, `transcript, index
      ensures Valid() && Reads(old(transcript), transcript)
      ensures r.Ok? ==> turn > 0 && r == PreviewAnswer(turn - 1, None)
      ensures r.Ok? ==> previewId in IssuedBy(world, transcript, scope).previews && r.value.previewId in index.previewIds
      ensures old(Granted(previewId, PreviewKind, Previews)) ==> r == PreviewAnswer(old(turn) + 2, None)
    {
      hide Valid, IssuedBy, PreviewStep, PreviewAnswer;
      var _ :- KnownAndReady(ReadMetadata, previewId, PreviewKind, Previews);
      ghost var known := transcript;
      r := TakePreview(None);
      AsksGrow(world, known, transcript, scope);
    }

    method ReadReceipt(commandId: Id) returns (r: Answer<Receipt>)
      requires Valid()
      modifies `turn, `transcript, index
      ensures Valid() && Reads(old(transcript), transcript)
      ensures r.Ok? ==> turn > 0 && r == ReceiptAnswer(turn - 1, None)
      ensures r.Ok? ==> commandId in IssuedBy(world, transcript, scope).receipts && r.value.commandId in index.receiptIds
      ensures old(Granted(commandId, ReceiptKind, Receipts)) ==> r == ReceiptAnswer(old(turn) + 2, None)
    {
      hide Valid, IssuedBy, ReceiptStep, ReceiptAnswer;
      var _ :- KnownAndReady(ReadMetadata, commandId, ReceiptKind, Receipts);
      ghost var known := transcript;
      r := TakeReceipt(None, false);
      AsksGrow(world, known, transcript, scope);
    }

    /** The answer to a recovery whose request starts at `at`: no index has a part in it. */
    function RecoveryAnswer(at: nat, idempotencyKey: Id): Answer<Receipt>
      reads `capabilities
    {
      if !world.allows(at + 1) then Err(Unauthorized)
      else if !ValidId(idempotencyKey) then Err(Invalid)
      else if RequireOwner(ReceiptRecovery).Err? then Err(RequireOwner(ReceiptRecovery).error)
      else ReceiptAnswer(at + 2, None)
    }

    /** The caller's own key is no reference: nothing is looked up for it, and the owner alone answers. */
    method RecoverReceipt(idempotencyKey: Id) returns (r: Answer<Receipt>)
      requires Valid()
      modifies `turn, `transcript, index
      ensures Valid() && Reads(old(transcript), transcript)
      ensures r == old(RecoveryAnswer(turn, idempotencyKey))
      ensures r.Ok? ==> r.value.commandId in index.receiptIds && r.value.activeRevisionId in index.revisionIds
    {
      hide Valid, IssuedBy;
      var _ :- StartWith(ReadMetadata);
      if !ValidId(idempotencyKey) {
        return Err(Invalid);
      }
      var _ :- RequireOwner(ReceiptRecovery);
      r := TakeReceipt(None, true);
    }

    /** Nothing stands in the way of a request that starts now and needs this id and one grant. */
    ghost predicate Granted(id: Id, kind: ReferenceKind, operation: OwnerOperation)
      reads this, index
    {
      world.allows(turn + 1) && Held(index.View(), id, kind) && operation in Offered(capabilities)
    }

    lemma OfferedExactly(operation: OwnerOperation)
      ensures RequireOwner(operation).Ok? <==> operation in Offered(capabilities)
    {}

    /** Questions asked since a grant leave the request a read, and the grant given. */
    lemma GrantStays(before: Transcript, granted: Transcript, permission: FacadePermission)
      requires Reads(before, granted) && OnlyAsks(granted, transcript)
      ensures Reads(before, transcript)
      ensures permission in GrantedBy(world, granted) ==> permission in GrantedBy(world, transcript)
    {
      ReadsOn(before, granted, transcript);
      AsksGrow(world, granted, transcript, scope);
    }

    method KnownAndReady(permission: FacadePermission, id: Id, kind: ReferenceKind, operation: OwnerOperation)
      returns (r: Answer<()>)
      requires Valid()
      modifies `turn, `transcript, index
      ensures Valid() && Reads(old(transcript), transcript)
      ensures r.Ok? ==> id in IssuedIds(IssuedBy(world, transcript, scope), kind)
                        && permission in GrantedBy(world, transcript) && operation in Offered(capabilities) && ValidId(id)
      ensures old(Granted(id, kind, operation)) ==> r.Ok? && turn == old(turn) + 2
    {
      hide Valid, IssuedBy, GrantedBy, OnlyAsks, Reads, index.Known, index.View, IssuedIds, ValidId, Held, RequireOwner;
      hide Offered;
      OfferedExactly(operation);
      var _ :- StartWith(permission);
      ghost var granted := transcript;
      var known := EnsureKnownId(id, kind);
      GrantStays(old(transcript), granted, permission);
      if known.Err? {
        return Err(known.error);
      }
      r := RequireOwner(operation);
    }

    // ---- Mutations ----

    /** The transcript so far allows the mutation. */
    ghost predicate MaySend(mutation: Mutation)
      reads this, index
    {
      && Fenced(mutation, IssuedBy(world, transcript, scope), scope) && WellFormed(mutation)
      && Entitled(mutation, GrantedBy(world, transcript), Offered(capabilities)) && PatchFits(index.View(), mutation)
    }

    /** Sends an allowed mutation to the owner. */
    method Send(mutation: Mutation)
      requires Valid() && MaySend(mutation)
      modifies `turn, `transcript
      ensures Valid() && transcript == old(transcript) + [Sent(mutation)]
    {
      hide WellFormed, Fenced, Entitled, PatchFits;
      Note(Sent(mutation));
    }

    /** A permission the grant check gave the request that has just sent something. */
    ghost predicate GrantedToSend(permission: FacadePermission)
      reads `transcript
    {
      |transcript| >= 2 && GrantedFor(world, transcript[..|transcript| - 2], permission)
    }

    /** What the transcript says of a mutation just sent. */
    lemma JustSent(asked: Transcript, mutation: Mutation, reply: Entry)
      requires Valid() && transcript == asked + [Sent(mutation)] + [reply]
      ensures mutation.CreateDraft? || mutation.ApplyPatch? || mutation.CreatePreview? ==> GrantedToSend(EditDrafts)
      ensures mutation.ApplyPatch? && NeedsObjective(IndexBy(world, transcript[..|transcript| - 2], scope), mutation.patch)
              ==> GrantedToSend(ChangeObjective)
      ensures mutation.CreatePreview? && mutation.preview.applicableRequested ==> GrantedToSend(PauseRuns)
      ensures mutation.Control? && mutation.command.kind == Pause ==> GrantedToSend(PauseRuns)
      ensures mutation.Control? && mutation.command.kind == Commit ==> GrantedToSend(CommitPlans)
      ensures mutation.Control? && mutation.command.kind == Resume ==> GrantedToSend(ResumeRuns)
    {
      hide IndexBy, GrantedFor, NeedsObjective, CapabilitiesBy, AllAllowed;
      assert transcript[..|asked|] == asked && transcript[|asked|] == Sent(mutation);
      SentGranted(world, transcript, |asked|, scope);
    }

    method CreateDraft(expectedActiveRevisionId: Id) returns (r: Answer<Draft>)
      requires Valid()
      modifies `turn, `transcript, index
      ensures Valid()
      ensures Forwards(old(transcript), transcript, ReferenceModel.CreateDraft(scope, expectedActiveRevisionId), r.Ok?)
      ensures !Reads(old(transcript), transcript) ==> turn > 0 && r == DraftAnswer(turn - 1, None)
      ensures !Reads(old(transcript), transcript) ==> GrantedToSend(EditDrafts)
      ensures old(Granted(expectedActiveRevisionId, RevisionKind, DraftCreate)) ==> !Reads(old(transcript), transcript)
      ensures r.Ok? ==> Cached(r.value)
    {
      hide Valid, IssuedBy, GrantedBy, OnlyAsks, Fenced, Cached, DraftStep, DraftAnswer, Granted, Reads, GrantedToSend;
      hide Forwards;
      var mutation := ReferenceModel.CreateDraft(scope, expectedActiveRevisionId);
      var known := KnownAndReady(EditDrafts, expectedActiveRevisionId, RevisionKind, DraftCreate);
      if known.Err? {
        NotForwarded(old(transcript), transcript, mutation);
        return Err(known.error);
      }
      DraftFenced(expectedActiveRevisionId, IssuedBy(world, transcript, scope), scope);
      ghost var asked := transcript;
      Send(mutation);
      r := TakeDraft(None);
      Forwarded(old(transcript), asked, mutation, DraftAsked(None), r.Ok?);
      JustSent(asked, mutation, DraftAsked(None));
    }

    /** A patch that changes the objective needs its own grant. */
    method AuthorizeObjective(patch: Patch) returns (r: Answer<bool>)
      requires Valid()
      modifies `turn, `transcript, index
      ensures Valid() && OnlyAsks(old(transcript), transcript)
      ensures patch.draftId in old(index.drafts) ==> index.Drafts() == old(index.Drafts())
      ensures r.Ok? ==> ObjectiveDecided(index.View(), patch) && r.value == NeedsObjective(index.View(), patch)
      ensures r == Ok(true) ==> ChangeObjective in GrantedBy(world, transcript)
      ensures old(ObjectiveDecided(index.View(), patch) && (NeedsObjective(index.View(), patch) ==> world.allows(turn)))
              ==> r.Ok?
    {
      hide Valid, GrantedBy, NeedsObjective, ObjectiveDecided;
      var objective :- PatchRequiresObjective(patch);
      if objective {
        var _ :- Authorize(ChangeObjective);
      }
      r := Ok(objective);
    }

    /** Nothing stands in the way of this patch, if its request starts now. */
    ghost predicate EditReady(patch: Patch)
      reads this, index
    {
      && world.allows(turn + 1) && PatchHeld(index.View(), patch, scope) && ObjectiveDecided(index.View(), patch)
      && (NeedsObjective(index.View(), patch) ==> world.allows(turn + 2)) && DraftEdit in Offered(capabilities)
    }

    /** Everything a patch must pass before it is sent; the answer says whether it changes the objective. */
    method ClearEdit(patch: Patch) returns (r: Answer<bool>)
      requires Valid()
      modifies `turn, `transcript, index
      ensures Valid() && Reads(old(transcript), transcript)
      ensures r.Ok? ==> MaySend(ApplyPatch(patch, r.value))
      ensures old(EditReady(patch)) ==> r.Ok?
    {
      hide Valid, IssuedBy, GrantedBy, Fenced, RemovesFrom, NeedsObjective, ObjectiveDecided, PatchCurrent, PatchHeld;
      hide OperationFenced, CommandFenced, WellFormed;
      var _ :- StartWith(EditDrafts);
      ghost var granted := transcript;
      var _ :- ValidatePatch(patch);
      ghost var validated, checked := transcript, index.View();
      var objective :- AuthorizeObjective(patch);
      CurrentStill(patch, checked, index.View());
      var _ :- RequireOwner(DraftEdit);
      AsksGrow(world, granted, transcript, scope);
      FenceStays(ApplyPatch(patch, false), world, validated, transcript, scope);
      PatchFence(patch, objective, IssuedBy(world, transcript, scope), scope);
      r := Ok(objective);
    }

    method EditDraft(patch: Patch) returns (r: Answer<Draft>)
      requires Valid()
      modifies `turn, `transcript, index
      ensures Valid()
      ensures exists objective :: Forwards(old(transcript), transcript, ApplyPatch(patch, objective), r.Ok?)
      ensures !Reads(old(transcript), transcript) ==> turn > 0 && r == DraftAnswer(turn - 1, None)
      ensures !Reads(old(transcript), transcript)
              ==> GrantedToSend(EditDrafts)
                  && (NeedsObjective(IndexBy(world, transcript[..|transcript| - 2], scope), patch)
                      ==> GrantedToSend(ChangeObjective))
      ensures old(EditReady(patch)) ==> !Reads(old(transcript), transcript)
      ensures r.Ok? ==> Cached(r.value)
    {
      hide Valid, IssuedBy, GrantedBy, OnlyAsks, Cached, DraftStep, DraftAnswer, NeedsObjective, IndexBy, MaySend, EditReady;
      hide Reads, Forwards, GrantedFor;
      var cleared := ClearEdit(patch);
      if cleared.Err? {
        NotForwarded(old(transcript), transcript, ApplyPatch(patch, false));
        return Err(cleared.error);
      }
      ghost var asked := transcript;
      Send(ApplyPatch(patch, cleared.value));
      r := TakeDraft(None);
      Forwarded(old(transcript), asked, ApplyPatch(patch, cleared.value), DraftAsked(None), r.Ok?);
      JustSent(asked, ApplyPatch(patch, cleared.value), DraftAsked(None));
    }

    /** Nothing stands in the way of this preview, if its request starts now. */
    ghost predicate PreviewReady(preview: PreviewRequest)
      reads this, index
    {
      && world.allows(turn + 1) && WellFormed(CreatePreview(preview)) && preview.scope == scope
      && Held(index.View(), preview.draftId, DraftKind) && (preview.applicableRequested ==> world.allows(turn + 2))
      && PreviewCreate in Offered(capabilities)
    }

    /** Everything a preview request must pass before it is sent. */
    method ClearPreview(preview: PreviewRequest) returns (r: Answer<()>)
      requires Valid()
      modifies `turn, `transcript, index
      ensures Valid() && Reads(old(transcript), transcript)
      ensures r.Ok? ==> MaySend(CreatePreview(preview))
      ensures old(PreviewReady(preview)) ==> r.Ok?
    {
      hide Valid, IssuedBy, GrantedBy, ValidId;
      var _ :- StartWith(EditDrafts);
      ghost var granted := transcript;
      if preview.scope != scope {
        return Err(ScopeMismatch);
      }
      if preview.expectedDraftVersion == 0 || preview.expectedDraftVersion > MAX_SAFE_INTEGER
         || preview.expectedControlVersion > MAX_SAFE_INTEGER {
        return Err(Invalid);
      }
      var _ :- EnsureKnownId(preview.draftId, DraftKind);
      ghost var drafted := transcript;
      if preview.applicableRequested {
        var _ :- Authorize(PauseRuns);
      }
      AsksGrow(world, granted, transcript, scope);
      AsksGrow(world, drafted, transcript, scope);
      r := RequireOwner(PreviewCreate);
    }

    method RequestPreview(preview: PreviewRequest) returns (r: Answer<Preview>)
      requires Valid()
      modifies `turn, `transcript, index
      ensures Valid()
      ensures Forwards(old(transcript), transcript, CreatePreview(preview), r.Ok?)
      ensures !Reads(old(transcript), transcript) ==> turn > 0 && r == PreviewAnswer(turn - 1, None)
      ensures !Reads(old(transcript), transcript)
              ==> GrantedToSend(EditDrafts) && (preview.applicableRequested ==> GrantedToSend(PauseRuns))
      ensures old(PreviewReady(preview)) ==> !Reads(old(transcript), transcript)
      ensures r.Ok? ==> r.value.previewId in index.previewIds
    {
      hide Valid, IssuedBy, GrantedBy, OnlyAsks, PreviewStep, PreviewAnswer, MaySend, PreviewReady, Reads, Forwards;
      hide GrantedFor;
      var cleared := ClearPreview(preview);
      if cleared.Err? {
        NotForwarded(old(transcript), transcript, CreatePreview(preview));
        return Err(cleared.error);
      }
      ghost var asked := transcript;
      Send(CreatePreview(preview));
      r := TakePreview(None);
      Forwarded(old(transcript), asked, CreatePreview(preview), PreviewAsked(None), r.Ok?);
      JustSent(asked, CreatePreview(preview), PreviewAsked(None));
    }

    /** Nothing stands in the way of this command, if its request starts now. */
    ghost predicate CommandReady(command: Command, kind: CommandKind)
      reads this, index
    {
      && world.allows(turn + 1) && CommandHeld(index.View(), command, kind, scope)
      && (kind.Commit? ==> command.previewId.Some? && command.approvedManifest.Some?)
      && (kind.Pause? ==> PauseRun in Offered(capabilities))
      && (kind.Commit? ==> CommitPlan in Offered(capabilities))
      && (kind.Resume? ==> ResumeRun in Offered(capabilities))
    }

    /** A commit needs a known preview and an approved manifest; a resume may expect a preview. */
    method EnsureApproved(command: Command, kind: CommandKind) returns (r: Answer<()>)
      requires Valid()
      modifies `turn, `transcript, index
      ensures Valid() && OnlyAsks(old(transcript), transcript)
      ensures r.Ok? && kind.Commit? ==> command.previewId.Some? && command.approvedManifest.Some?
      ensures old(CommandHeld(index.View(), command, kind, scope))
              && (kind.Commit? ==> command.previewId.Some? && command.approvedManifest.Some?)
              ==> r.Ok? && Unmoved()
    {
      hide Valid, WellFormed;
      if kind.Commit? {
        if command.previewId.None? {
          return Err(Invalid);
        }
        var _ :- EnsureKnownId(command.previewId.value, PreviewKind);
        if command.approvedManifest.None? {
          return Err(Invalid);
        }
      } else if kind.Resume? {
        var _ :- EnsureKnownOption(command.expectedPreviewId, PreviewKind);
      }
      r := Ok(());
    }

    /** Everything a command must pass before it is sent. */
    method ClearCommand(command: Command, kind: CommandKind) returns (r: Answer<()>)
      requires Valid()
      modifies `turn, `transcript, index
      ensures Valid() && Reads(old(transcript), transcript)
      ensures r.Ok? ==> command.kind == kind && MaySend(Control(command))
      ensures old(CommandReady(command, kind)) ==> r.Ok?
    {
      hide Valid, IssuedBy, GrantedBy, WellFormed, CommandHeld;
      var _ :- StartWith(PermissionFor(kind));
      ghost var granted := transcript;
      var _ :- ValidateCommand(command, kind);
      ghost var validated := transcript;
      var _ :- EnsureApproved(command, kind);
      AsksGrow(world, granted, transcript, scope);
      AsksGrow(world, validated, transcript, scope);
      r := RequireOwner(OperationOf(kind));
    }

    /** Pause, held commit and resume. */
    method RunCommand(command: Command, kind: CommandKind) returns (r: Answer<Receipt>)
      requires Valid()
      modifies `turn, `transcript, index
      ensures Valid()
      ensures Forwards(old(transcript), transcript, Control(command), r.Ok?)
      ensures !Reads(old(transcript), transcript) ==> command.kind == kind
      ensures !Reads(old(transcript), transcript) ==> turn > 0 && r == ReceiptAnswer(turn - 1, None)
      ensures !Reads(old(transcript), transcript)
              ==> && (kind == Pause ==> GrantedToSend(PauseRuns)) && (kind == Commit ==> GrantedToSend(CommitPlans))
                  && (kind == Resume ==> GrantedToSend(ResumeRuns))
      ensures old(CommandReady(command, kind)) ==> !Reads(old(transcript), transcript)
      ensures r.Ok? ==> r.value.commandId in index.receiptIds && r.value.activeRevisionId in index.revisionIds
    {
      hide Valid, IssuedBy, GrantedBy, OnlyAsks, ReceiptStep, ReceiptAnswer, MaySend, CommandReady, Reads, Forwards;
      hide GrantedFor;
      var cleared := ClearCommand(command, kind);
      if cleared.Err? {
        NotForwarded(old(transcript), transcript, Control(command));
        return Err(cleared.error);
      }
      ghost var asked := transcript;
      Send(Control(command));
      r := TakeReceipt(None, true);
      Forwarded(old(transcript), asked, Control(command), ReceiptAsked(None, true), r.Ok?);
      JustSent(asked, Control(command), ReceiptAsked(None, true));
    }

    /** `refresh_capabilities`: the one reset after construction. */
    method RefreshCapabilities() returns (r: Answer<()>)
      requires Valid()
      modifies `capabilities, `turn, `transcript, index
      ensures Valid() && NothingSent(old(transcript), transcript)
      ensures r == if !world.allows(old(turn) + 1) then Err(Unauthorized)
                   else if capabilities.Err? then Err(FromOwner(capabilities.error))
                   else Ok(())
      ensures r != Err(Unauthorized) ==> capabilities == world.capabilities(old(turn) + 2)
    {
      hide IndexBy, CapabilitiesBy, AllAllowed, index.Valid;
      var _ :- StartWith(ReadMetadata);
      LoadCapabilities();
      RefreshIndex();
      r := if capabilities.Err? then Err(FromOwner(capabilities.error)) else Ok(());
    }

    // ---- Runs ----

    method Handle(request: Request)
      requires Valid()
      modifies this, index
      ensures Valid()
      ensures Serves(Sends(old(transcript)), Sends(transcript), request, scope)
    {
      hide Valid, Sends, Reads, Forwards, Cached, DraftAnswer, PreviewAnswer, ReceiptAnswer, RecoveryAnswer;
      hide AddItems, AddRevisions, AddDrafts, AddPlainIds;
      match request
      case ListItemsRequest => var _ := ListItems(); ReadsSends(old(transcript), transcript);
      case ListRevisionsRequest => var _ := ListRevisions(); ReadsSends(old(transcript), transcript);
      case ListDraftsRequest => var _ := ListDrafts(); ReadsSends(old(transcript), transcript);
      case ListPreviewsRequest => var _ := ListPreviews(); ReadsSends(old(transcript), transcript);
      case ListReceiptsRequest => var _ := ListReceipts(); ReadsSends(old(transcript), transcript);
      case ReadDraftRequest(id) => var _ := ReadDraft(id); ReadsSends(old(transcript), transcript);
      case ReadPreviewRequest(id) => var _ := ReadPreview(id); ReadsSends(old(transcript), transcript);
      case ReadReceiptRequest(id) => var _ := ReadReceipt(id); ReadsSends(old(transcript), transcript);
      case RecoverReceiptRequest(key) => var _ := RecoverReceipt(key); ReadsSends(old(transcript), transcript);
      case RefreshRequest =>
        var _ := RefreshCapabilities();
        NothingSentKeeps(old(transcript), transcript);
      case CreateDraftRequest(id) =>
        var r := CreateDraft(id);
        ForwardsSends(old(transcript), transcript, ReferenceModel.CreateDraft(scope, id), r.Ok?);
      case EditDraftRequest(patch) =>
        var r := EditDraft(patch);
        ghost var objective :| Forwards(old(transcript), transcript, ApplyPatch(patch, objective), r.Ok?);
        ForwardsSends(old(transcript), transcript, ApplyPatch(patch, objective), r.Ok?);
      case PreviewDraftRequest(preview) =>
        var r := RequestPreview(preview);
        ForwardsSends(old(transcript), transcript, CreatePreview(preview), r.Ok?);
      case CommandRequest(command, kind) =>
        var r := RunCommand(command, kind);
        ForwardsSends(old(transcript), transcript, Control(command), r.Ok?);
        if Reads(old(transcript), transcript) {
          ReadsSends(old(transcript), transcript);
        }
    }
  }

  /** The patch cut to its first `n` operations. */
  function FirstOf(patch: Patch, n: nat): Patch
    requires n <= |patch.operations|
  {
    patch.(operations := patch.operations[..n])
  }

  lemma FenceStart(patch: Patch, issued: Issued, scope: Scope)
    requires patch.scope == scope && patch.draftId in issued.drafts && patch.expectedActiveRevisionId in issued.revisions
    ensures Fenced(ApplyPatch(FirstOf(patch, 0), false), issued, scope)
  {}

  lemma FenceNext(patch: Patch, n: nat, issued: Issued, scope: Scope)
    requires n < |patch.operations| && Fenced(ApplyPatch(FirstOf(patch, n), false), issued, scope)
    requires OperationFenced(patch.operations[n], issued)
    ensures Fenced(ApplyPatch(FirstOf(patch, n + 1), false), issued, scope)
  {
    hide OperationFenced;
    var before, after := FirstOf(patch, n).operations, FirstOf(patch, n + 1).operations;
    forall k | 0 <= k < |after| ensures OperationFenced(after[k], issued) {
      assert k < n ==> after[k] == before[k];
    }
  }

  lemma DraftFenced(expectedActiveRevisionId: Id, issued: Issued, scope: Scope)
    requires expectedActiveRevisionId in issued.revisions
    ensures Fenced(ReferenceModel.CreateDraft(scope, expectedActiveRevisionId), issued, scope)
  {}

  lemma PatchFence(patch: Patch, withObjective: bool, issued: Issued, scope: Scope)
    requires Fenced(ApplyPatch(patch, false), issued, scope) && WellFormed(ApplyPatch(patch, false))
    ensures Fenced(ApplyPatch(patch, withObjective), issued, scope) && WellFormed(ApplyPatch(patch, withObjective))
  {}

  lemma CurrentStill(patch: Patch, before: Index, after: Index)
    requires PatchCurrent(before, patch)
    ensures patch.draftId in before.drafts.table.entries
    ensures after.drafts == before.drafts ==> PatchCurrent(after, patch)
  {}

  lemma OneItemMore(c: ItemCache, items: seq<ItemRef>, item: ItemRef)
    ensures AddItems(c, items + [item]) == AddItem(AddItems(c, items), item)
  {
    assert (items + [item])[..|items|] == items;
  }

  datatype Request =
    | ListItemsRequest | ListRevisionsRequest | ListDraftsRequest | ListPreviewsRequest | ListReceiptsRequest
    | ReadDraftRequest(id: Id) | ReadPreviewRequest(id: Id) | ReadReceiptRequest(id: Id)
    | RecoverReceiptRequest(key: Id)
    | CreateDraftRequest(id: Id) | EditDraftRequest(patch: Patch) | PreviewDraftRequest(preview: PreviewRequest)
    | CommandRequest(command: Command, kind: CommandKind)
    | RefreshRequest

  /** The request asks for exactly this mutation. */
  predicate Requests(request: Request, mutation: Mutation, scope: Scope) {
    match request
    case CreateDraftRequest(id) => mutation == ReferenceModel.CreateDraft(scope, id)
    case EditDraftRequest(patch) => mutation.ApplyPatch? && mutation.patch == patch
    case PreviewDraftRequest(preview) => mutation == CreatePreview(preview)
    case CommandRequest(command, kind) => mutation == Control(command) && command.kind == kind
    case _ => false
  }

  /** One request sends nothing more, or one mutation more: what it asks for. */
  predicate Serves(before: seq<Mutation>, after: seq<Mutation>, request: Request, scope: Scope) {
    after == before
    || (after != [] && after[..|after| - 1] == before && Requests(request, after[|after| - 1], scope))
  }

  lemma ReadsSends(before: Transcript, after: Transcript)
    requires Reads(before, after)
    ensures Sends(after) == Sends(before)
  {
    hide Sends;
    assert NothingSent(before, before + [Begin]);
    NothingSentKeeps(before, after);
  }

  lemma ForwardsSends(before: Transcript, after: Transcript, mutation: Mutation, ok: bool)
    requires Forwards(before, after, mutation, ok)
    ensures if Reads(before, after) then Sends(after) == Sends(before) else Sends(after) == Sends(before) + [mutation]
  {
    if Reads(before, after) {
      ReadsSends(before, after);
    } else {
      var n := |after| - 2;
      ReadsSends(before, after[..n]);
      assert after[..n + 1][..n] == after[..n];
      assert Sends(after[..n + 1]) == Sends(before) + [mutation];
      assert Sends(after) == Sends(after[..n + 1]) + [];
    }
  }

  /** The mutations answer the requests in their order, each request with at most one. */
  ghost predicate Answers(sent: seq<Mutation>, requests: seq<Request>, scope: Scope)
    decreases |requests|
  {
    if requests == [] then sent == []
    else
      var n := |requests| - 1;
      exists before :: Answers(before, requests[..n], scope) && Serves(before, sent, requests[n], scope)
  }

  /**
   The fence, over whole runs: whatever the requests, and whatever the owner and the grant check answer,
   every mutation sent was allowed by what had been asked by then, and the requests asked for what was
   sent, in order and at most once each.
   */
  method Run(scope: Scope, world: World, requests: seq<Request>) returns (ghost transcript: Transcript, facade: Facade)
    ensures facade.Valid() && facade.world == world && facade.scope == scope && transcript == facade.transcript
    ensures AllAllowed(world, transcript, scope)
    ensures Answers(Sends(transcript), requests, scope)
  {
    hide Sends, Serves;
    facade := new Facade(scope, world);
    for n := 0 to |requests|
      invariant facade.Valid() && facade.scope == scope && facade.world == world
      invariant fresh(facade) && fresh(facade.index)
      invariant Answers(Sends(facade.transcript), requests[..n], scope)
    {
      ghost var before := Sends(facade.transcript);
      facade.Handle(requests[n]);
      assert requests[..n + 1][..n] == requests[..n];
    }
    assert requests[..|requests|] == requests;
    transcript := facade.transcript;
  }
}
