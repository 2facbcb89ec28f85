/**
 The control protocol between a binding and its owner: commands, the receipts that answer them, and
 what any chain of accepted receipts conserves.
 */
module ControlReceipts {
  import opened Bytes
  import opened Identifiers
  import opened OwnerWire

  datatype Kind = PauseKind | CommitKind | ResumeKind

  datatype Command =
    | Pause(idempotencyKey: bytes, expectedControlVersion: u64)
    | Commit(idempotencyKey: bytes, expectedControlVersion: u64, expectedRevisionId: bytes,
             expectedBoundary: Boundary, previewManifest: bytes, approvedManifest: bytes)
    | Resume(idempotencyKey: bytes, expectedControlVersion: u64, expectedBoundary: Boundary)

  datatype Effect = PauseRequested | RevisionCommitted | ResumeAccepted | OtherEffect(text: bytes)

  datatype Receipt = Receipt(
    schemaKnown: bool, ownerId: bytes, invocationId: bytes, bindingId: bytes, bindingDigest: bytes,
    kind: Kind, commandId: bytes, idempotencyKey: bytes, effect: Effect,
    controlVersion: u64, planEpoch: u64, controllerEpoch: u64, gateEpoch: u64, boundary: Boundary,
    revisionId: Option<bytes>, previewManifest: Option<bytes>, approvedManifest: Option<bytes>)

  datatype WireError = UnsupportedSchema | InvalidField | InvalidBinding | OutOfBounds | CorrelationMismatch

  type Check = Result<(), WireError>

  function KindOf(command: Command): Kind {
    match command
    case Pause(_, _) => PauseKind
    case Commit(_, _, _, _, _, _) => CommitKind
    case Resume(_, _, _) => ResumeKind
  }

  function EffectOf(command: Command): Effect {
    match command
    case Pause(_, _) => PauseRequested
    case Commit(_, _, _, _, _, _) => RevisionCommitted
    case Resume(_, _, _) => ResumeAccepted
  }

  function ValidateCommand(command: Command, binding: Binding): Check {
    if !ValidBinding(binding) then Err(InvalidBinding)
    else if !ValidId(command.idempotencyKey) then Err(InvalidField)
    else
      match command
      case Pause(_, version) =>
        if version != binding.boundary.controlVersion then Err(CorrelationMismatch) else Ok(())
      case Commit(_, version, revisionId, boundary, preview, approved) =>
        if !ValidId(revisionId) || !ValidDigest(preview) || !ValidDigest(approved) || !ValidBoundary(boundary) then
          Err(InvalidField)
        else if version != binding.boundary.controlVersion || boundary != binding.boundary || preview != approved then
          Err(CorrelationMismatch)
        else Ok(())
      case Resume(_, version, boundary) =>
        if !ValidBoundary(boundary) then Err(InvalidField)
        else if version != binding.boundary.controlVersion || boundary != binding.boundary then Err(CorrelationMismatch)
        else Ok(())
  }

  function CheckedIncrement(n: u64): Option<u64> {
    if n + 1 < U64_LIMIT then Some(n + 1) else None
  }

  /** `resulting_boundary`: one control version on, and one gate epoch unless it is a commit. */
  function ResultingBoundary(binding: Binding, command: Command): Result<Boundary, WireError> {
    var start := if command.Pause? then binding.boundary else command.expectedBoundary;
    match CheckedIncrement(start.controlVersion)
    case None => Err(OutOfBounds)
    case Some(version) =>
      var next := start.(controlVersion := version);
      if command.Commit? then Ok(next)
      else
        match CheckedIncrement(start.gateEpoch)
        case None => Err(OutOfBounds)
        case Some(gate) => Ok(next.(gateEpoch := gate))
  }

  predicate ValidEffect(effect: Effect) {
    effect.OtherEffect? ==> ValidId(effect.text)
  }

  function ValidateReceipt(receipt: Receipt, binding: Binding, command: Command): Check {
    if !receipt.schemaKnown then Err(UnsupportedSchema)
    else
      var _ :- ValidateCommand(command, binding);
      if !ValidId(receipt.ownerId) || !ValidId(receipt.invocationId) || !ValidId(receipt.bindingId)
         || !ValidId(receipt.commandId) || !ValidId(receipt.idempotencyKey) || !ValidEffect(receipt.effect)
         || !ValidDigest(receipt.bindingDigest) || !ValidBoundary(receipt.boundary) then Err(InvalidField)
      else
        var boundary :- ResultingBoundary(binding, command);
        var plan :- ResultingPlan(binding, command);
        if receipt.ownerId != binding.ownerId || receipt.invocationId != binding.invocationId
           || receipt.bindingId != binding.bindingId || receipt.bindingDigest != binding.bindingDigest
           || receipt.kind != KindOf(command) || receipt.idempotencyKey != command.idempotencyKey
           || receipt.effect != EffectOf(command) || receipt.boundary != boundary
           || receipt.controllerEpoch != boundary.controllerEpoch || receipt.gateEpoch != boundary.gateEpoch
           || receipt.controlVersion != boundary.controlVersion || receipt.planEpoch != plan then
          Err(CorrelationMismatch)
        else ValidateCommitFields(receipt, command)
  }

  function ResultingPlan(binding: Binding, command: Command): Result<u64, WireError> {
    if !command.Commit? then Ok(binding.planEpoch)
    else
      match CheckedIncrement(binding.planEpoch)
      case None => Err(OutOfBounds)
      case Some(plan) => Ok(plan)
  }

  function ValidateCommitFields(receipt: Receipt, command: Command): Check {
    match command
    case Commit(_, _, expectedRevisionId, _, preview, approved) =>
      if receipt.revisionId.None? then Err(CorrelationMismatch)
      else if !ValidId(receipt.revisionId.value) then Err(InvalidField)
      else if receipt.revisionId.value == expectedRevisionId || receipt.previewManifest != Some(preview)
              || receipt.approvedManifest != Some(approved) then Err(CorrelationMismatch)
      else Ok(())
    case _ =>
      if receipt.revisionId.Some? || receipt.previewManifest.Some? || receipt.approvedManifest.Some? then
        Err(CorrelationMismatch)
      else Ok(())
  }

  predicate Accepts(receipt: Receipt, binding: Binding, command: Command) {
    ValidateReceipt(receipt, binding, command).Ok?
  }

  // ---- The records of an accepted command and receipt ----

  /** A command fits a binding exactly when it expects the state the binding is in, and approves what it previewed. */
  lemma CommandExactly(command: Command, binding: Binding)
    ensures ValidateCommand(command, binding).Ok?
            <==> && ValidBinding(binding) && ValidId(command.idempotencyKey)
                 && command.expectedControlVersion == binding.boundary.controlVersion
                 && (command.Commit? || command.Resume? ==> command.expectedBoundary == binding.boundary)
                 && (command.Commit? ==> && command.approvedManifest == command.previewManifest
                                         && ValidDigest(command.previewManifest) && ValidId(command.expectedRevisionId))
  {
    hide ValidId, ValidDigest;
  }

  /** What stands behind every accepted receipt: a binding in order, whose grants build on one another. */
  lemma AcceptedBinding(receipt: Receipt, binding: Binding, command: Command)
    requires Accepts(receipt, binding, command)
    ensures binding.schemaKnown && binding.workflowRunId == binding.boundary.runId
    ensures binding.bindingVersion >= 1 && binding.leaseEpoch >= 1 && binding.planEpoch >= 1
    ensures binding.boundary.generation >= 1 && binding.boundary.controllerEpoch >= 1
    ensures binding.boundary.gateEpoch >= 1 && binding.boundary.controlVersion >= 1
    ensures var grants := binding.grants;
            && (grants.contentRead ==> grants.metadataRead) && (grants.edit ==> grants.contentRead && grants.metadataRead)
            && (grants.control ==> grants.metadataRead) && (binding.available ==> grants.metadataRead)
    ensures ValidId(binding.ownerId) && ValidId(binding.invocationId) && ValidId(binding.bindingId)
    ensures ValidId(binding.workflowRunId) && ValidId(binding.approvedRevisionId)
    ensures ValidDigest(binding.bindingDigest) && ValidDigest(binding.definitionDigest)
    ensures ValidDigest(receipt.boundary.observation) && ValidDigest(receipt.boundary.catalog)
    ensures ValidDigest(receipt.boundary.configuration) && ValidDigest(receipt.boundary.outputSchema)
  {
    hide ValidId, ValidDigest;
  }

  /** What every accepted receipt repeats of its binding and command. */
  predicate Correlates(receipt: Receipt, binding: Binding, command: Command) {
    && receipt.schemaKnown && ValidId(receipt.commandId)
    && receipt.ownerId == binding.ownerId && receipt.invocationId == binding.invocationId
    && receipt.bindingId == binding.bindingId && receipt.bindingDigest == binding.bindingDigest
    && receipt.idempotencyKey == command.idempotencyKey
    && receipt.controlVersion == receipt.boundary.controlVersion
    && receipt.controllerEpoch == receipt.boundary.controllerEpoch && receipt.gateEpoch == receipt.boundary.gateEpoch
    && receipt.boundary.controlVersion == binding.boundary.controlVersion + 1
    && receipt.boundary == binding.boundary.(controlVersion := receipt.boundary.controlVersion,
                                             gateEpoch := receipt.boundary.gateEpoch)
  }

  /** Whether a receipt is accepted, field by field. */
  lemma AcceptedFields(receipt: Receipt, binding: Binding, command: Command)
    ensures Accepts(receipt, binding, command)
            <==> ValidateCommand(command, binding).Ok? && Correlates(receipt, binding, command)
                 && match command
                    case Pause(_, _) =>
                      && receipt.kind == PauseKind && receipt.effect == PauseRequested
                      && receipt.boundary.gateEpoch == binding.boundary.gateEpoch + 1
                      && receipt.planEpoch == binding.planEpoch
                      && receipt.revisionId == receipt.previewManifest == receipt.approvedManifest == None
                    case Resume(_, _, _) =>
                      && receipt.kind == ResumeKind && receipt.effect == ResumeAccepted
                      && receipt.boundary.gateEpoch == binding.boundary.gateEpoch + 1
                      && receipt.planEpoch == binding.planEpoch
                      && receipt.revisionId == receipt.previewManifest == receipt.approvedManifest == None
                    case Commit(_, _, expectedRevisionId, _, preview, _) =>
                      && receipt.kind == CommitKind && receipt.effect == RevisionCommitted
                      && receipt.boundary.gateEpoch == binding.boundary.gateEpoch
                      && receipt.planEpoch == binding.planEpoch + 1
                      && receipt.previewManifest == receipt.approvedManifest == Some(preview)
                      && receipt.revisionId.Some? && ValidId(receipt.revisionId.value)
                      && receipt.revisionId.value != expectedRevisionId
  {
    hide ValidId, ValidDigest, ValidGrants;
  }

  // ---- One accepted receipt ----

  /** An accepted receipt moves the control version by one and exactly one of the two epochs; nothing else. */
  lemma AcceptedMoves(receipt: Receipt, binding: Binding, command: Command)
    requires Accepts(receipt, binding, command)
    ensures var before, after := binding.boundary, receipt.boundary;
            && after.controlVersion == before.controlVersion + 1
            && after.gateEpoch == before.gateEpoch + (if command.Commit? then 0 else 1)
            && receipt.planEpoch == binding.planEpoch + (if command.Commit? then 1 else 0)
            && before == after.(controlVersion := before.controlVersion, gateEpoch := before.gateEpoch)
    ensures receipt.controlVersion == receipt.boundary.controlVersion
    ensures receipt.gateEpoch == receipt.boundary.gateEpoch
    ensures receipt.controllerEpoch == binding.boundary.controllerEpoch
  {
    hide ValidId, ValidDigest, ValidBoundary, ValidGrants, ValidBinding;
  }

  /** The receipt an owner would write, with a command id and a revision id of its own choosing. */
  function Answer(binding: Binding, command: Command, commandId: bytes, revisionId: bytes): Result<Receipt, WireError> {
    var boundary :- ResultingBoundary(binding, command);
    var plan :- ResultingPlan(binding, command);
    Ok(Receipt(true, binding.ownerId, binding.invocationId, binding.bindingId, binding.bindingDigest,
               KindOf(command), commandId, command.idempotencyKey, EffectOf(command),
               boundary.controlVersion, plan, boundary.controllerEpoch, boundary.gateEpoch, boundary,
               if command.Commit? then Some(revisionId) else None,
               if command.Commit? then Some(command.previewManifest) else None,
               if command.Commit? then Some(command.approvedManifest) else None))
  }

  lemma ResultingBoundaryValid(binding: Binding, command: Command)
    requires ValidateCommand(command, binding).Ok? && ResultingBoundary(binding, command).Ok?
    ensures ValidBoundary(ResultingBoundary(binding, command).value)
  {}

  lemma AnswerAccepted(binding: Binding, command: Command, commandId: bytes, revisionId: bytes)
    requires ValidateCommand(command, binding).Ok? && ValidId(commandId) && ValidId(revisionId)
    requires command.Commit? ==> revisionId != command.expectedRevisionId
    requires Answer(binding, command, commandId, revisionId).Ok?
    ensures Accepts(Answer(binding, command, commandId, revisionId).value, binding, command)
  {
    hide ValidId, ValidDigest, ValidBoundary, ValidGrants;
    ResultingBoundaryValid(binding, command);
  }

  /**
   Acceptance, exactly: the command fits the binding and the receipt is the one answer to it, up to
   the owner's choice of a command id and, for a commit, of a fresh revision id.
   */
  lemma AcceptedExactly(receipt: Receipt, binding: Binding, command: Command)
    ensures Accepts(receipt, binding, command)
            <==> ValidateCommand(command, binding).Ok? && ValidId(receipt.commandId)
                 && exists revisionId :: ValidId(revisionId)
                      && (command.Commit? ==> revisionId != command.expectedRevisionId)
                      && Answer(binding, command, receipt.commandId, revisionId) == Ok(receipt)
  {
    hide ValidId, ValidDigest, ValidBoundary, ValidGrants;
    if Accepts(receipt, binding, command) {
      var revisionId := if command.Commit? then receipt.revisionId.value else binding.approvedRevisionId;
      assert Answer(binding, command, receipt.commandId, revisionId) == Ok(receipt);
    } else {
      forall revisionId |
        ValidateCommand(command, binding).Ok? && ValidId(receipt.commandId) && ValidId(revisionId)
        && (command.Commit? ==> revisionId != command.expectedRevisionId)
        && Answer(binding, command, receipt.commandId, revisionId) == Ok(receipt)
        ensures false
      {
        AnswerAccepted(binding, command, receipt.commandId, revisionId);
      }
    }
  }

  /** Two receipts accepted for one binding and command differ only in those two choices. */
  lemma AcceptedTwice(a: Receipt, b: Receipt, binding: Binding, command: Command)
    requires Accepts(a, binding, command) && Accepts(b, binding, command)
    ensures a.(commandId := b.commandId, revisionId := b.revisionId) == b
    ensures !command.Commit? ==> a.revisionId == b.revisionId
  {}

  // ---- Chains ----

  datatype Link = Link(binding: Binding, command: Command, receipt: Receipt)

  /** The binding a receipt leads to stands at its boundary and plan epoch; the rest of it may change. */
  predicate Follows(receipt: Receipt, next: Binding) {
    next.boundary == receipt.boundary && next.planEpoch == receipt.planEpoch
  }

  predicate Chain(links: seq<Link>) {
    && (forall k :: 0 <= k < |links| ==> Accepts(links[k].receipt, links[k].binding, links[k].command))
    && (forall k :: 0 <= k < |links| - 1 ==> Follows(links[k].receipt, links[k + 1].binding))
  }

  function Commits(links: seq<Link>): (n: nat)
    ensures n <= |links|
  {
    if links == [] then 0 else Commits(links[..|links| - 1]) + if links[|links| - 1].command.Commit? then 1 else 0
  }

  /** What a chain conserves, up to its link `k`. */
  lemma {:induction false} Conserved(links: seq<Link>, k: nat)
    requires Chain(links) && k < |links|
    ensures var first, last := links[0].binding, links[k].receipt;
            && last.boundary.controlVersion == first.boundary.controlVersion + k + 1
            && last.planEpoch == first.planEpoch + Commits(links[..k + 1])
            && last.boundary.gateEpoch == first.boundary.gateEpoch + (k + 1 - Commits(links[..k + 1]))
            && last.boundary.(controlVersion := first.boundary.controlVersion, gateEpoch := first.boundary.gateEpoch)
               == first.boundary
  {
    hide Accepts;
    var link := links[k];
    AcceptedMoves(link.receipt, link.binding, link.command);
    assert links[..k + 1][..k] == links[..k];
    if k > 0 {
      Conserved(links, k - 1);
    }
  }

  /** `control_version - gate_epoch - plan_epoch` never changes, and the controller epoch never does. */
  lemma ChainConserves(links: seq<Link>, k: nat)
    requires Chain(links) && k < |links|
    ensures var first, last := links[0].binding, links[k].receipt;
            && last.controlVersion - last.gateEpoch - last.planEpoch
               == first.boundary.controlVersion - first.boundary.gateEpoch - first.planEpoch
            && last.controllerEpoch == first.boundary.controllerEpoch
  {
    hide Accepts;
    Conserved(links, k);
    AcceptedMoves(links[k].receipt, links[k].binding, links[k].command);
  }

  lemma {:induction false} LaterVersion(links: seq<Link>, i: nat, j: nat)
    requires Chain(links) && i <= j < |links|
    ensures links[j].binding.boundary.controlVersion == links[i].binding.boundary.controlVersion + (j - i)
  {
    hide Accepts;
    if i < j {
      LaterVersion(links, i, j - 1);
      AcceptedMoves(links[j - 1].receipt, links[j - 1].binding, links[j - 1].command);
      assert Follows(links[j - 1].receipt, links[j - 1 + 1].binding);
    }
  }

  /** A command is single-use: valid at one binding of a chain, it is refused at every other. */
  lemma CommandOnce(links: seq<Link>, i: nat, j: nat, command: Command)
    requires Chain(links) && i < j < |links|
    requires ValidateCommand(command, links[i].binding).Ok?
    ensures ValidateCommand(command, links[j].binding).Err?
  {
    hide Accepts;
    LaterVersion(links, i, j);
  }

  /** So is a receipt: accepted at one binding, no later command is answered by it. */
  lemma ReceiptOnce(links: seq<Link>, i: nat, j: nat, command: Command)
    requires Chain(links) && i < j < |links|
    ensures !Accepts(links[i].receipt, links[j].binding, command)
  {
    LaterVersion(links, i, j);
    AcceptedMoves(links[i].receipt, links[i].binding, links[i].command);
    if Accepts(links[i].receipt, links[j].binding, command) {
      AcceptedMoves(links[i].receipt, links[j].binding, command);
    }
  }
}
