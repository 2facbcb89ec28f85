/** The boundary and binding records owner publications and control receipts share. */
module OwnerWire {
  import opened Bytes
  import opened Identifiers

  datatype Boundary = Boundary(
    runId: bytes, episodeId: bytes, agentId: bytes, stateId: bytes, generation: u64,
    observation: bytes, catalog: bytes, adapterRevision: bytes, modelRevision: bytes,
    configuration: bytes, outputSchema: bytes,
    controllerEpoch: u64, gateEpoch: u64, controlVersion: u64)

  predicate ValidBoundary(b: Boundary) {
    && ValidId(b.runId) && ValidId(b.episodeId) && ValidId(b.agentId) && ValidId(b.stateId)
    && ValidId(b.adapterRevision) && ValidId(b.modelRevision)
    && ValidDigest(b.observation) && ValidDigest(b.catalog)
    && ValidDigest(b.configuration) && ValidDigest(b.outputSchema)
    && b.generation > 0 && b.controllerEpoch > 0 && b.gateEpoch > 0 && b.controlVersion > 0
  }

  datatype Grants = Grants(metadataRead: bool, contentRead: bool, edit: bool, control: bool)

  predicate ValidGrants(g: Grants) {
    (g.contentRead ==> g.metadataRead) && (g.edit ==> g.contentRead) && (g.control ==> g.metadataRead)
  }

  /** `names` are the identifiers of a binding that control receipts do not repeat. */
  datatype Binding = Binding(
    schemaKnown: bool, ownerId: bytes, invocationId: bytes, bindingId: bytes, bindingVersion: u64,
    bindingDigest: bytes, available: bool, workflowRunId: bytes, definitionDigest: bytes, names: seq<bytes>,
    boundary: Boundary, leaseEpoch: u64, approvedRevisionId: bytes, planEpoch: u64, grants: Grants)

  predicate ValidBinding(b: Binding) {
    && b.schemaKnown
    && ValidId(b.ownerId) && ValidId(b.invocationId) && ValidId(b.bindingId) && ValidId(b.workflowRunId)
    && ValidId(b.approvedRevisionId) && (forall k :: 0 <= k < |b.names| ==> ValidId(b.names[k]))
    && ValidDigest(b.bindingDigest) && ValidDigest(b.definitionDigest)
    && ValidBoundary(b.boundary) && ValidGrants(b.grants)
    && b.bindingVersion > 0 && b.leaseEpoch > 0 && b.planEpoch > 0
    && b.workflowRunId == b.boundary.runId
    && (b.available ==> b.grants.metadataRead)
  }
}
