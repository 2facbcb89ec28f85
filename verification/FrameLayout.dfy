/**
 The publication frame as another implementation would have to write it: the order and the bytes of its
 fields, spelled out.
 */
module FrameLayout {
  import opened Bytes
  import opened Identifiers
  import opened OwnerWire
  import opened PublicationFrame

  /** A text after its length. */
  function Lp(text: bytes): bytes {
    BigEndian(|text|, 8) + text
  }

  function Int(n: u64): bytes {
    BigEndian(n, 8)
  }

  function Raw(digest: bytes): bytes
    requires ValidDigest(digest)
  {
    Packed(digest)
  }

  /** The most significant byte comes first. */
  lemma IntBytes(n: u64)
    ensures Int(n) == [(n / 0x100_0000_0000_0000 % 256) as byte, (n / 0x1_0000_0000_0000 % 256) as byte,
                       (n / 0x100_0000_0000 % 256) as byte, (n / 0x1_0000_0000 % 256) as byte,
                       (n / 0x100_0000 % 256) as byte, (n / 0x1_0000 % 256) as byte, (n / 256 % 256) as byte,
                       (n % 256) as byte]
  {
    Div256(n);
    LastByte(n, 8);
    LastByte(n / 256, 7);
    LastByte(n / 0x1_0000, 6);
    LastByte(n / 0x100_0000, 5);
    LastByte(n / 0x1_0000_0000, 4);
    LastByte(n / 0x100_0000_0000, 3);
    LastByte(n / 0x1_0000_0000_0000, 2);
    LastByte(n / 0x100_0000_0000_0000, 1);
  }

  lemma LastByte(n: nat, width: nat)
    requires width > 0
    ensures BigEndian(n, width) == BigEndian(n / 256, width - 1) + [(n % 256) as byte]
  {}

  lemma Div256(n: nat)
    ensures n / 256 / 256 == n / 0x1_0000 && n / 0x1_0000 / 256 == n / 0x100_0000
    ensures n / 0x100_0000 / 256 == n / 0x1_0000_0000 && n / 0x1_0000_0000 / 256 == n / 0x100_0000_0000
    ensures n / 0x100_0000_0000 / 256 == n / 0x1_0000_0000_0000
    ensures n / 0x1_0000_0000_0000 / 256 == n / 0x100_0000_0000_0000
  {}

  lemma EncodeCons(piece: Piece, rest: seq<Piece>)
    requires ValidPiece(piece) && AllValid(rest)
    ensures AllValid([piece] + rest) && EncodePieces([piece] + rest) == EncodePiece(piece) + EncodePieces(rest)
  {
    hide EncodePiece, ValidPiece;
    assert ([piece] + rest)[1..] == rest;
  }

  lemma EncodeSeven(a: Piece, b: Piece, c: Piece, d: Piece, e: Piece, f: Piece, g: Piece, rest: seq<Piece>)
    requires ValidPiece(a) && ValidPiece(b) && ValidPiece(c) && ValidPiece(d) && ValidPiece(e) && ValidPiece(f)
    requires ValidPiece(g) && AllValid(rest)
    ensures AllValid([a, b, c, d, e, f, g] + rest)
    ensures EncodePieces([a, b, c, d, e, f, g] + rest)
            == EncodePiece(a) + (EncodePiece(b) + (EncodePiece(c) + (EncodePiece(d) + (EncodePiece(e) + (EncodePiece(f)
               + (EncodePiece(g) + EncodePieces(rest)))))))
  {
    hide EncodePiece, EncodePieces, ValidPiece;
    var all := [a, b, c, d, e, f, g];
    EncodeCons(g, rest);
    EncodeCons(f, [g] + rest);
    EncodeCons(e, [f] + ([g] + rest));
    EncodeCons(d, [e] + ([f] + ([g] + rest)));
    EncodeCons(c, [d] + ([e] + ([f] + ([g] + rest))));
    EncodeCons(b, [c] + ([d] + ([e] + ([f] + ([g] + rest)))));
    EncodeCons(a, [b] + ([c] + ([d] + ([e] + ([f] + ([g] + rest))))));
    assert all + rest == [a] + ([b] + ([c] + ([d] + ([e] + ([f] + ([g] + rest))))));
  }

  /** Where a boundary stands, in front of the rest. */
  function PlaceBytes(b: Boundary, rest: bytes): bytes
    requires ValidBoundary(b)
  {
    Lp(b.runId) + (Lp(b.episodeId) + (Lp(b.agentId) + (Lp(b.stateId) + (Int(b.generation) + (Raw(b.observation)
    + (Raw(b.catalog) + rest))))))
  }

  function PlanBytes(b: Boundary): bytes
    requires ValidBoundary(b)
  {
    Lp(b.adapterRevision) + (Lp(b.modelRevision) + (Raw(b.configuration) + (Raw(b.outputSchema) + (Int(b.controllerEpoch)
    + (Int(b.gateEpoch) + (Int(b.controlVersion) + []))))))
  }

  lemma PlanLayout(b: Boundary)
    requires ValidBoundary(b)
    ensures AllValid(PlanPieces(b)) && EncodePieces(PlanPieces(b)) == PlanBytes(b)
  {
    hide EncodePieces, AllValid, BigEndian, Packed, ValidDigest, ValidId;
    BoundaryShort(b);
    NothingEncoded();
    EncodeSeven(Text(b.adapterRevision), Text(b.modelRevision), Digest(b.configuration), Digest(b.outputSchema),
                Number(b.controllerEpoch), Number(b.gateEpoch), Number(b.controlVersion), []);
    assert PlanPieces(b) + [] == PlanPieces(b);
  }

  lemma NothingEncoded()
    ensures AllValid([]) && EncodePieces([]) == []
  {}

  lemma PlaceLayout(b: Boundary, rest: seq<Piece>)
    requires ValidBoundary(b) && AllValid(rest)
    ensures AllValid(PlacePieces(b) + rest) && EncodePieces(PlacePieces(b) + rest) == PlaceBytes(b, EncodePieces(rest))
  {
    hide EncodePieces, AllValid, BigEndian, Packed, ValidDigest, ValidId;
    BoundaryShort(b);
    EncodeSeven(Text(b.runId), Text(b.episodeId), Text(b.agentId), Text(b.stateId), Number(b.generation),
                Digest(b.observation), Digest(b.catalog), rest);
  }

  /** The whole frame: the domain, eight fields of the request, and the fourteen of its boundary. */
  function FrameBytes(r: Request): bytes
    requires ValidRequest(r)
  {
    Ascii("ascension.context-control.draft-publication.request-digest.v1") + [0]
    + (Lp(r.schemaVersion) + (Lp(r.requestId) + (Lp(r.draftId) + (Int(r.draftVersion) + (Int(r.ownerStateVersion)
       + (Lp(r.baseRevisionId) + (Lp(r.bindingId) + (Raw(r.bindingDigest)
          + PlaceBytes(r.boundary, PlanBytes(r.boundary))))))))))
  }

  /** What is hashed is exactly these fields in this order. */
  lemma FrameIs(r: Request)
    requires ValidRequest(r)
    ensures AllValid(Pieces(r)) && Encode(r) == FrameBytes(r)
  {
    hide EncodePieces, AllValid, BigEndian, Packed, ValidDigest, ValidBoundary, ValidId, PlacePieces, PlanPieces;
    hide PlaceBytes, PlanBytes, Ascii;
    SchemaShort();
    PlanLayout(r.boundary);
    PlaceLayout(r.boundary, PlanPieces(r.boundary));
    var rest := BoundaryPieces(r.boundary);
    IdsShort(r);
    EncodeCons(Digest(r.bindingDigest), rest);
    EncodeSeven(Text(r.schemaVersion), Text(r.requestId), Text(r.draftId), Number(r.draftVersion),
                Number(r.ownerStateVersion), Text(r.baseRevisionId), Text(r.bindingId), [Digest(r.bindingDigest)] + rest);
    assert Pieces(r) == [Text(r.schemaVersion), Text(r.requestId), Text(r.draftId), Number(r.draftVersion),
                         Number(r.ownerStateVersion), Text(r.baseRevisionId), Text(r.bindingId)]
                        + ([Digest(r.bindingDigest)] + rest);
  }

  lemma IdsShort(r: Request)
    requires ValidRequest(r)
    ensures |r.requestId| < U64_LIMIT && |r.draftId| < U64_LIMIT && |r.baseRevisionId| < U64_LIMIT
    ensures |r.bindingId| < U64_LIMIT
  {
    hide ValidBoundary, ValidDigest;
  }

  lemma BoundaryShort(b: Boundary)
    requires ValidBoundary(b)
    ensures |b.runId| < U64_LIMIT && |b.episodeId| < U64_LIMIT && |b.agentId| < U64_LIMIT && |b.stateId| < U64_LIMIT
    ensures |b.adapterRevision| < U64_LIMIT && |b.modelRevision| < U64_LIMIT
  {
    hide ValidDigest;
  }

  lemma SchemaShort()
    ensures |SCHEMA| < U64_LIMIT
  {}

  /** Two digits a byte, the more significant first, and letters count from ten. */
  lemma PackedAt(digest: bytes, k: nat)
    requires ValidDigest(digest) && k < 32
    ensures Raw(digest)[k] as nat == Nibble(digest[2 * k]) * 16 + Nibble(digest[2 * k + 1])
  {}

  function Nibble(b: byte): int {
    if b <= '9' as byte then b as int - '0' as int else b as int - 'a' as int + 10
  }

  /** A request has a frame exactly when every one of its fields is in order. */
  lemma RequestFields(r: Request)
    ensures ValidRequest(r)
            <==> && r.schemaVersion == Ascii("ascension.harness.context-owner-draft-publication-request.v1")
                 && ValidId(r.requestId) && ValidId(r.draftId) && ValidId(r.baseRevisionId) && ValidId(r.bindingId)
                 && ValidDigest(r.bindingDigest) && r.draftVersion >= 1 && r.ownerStateVersion >= 1
                 && ValidId(r.boundary.runId) && ValidId(r.boundary.episodeId) && ValidId(r.boundary.agentId)
                 && ValidId(r.boundary.stateId) && ValidId(r.boundary.adapterRevision)
                 && ValidId(r.boundary.modelRevision) && ValidDigest(r.boundary.observation)
                 && ValidDigest(r.boundary.catalog) && ValidDigest(r.boundary.configuration)
                 && ValidDigest(r.boundary.outputSchema) && r.boundary.generation >= 1
                 && r.boundary.controllerEpoch >= 1 && r.boundary.gateEpoch >= 1 && r.boundary.controlVersion >= 1
  {
    hide ValidId, ValidDigest;
  }
}
