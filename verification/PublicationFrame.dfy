/**
 The binary frame a publication request is digested from: a domain, then twenty-two fields, each a
 length-prefixed text, a big-endian integer or the 32 raw bytes of a digest. A decoder recovers every
 valid request from its frame, so no two of them share one. The digest of the frame is not modelled.
 */
module PublicationFrame {
  import opened Bytes
  import opened Identifiers
  import opened OwnerWire

  datatype Request = Request(
    schemaVersion: bytes, requestId: bytes, draftId: bytes, draftVersion: u64, ownerStateVersion: u64,
    baseRevisionId: bytes, bindingId: bytes, bindingDigest: bytes, boundary: Boundary)

  datatype WireError = InvalidRequest | InvalidDigest | OutOfBounds

  const SCHEMA: bytes := Ascii("ascension.harness.context-owner-draft-publication-request.v1")
  const DOMAIN: bytes := Ascii("ascension.context-control.draft-publication.request-digest.v1") + [0]

  predicate ValidRequest(r: Request) {
    && r.schemaVersion == SCHEMA
    && ValidId(r.requestId) && ValidId(r.draftId) && ValidId(r.baseRevisionId) && ValidId(r.bindingId)
    && ValidDigest(r.bindingDigest) && ValidBoundary(r.boundary)
    && r.draftVersion > 0 && r.ownerStateVersion > 0
  }

  // ---- Fields ----

  datatype Kind = TextKind | NumberKind | DigestKind

  datatype Piece = Text(text: bytes) | Number(number: u64) | Digest(hex: bytes)

  function KindOf(piece: Piece): Kind {
    match piece
    case Text(_) => TextKind
    case Number(_) => NumberKind
    case Digest(_) => DigestKind
  }

  predicate ValidPiece(piece: Piece) {
    match piece
    case Text(text) => |text| < U64_LIMIT
    case Number(_) => true
    case Digest(hex) => ValidDigest(hex)
  }

  predicate AllValid(pieces: seq<Piece>) {
    forall k :: 0 <= k < |pieces| ==> ValidPiece(pieces[k])
  }

  function BigEndian(n: nat, width: nat): (s: bytes)
    ensures |s| == width
  {
    if width == 0 then [] else BigEndian(n / 256, width - 1) + [(n % 256) as byte]
  }

  function FromBigEndian(s: bytes): nat {
    if s == [] then 0 else FromBigEndian(s[..|s| - 1]) * 256 + s[|s| - 1] as nat
  }

  function Power256(k: nat): nat {
    if k == 0 then 1 else 256 * Power256(k - 1)
  }

  function LowerDigit(b: byte): nat
    requires IsLowerHex(b)
  {
    HexDigit(b)
  }

  function HexByte(n: nat): (b: byte)
    requires n < 16
    ensures IsLowerHex(b) && LowerDigit(b) == n
  {
    if n < 10 then (n + 48) as byte else (n + 87) as byte
  }

  /** The bytes a string of hexadecimal pairs names. */
  function Packed(hex: bytes): (raw: bytes)
    requires |hex| % 2 == 0 && forall k :: 0 <= k < |hex| ==> IsLowerHex(hex[k])
    ensures |raw| == |hex| / 2
    ensures forall k :: 0 <= k < |raw| ==> raw[k] as nat == LowerDigit(hex[2 * k]) * 16 + LowerDigit(hex[2 * k + 1])
  {
    seq(|hex| / 2, k requires 0 <= k < |hex| / 2 => (LowerDigit(hex[2 * k]) * 16 + LowerDigit(hex[2 * k + 1])) as byte)
  }

  function Unpacked(raw: bytes): (hex: bytes)
    ensures |hex| == 2 * |raw| && forall k :: 0 <= k < |hex| ==> IsLowerHex(hex[k])
  {
    seq(2 * |raw|, k requires 0 <= k < 2 * |raw| =>
      if k % 2 == 0 then HexByte(raw[k / 2] as nat / 16) else HexByte(raw[k / 2] as nat % 16))
  }

  function EncodePiece(piece: Piece): bytes
    requires ValidPiece(piece)
  {
    match piece
    case Text(text) => BigEndian(|text|, 8) + text
    case Number(number) => BigEndian(number, 8)
    case Digest(hex) => Packed(hex)
  }

  function EncodePieces(pieces: seq<Piece>): bytes
    requires AllValid(pieces)
  {
    if pieces == [] then [] else EncodePiece(pieces[0]) + EncodePieces(pieces[1..])
  }

  // ---- The frame ----

  function Pieces(r: Request): seq<Piece> {
    [ Text(r.schemaVersion), Text(r.requestId), Text(r.draftId), Number(r.draftVersion), Number(r.ownerStateVersion),
      Text(r.baseRevisionId), Text(r.bindingId), Digest(r.bindingDigest) ] + BoundaryPieces(r.boundary)
  }

  function BoundaryPieces(b: Boundary): seq<Piece> {
    PlacePieces(b) + PlanPieces(b)
  }

  /** Where a boundary stands. */
  function PlacePieces(b: Boundary): seq<Piece> {
    [ Text(b.runId), Text(b.episodeId), Text(b.agentId), Text(b.stateId), Number(b.generation),
      Digest(b.observation), Digest(b.catalog) ]
  }

  /** What runs there, and how far it has come. */
  function PlanPieces(b: Boundary): seq<Piece> {
    [ Text(b.adapterRevision), Text(b.modelRevision), Digest(b.configuration), Digest(b.outputSchema),
      Number(b.controllerEpoch), Number(b.gateEpoch), Number(b.controlVersion) ]
  }

  const KINDS: seq<Kind> :=
    [ TextKind, TextKind, TextKind, NumberKind, NumberKind, TextKind, TextKind, DigestKind,
      TextKind, TextKind, TextKind, TextKind, NumberKind, DigestKind, DigestKind, TextKind, TextKind,
      DigestKind, DigestKind, NumberKind, NumberKind, NumberKind ]

  function Encode(r: Request): bytes
    requires AllValid(Pieces(r))
  {
    DOMAIN + EncodePieces(Pieces(r))
  }

  // ---- The decoder ----

  datatype Taken<T> = Taken(value: T, rest: bytes)

  function DecodePiece(kind: Kind, s: bytes): (r: Option<Taken<Piece>>)
    ensures r.Some? ==> KindOf(r.value.value) == kind && ValidPiece(r.value.value)
  {
    match kind
    case TextKind =>
      if |s| < 8 then None
      else
        var n := FromBigEndian(s[..8]);
        if |s| - 8 < n || n >= U64_LIMIT then None else Some(Taken(Text(s[8..8 + n]), s[8 + n..]))
    case NumberKind =>
      if |s| < 8 || FromBigEndian(s[..8]) >= U64_LIMIT then None
      else Some(Taken(Number(FromBigEndian(s[..8])), s[8..]))
    case DigestKind =>
      if |s| < 32 then None else Some(Taken(Digest(Unpacked(s[..32])), s[32..]))
  }

  function DecodePieces(kinds: seq<Kind>, s: bytes): (r: Option<Taken<seq<Piece>>>)
    ensures r.Some? ==> AllValid(r.value.value) && |r.value.value| == |kinds|
    ensures r.Some? ==> forall k :: 0 <= k < |kinds| ==> KindOf(r.value.value[k]) == kinds[k]
  {
    if kinds == [] then Some(Taken([], s))
    else
      match DecodePiece(kinds[0], s)
      case None => None
      case Some(first) =>
        match DecodePieces(kinds[1..], first.rest)
        case None => None
        case Some(more) => Some(Taken([first.value] + more.value, more.rest))
  }

  function TextIn(piece: Piece): bytes {
    if piece.Text? then piece.text else []
  }

  function NumberIn(piece: Piece): u64 {
    if piece.Number? then piece.number else 0
  }

  function HexIn(piece: Piece): bytes {
    if piece.Digest? then piece.hex else []
  }

  function Assemble(p: seq<Piece>): Request
    requires |p| == 22
  {
    Request(TextIn(p[0]), TextIn(p[1]), TextIn(p[2]), NumberIn(p[3]), NumberIn(p[4]), TextIn(p[5]), TextIn(p[6]),
            HexIn(p[7]),
            Boundary(TextIn(p[8]), TextIn(p[9]), TextIn(p[10]), TextIn(p[11]), NumberIn(p[12]),
                     HexIn(p[13]), HexIn(p[14]),
                     TextIn(p[15]), TextIn(p[16]), HexIn(p[17]), HexIn(p[18]),
                     NumberIn(p[19]), NumberIn(p[20]), NumberIn(p[21])))
  }

  function Decode(frame: bytes): Option<Request> {
    if !(DOMAIN <= frame) then None
    else
      match DecodePieces(KINDS, frame[|DOMAIN|..])
      case None => None
      case Some(taken) => if taken.rest == [] then Some(Assemble(taken.value)) else None
  }

  // ---- Integers and digests ----

  lemma {:induction false} BigEndianRoundTrip(n: nat, width: nat)
    requires n < Power256(width)
    ensures FromBigEndian(BigEndian(n, width)) == n
  {
    if width > 0 {
      var s := BigEndian(n, width);
      BigEndianRoundTrip(n / 256, width - 1);
      assert s[..|s| - 1] == BigEndian(n / 256, width - 1);
    }
  }

  lemma {:induction false} FromBigEndianRoundTrip(s: bytes)
    ensures FromBigEndian(s) < Power256(|s|) && BigEndian(FromBigEndian(s), |s|) == s
  {
    if s != [] {
      FromBigEndianRoundTrip(s[..|s| - 1]);
    }
  }

  lemma EightBytes()
    ensures Power256(8) == U64_LIMIT
  {
    assert Power256(4) == 0x1_0000_0000;
    assert Power256(6) == 0x1_0000_0000_0000;
  }

  /** A lower-case digest and its raw bytes determine each other. */
  lemma PackedRoundTrip(hex: bytes)
    requires ValidDigest(hex)
    ensures Unpacked(Packed(hex)) == hex
  {
    hide LowerDigit, HexByte, Unpacked, Packed;
    var raw := Packed(hex);
    forall j | 0 <= j < 64 ensures Unpacked(raw)[j] == hex[j] {
      PackedPair(hex, j / 2);
      assert j == 2 * (j / 2) || j == 2 * (j / 2) + 1;
    }
  }

  lemma PackedPair(hex: bytes, k: nat)
    requires ValidDigest(hex) && k < 32
    ensures Unpacked(Packed(hex))[2 * k] == hex[2 * k]
    ensures Unpacked(Packed(hex))[2 * k + 1] == hex[2 * k + 1]
  {
    var high, low := LowerDigit(hex[2 * k]), LowerDigit(hex[2 * k + 1]);
    var b := Packed(hex)[k] as nat;
    assert b == high * 16 + low && b / 16 == high && b % 16 == low;
    assert (2 * k) / 2 == k && (2 * k + 1) / 2 == k;
    HexUnique(hex[2 * k]);
    HexUnique(hex[2 * k + 1]);
  }

  lemma HexUnique(b: byte)
    requires IsLowerHex(b)
    ensures HexByte(LowerDigit(b)) == b
  {}

  lemma UnpackedRoundTrip(raw: bytes)
    ensures Packed(Unpacked(raw)) == raw
  {
    hide LowerDigit, Unpacked;
    var hex := Unpacked(raw);
    forall k | 0 <= k < |raw| ensures Packed(hex)[k] == raw[k] {
      UnpackedPair(raw, k);
    }
  }

  lemma UnpackedPair(raw: bytes, k: nat)
    requires k < |raw|
    ensures LowerDigit(Unpacked(raw)[2 * k]) == raw[k] as nat / 16
    ensures LowerDigit(Unpacked(raw)[2 * k + 1]) == raw[k] as nat % 16
  {
    assert (2 * k + 1) / 2 == k && (2 * k + 1) % 2 == 1;
  }

  // ---- Pieces ----

  lemma PieceDecodes(piece: Piece, rest: bytes)
    requires ValidPiece(piece)
    ensures DecodePiece(KindOf(piece), EncodePiece(piece) + rest) == Some(Taken(piece, rest))
  {
    hide BigEndian, FromBigEndian, Packed, Unpacked, Power256;
    EightBytes();
    match piece
    case Text(text) =>
      BigEndianRoundTrip(|text|, 8);
      Cut(BigEndian(|text|, 8), text, rest);
    case Number(number) =>
      BigEndianRoundTrip(number, 8);
      Cut([], BigEndian(number, 8), rest);
      assert [] + BigEndian(number, 8) == BigEndian(number, 8);
    case Digest(hex) =>
      PackedRoundTrip(hex);
      Cut([], Packed(hex), rest);
      assert [] + Packed(hex) == Packed(hex);
  }

  lemma PieceEncodes(kind: Kind, s: bytes)
    requires DecodePiece(kind, s).Some?
    ensures var taken := DecodePiece(kind, s).value;
            s == EncodePiece(taken.value) + taken.rest
  {
    hide BigEndian, FromBigEndian, Packed, Unpacked;
    match kind
    case TextKind =>
      FromBigEndianRoundTrip(s[..8]);
      var n := FromBigEndian(s[..8]);
      assert s == s[..8] + s[8..8 + n] + s[8 + n..];
    case NumberKind =>
      FromBigEndianRoundTrip(s[..8]);
      assert s == s[..8] + s[8..];
    case DigestKind =>
      UnpackedRoundTrip(s[..32]);
      assert s == s[..32] + s[32..];
  }

  lemma {:induction false} PiecesDecode(pieces: seq<Piece>, kinds: seq<Kind>, rest: bytes)
    requires AllValid(pieces) && |kinds| == |pieces|
    requires forall k :: 0 <= k < |kinds| ==> kinds[k] == KindOf(pieces[k])
    ensures DecodePieces(kinds, EncodePieces(pieces) + rest) == Some(Taken(pieces, rest))
  {
    if pieces == [] {
      assert EncodePieces(pieces) + rest == rest;
    } else {
      var more := EncodePieces(pieces[1..]) + rest;
      Assoc(EncodePiece(pieces[0]), EncodePieces(pieces[1..]), rest);
      PieceDecodes(pieces[0], more);
      PiecesDecode(pieces[1..], kinds[1..], rest);
      assert [pieces[0]] + pieces[1..] == pieces;
    }
  }

  lemma {:induction false} PiecesEncode(kinds: seq<Kind>, s: bytes)
    requires DecodePieces(kinds, s).Some?
    ensures var taken := DecodePieces(kinds, s).value;
            s == EncodePieces(taken.value) + taken.rest
  {
    if kinds != [] {
      var first := DecodePiece(kinds[0], s).value;
      var more := DecodePieces(kinds[1..], first.rest).value;
      PieceEncodes(kinds[0], s);
      PiecesEncode(kinds[1..], first.rest);
      assert ([first.value] + more.value)[1..] == more.value;
      Assoc(EncodePiece(first.value), EncodePieces(more.value), more.rest);
    }
  }

  // ---- The whole frame ----

  /** The order of the fields is the order the decoder reads them in. */
  lemma PiecesKinds(r: Request)
    ensures |Pieces(r)| == |KINDS| && forall k :: 0 <= k < |KINDS| ==> KINDS[k] == KindOf(Pieces(r)[k])
    ensures ValidRequest(r) ==> AllValid(Pieces(r))
  {
    hide ValidDigest;
  }

  lemma PiecesAssemble(r: Request)
    ensures |Pieces(r)| == 22 && Assemble(Pieces(r)) == r
  {}

  lemma AssembledPieces(p: seq<Piece>)
    requires |p| == |KINDS| && forall k :: 0 <= k < |KINDS| ==> KindOf(p[k]) == KINDS[k]
    ensures Pieces(Assemble(p)) == p
  {}

  lemma FrameReads(r: Request, tail: bytes)
    requires ValidRequest(r)
    ensures AllValid(Pieces(r)) && DOMAIN <= Encode(r) + tail
    ensures DecodePieces(KINDS, (Encode(r) + tail)[|DOMAIN|..]) == Some(Taken(Pieces(r), tail))
  {
    hide Pieces, EncodePieces, DecodePieces;
    PiecesKinds(r);
    var body := EncodePieces(Pieces(r));
    PiecesDecode(Pieces(r), KINDS, tail);
    assert (Encode(r) + tail)[|DOMAIN|..] == body + tail;
  }

  /** Every valid request is recovered from its frame. */
  lemma FrameDecodes(r: Request)
    requires ValidRequest(r)
    ensures AllValid(Pieces(r)) && Decode(Encode(r)) == Some(r)
  {
    hide Pieces, Encode, DecodePieces;
    PiecesKinds(r);
    PiecesAssemble(r);
    FrameReads(r, []);
    assert Encode(r) + [] == Encode(r);
  }

  /** A frame that decodes is the frame of what it decodes to, so a request has one frame only. */
  lemma FrameEncodes(frame: bytes)
    requires Decode(frame).Some?
    ensures AllValid(Pieces(Decode(frame).value)) && Encode(Decode(frame).value) == frame
  {
    var body := frame[|DOMAIN|..];
    PiecesEncode(KINDS, body);
    var pieces := DecodePieces(KINDS, body).value.value;
    AssembledPieces(pieces);
    assert EncodePieces(pieces) + [] == EncodePieces(pieces);
    assert frame == DOMAIN + body;
  }

  /** No frame of a valid request starts the frame of another: equal frames mean equal requests. */
  lemma FramesDiffer(a: Request, b: Request, tail: bytes)
    requires ValidRequest(a) && ValidRequest(b)
    requires AllValid(Pieces(a)) && AllValid(Pieces(b)) && Encode(a) + tail == Encode(b)
    ensures a == b && tail == []
  {
    hide Pieces, Encode, DecodePieces, Assemble;
    PiecesKinds(a);
    PiecesKinds(b);
    PiecesAssemble(a);
    PiecesAssemble(b);
    FrameReads(a, tail);
    FrameReads(b, []);
    assert Encode(b) + [] == Encode(b);
  }

  // ---- Writing the frame ----

  lemma {:induction false} EncodeOneMore(pieces: seq<Piece>, piece: Piece)
    requires AllValid(pieces) && ValidPiece(piece)
    ensures AllValid(pieces + [piece]) && EncodePieces(pieces + [piece]) == EncodePieces(pieces) + EncodePiece(piece)
  {
    hide EncodePiece, ValidPiece;
    var all := pieces + [piece];
    if pieces == [] {
      assert all[1..] == [];
      assert EncodePiece(piece) + EncodePieces([]) == EncodePiece(piece);
    } else {
      assert all[1..] == pieces[1..] + [piece];
      EncodeOneMore(pieces[1..], piece);
      Assoc(EncodePiece(pieces[0]), EncodePieces(pieces[1..]), EncodePiece(piece));
    }
  }

  /** The frame buffer, and the pieces it holds after the domain. */
  class FrameWriter {
    var frame: bytes
    ghost var pieces: seq<Piece>

    ghost predicate Valid()
      reads this
    {
      AllValid(pieces) && frame == DOMAIN + EncodePieces(pieces)
    }

    constructor ()
      ensures Valid() && pieces == []
    {
      frame, pieces := DOMAIN, [];
    }

    method AppendU64(value: u64)
      requires Valid()
      modifies this
      ensures Valid() && pieces == old(pieces) + [Number(value)]
    {
      Grows(pieces, Number(value));
      frame := frame + BigEndian(value, 8);
      pieces := pieces + [Number(value)];
    }

    /** `append_lp`: the length must fit its prefix. */
    method AppendText(value: bytes) returns (r: Result<(), WireError>)
      requires Valid()
      modifies this
      ensures Valid() && (r.Ok? <==> |value| < U64_LIMIT)
      ensures r.Ok? ==> pieces == old(pieces) + [Text(value)]
    {
      hide EncodePieces, AllValid;
      if |value| >= U64_LIMIT {
        return Err(OutOfBounds);
      }
      Grows(pieces, Text(value));
      Assoc(frame, BigEndian(|value|, 8), value);
      frame := frame + BigEndian(|value|, 8);
      frame := frame + value;
      pieces := pieces + [Text(value)];
      r := Ok(());
    }

    /** `append_digest`: two digits a byte, into a fixed buffer. */
    method AppendDigest(value: bytes) returns (r: Result<(), WireError>)
      requires Valid()
      modifies this
      ensures Valid() && (r.Ok? <==> ValidDigest(value))
      ensures r.Ok? ==> pieces == old(pieces) + [Digest(value)]
    {
      hide EncodePieces, AllValid;
      if !ValidDigest(value) {
        return Err(InvalidDigest);
      }
      var raw := new byte[32];
      for k := 0 to 32
        modifies raw
        invariant forall j :: 0 <= j < k ==> raw[j] == Packed(value)[j]
      {
        raw[k] := (LowerDigit(value[2 * k]) * 16 + LowerDigit(value[2 * k + 1])) as byte;
      }
      assert raw[..] == Packed(value);
      Grows(pieces, Digest(value));
      frame := frame + raw[..];
      pieces := pieces + [Digest(value)];
      r := Ok(());
    }

    /** Of a checked boundary no append fails. */
    method AppendPlace(b: Boundary)
      requires Valid() && ValidBoundary(b)
      modifies this
      ensures Valid() && pieces == old(pieces) + PlacePieces(b)
    {
      hide EncodePieces, AllValid, ValidDigest, Valid;
      var step := AppendText(b.runId);
      step := AppendText(b.episodeId);
      step := AppendText(b.agentId);
      step := AppendText(b.stateId);
      AppendU64(b.generation);
      step := AppendDigest(b.observation);
      step := AppendDigest(b.catalog);
    }

    method AppendPlan(b: Boundary)
      requires Valid() && ValidBoundary(b)
      modifies this
      ensures Valid() && pieces == old(pieces) + PlanPieces(b)
    {
      hide EncodePieces, AllValid, ValidDigest, Valid;
      var step := AppendText(b.adapterRevision);
      step := AppendText(b.modelRevision);
      step := AppendDigest(b.configuration);
      step := AppendDigest(b.outputSchema);
      AppendU64(b.controllerEpoch);
      AppendU64(b.gateEpoch);
      AppendU64(b.controlVersion);
    }
  }

  lemma Grows(pieces: seq<Piece>, piece: Piece)
    requires AllValid(pieces) && ValidPiece(piece)
    ensures AllValid(pieces + [piece])
    ensures DOMAIN + EncodePieces(pieces) + EncodePiece(piece) == DOMAIN + EncodePieces(pieces + [piece])
  {
    EncodeOneMore(pieces, piece);
    Assoc(DOMAIN, EncodePieces(pieces), EncodePiece(piece));
  }

  /** The frame `request_digest` hashes, for a request that passes its checks. */
  method RequestFrame(request: Request) returns (r: Result<bytes, WireError>)
    ensures r.Ok? <==> ValidRequest(request)
    ensures r.Ok? ==> AllValid(Pieces(request)) && r.value == Encode(request)
  {
    hide EncodePieces, ValidDigest, ValidBoundary, PlacePieces, PlanPieces;
    if !ValidRequest(request) {
      return Err(InvalidRequest);
    }
    var writer := new FrameWriter();
    var step := writer.AppendText(request.schemaVersion);
    step := writer.AppendText(request.requestId);
    step := writer.AppendText(request.draftId);
    writer.AppendU64(request.draftVersion);
    writer.AppendU64(request.ownerStateVersion);
    step := writer.AppendText(request.baseRevisionId);
    step := writer.AppendText(request.bindingId);
    step := writer.AppendDigest(request.bindingDigest);
    writer.AppendPlace(request.boundary);
    writer.AppendPlan(request.boundary);
    assert writer.pieces == Pieces(request);
    r := Ok(writer.frame);
  }
}
