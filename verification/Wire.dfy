/**
  The datagram formats: a packed 32-bit header (26-bit sequence, 3-bit fragment,
  3-bit fragment count, least significant bits first, little-endian), the
  five-byte repair request, and the parity frame carried as an ordinary packet
  with the reserved sequence number.
*/
module Wire {
  import opened ByteStrings
  import opened Sequences

  const HEADER_LEN := 4
  const MAX_FRAGMENTS := 7
  const REPAIR_REQUEST_LEN := 5
  const REPAIR_ALL_FRAGMENTS_MASK: bv8 := 0x7F
  const MAX_FEC_GROUP_PACKETS := 32
  const FEC_MAGIC: Bytes := [0x49, 0x46, 0x45, 0x43, 0x31]
  const FEC_FIXED_LEN := 10
  const U16_MAX := 0xFFFF

  datatype PacketHeader = PacketHeader(sequence: nat, fragment: nat, fragments: nat)

  datatype Packet = Packet(header: PacketHeader, payload: Bytes)

  datatype RepairRequest = RepairRequest(sequence: nat, missingMask: bv8)

  datatype FecFrame = FecFrame(baseSequence: nat, payloadLengths: seq<nat>, parity: Bytes)

  datatype DecodeError =
    | TooShort(actual: nat)
    | InvalidFragment(fragment: nat, fragments: nat)

  datatype RepairDecodeError =
    | InvalidLength(actual: nat)
    | InvalidSequence(sequence: nat)
    | InvalidMissingMask(mask: bv8)

  datatype FecDecodeError =
    | InvalidPacket(error: DecodeError)
    | InvalidHeader(header: PacketHeader)
    | FecTooShort(actual: nat)
    | InvalidMagic
    | InvalidBaseSequence(sequence: nat)
    | InvalidGroupSize(count: nat)
    | InvalidPayloadLength(length: nat)

  // ---------------------------------------------------------------- little-endian numbers

  function Radix(width: nat): (r: nat)
    ensures r > 0
  {
    if width == 0 then 1 else 256 * Radix(width - 1)
  }

  function LittleEndian(n: nat, width: nat): (bytes: Bytes)
    ensures |bytes| == width
  {
    if width == 0 then [] else [(n % 256) as bv8] + LittleEndian(n / 256, width - 1)
  }

  function FromLittleEndian(bytes: Bytes): nat {
    if bytes == [] then 0 else bytes[0] as nat + 256 * FromLittleEndian(bytes[1..])
  }

  lemma ByteRoundTrip(n: nat)
    requires n < 256
    ensures (n as bv8) as nat == n
  {
    assert n % 256 == n;
  }

  lemma ByteBack(b: bv8)
    ensures (b as nat) as bv8 == b
  {
  }

  lemma SplitNumber(low: nat, high: nat)
    requires low < 256
    ensures (low + 256 * high) % 256 == low && (low + 256 * high) / 256 == high
  {
  }

  lemma {:induction false} NumberRoundTrip(n: nat, width: nat)
    requires n < Radix(width)
    ensures FromLittleEndian(LittleEndian(n, width)) == n
  {
    if width != 0 {
      ByteRoundTrip(n % 256);
      NumberRoundTrip(n / 256, width - 1);
      assert LittleEndian(n, width)[1..] == LittleEndian(n / 256, width - 1);
    }
  }

  lemma {:induction false} BytesRoundTrip(bytes: Bytes)
    ensures FromLittleEndian(bytes) < Radix(|bytes|)
    ensures LittleEndian(FromLittleEndian(bytes), |bytes|) == bytes
  {
    if bytes != [] {
      BytesRoundTrip(bytes[1..]);
      SplitNumber(bytes[0] as nat, FromLittleEndian(bytes[1..]));
      ByteBack(bytes[0]);
      assert bytes == [bytes[0]] + bytes[1..];
    }
  }

  lemma RadixValues()
    ensures Radix(2) == 0x1_0000 && Radix(4) == 0x1_0000_0000
  {
    assert Radix(1) == 256 && Radix(2) == 256 * 256 && Radix(3) == 256 * 256 * 256;
  }

  // ---------------------------------------------------------------- packets

  /** What the encoder asserts; a fragment count above seven does not fit its three bits. */
  predicate ValidHeader(h: PacketHeader) {
    h.sequence <= MAX_SEQUENCE && h.fragment < h.fragments <= MAX_FRAGMENTS
  }

  function HeaderWord(h: PacketHeader): nat {
    h.sequence + 0x400_0000 * h.fragment + 0x2000_0000 * h.fragments
  }

  function EncodePacket(h: PacketHeader, payload: Bytes): Bytes
    requires ValidHeader(h)
  {
    LittleEndian(HeaderWord(h), HEADER_LEN) + payload
  }

  function UnpackHeader(word: nat): PacketHeader {
    PacketHeader(word % 0x400_0000, (word / 0x400_0000) % 8, (word / 0x2000_0000) % 8)
  }

  function DecodePacket(data: Bytes): Result<Packet, DecodeError> {
    if |data| < HEADER_LEN then Err(TooShort(|data|)) else
    var h := UnpackHeader(FromLittleEndian(data[..HEADER_LEN]));
    if h.fragments == 0 || h.fragment >= h.fragments then Err(InvalidFragment(h.fragment, h.fragments))
    else Ok(Packet(h, data[HEADER_LEN..]))
  }

  lemma HeaderUnpacks(h: PacketHeader)
    requires ValidHeader(h)
    ensures UnpackHeader(HeaderWord(h)) == h && HeaderWord(h) < 0x1_0000_0000
  {
    var tail := h.fragment + 8 * h.fragments;
    assert HeaderWord(h) == h.sequence + 0x400_0000 * tail;
    assert HeaderWord(h) / 0x400_0000 == tail && tail / 8 == h.fragments;
    assert HeaderWord(h) / 0x2000_0000 == tail / 8;
  }

  lemma HeaderRepacks(word: nat)
    requires word < 0x1_0000_0000
    ensures HeaderWord(UnpackHeader(word)) == word
  {
    var tail := word / 0x400_0000;
    assert tail / 8 == word / 0x2000_0000 < 8;
  }

  lemma PacketDecodesToItself(h: PacketHeader, payload: Bytes)
    requires ValidHeader(h)
    ensures DecodePacket(EncodePacket(h, payload)) == Ok(Packet(h, payload))
  {
    RadixValues();
    HeaderUnpacks(h);
    NumberRoundTrip(HeaderWord(h), HEADER_LEN);
    var data := EncodePacket(h, payload);
    assert data[..HEADER_LEN] == LittleEndian(HeaderWord(h), HEADER_LEN);
    assert data[HEADER_LEN..] == payload;
  }

  lemma DecodedPacketReencodes(data: Bytes)
    requires DecodePacket(data).Ok?
    ensures var p := DecodePacket(data).value;
      ValidHeader(p.header) && EncodePacket(p.header, p.payload) == data
  {
    RadixValues();
    var front := data[..HEADER_LEN];
    BytesRoundTrip(front);
    HeaderRepacks(FromLittleEndian(front));
    assert data == front + data[HEADER_LEN..];
  }

  /** A datagram is refused for being short, or for its header's fragment numbers, which the error tells. */
  lemma RefusedPacketTellsWhy(data: Bytes)
    requires DecodePacket(data).Err?
    ensures |data| < 4 ==> DecodePacket(data) == Err(TooShort(|data|))
    ensures |data| >= 4 ==> exists h: PacketHeader ::
      && data[..4] == LittleEndian(HeaderWord(h), 4) && h.fragment < 8 && h.fragments < 8
      && h.fragment >= h.fragments && DecodePacket(data) == Err(InvalidFragment(h.fragment, h.fragments))
  {
    if |data| >= 4 {
      var word := FromLittleEndian(data[..4]);
      RadixValues();
      BytesRoundTrip(data[..4]);
      HeaderRepacks(word);
      var h := UnpackHeader(word);
      assert data[..4] == LittleEndian(HeaderWord(h), 4);
    }
  }

  // ---------------------------------------------------------------- repair requests

  predicate ValidRepairRequest(r: RepairRequest) {
    r.sequence <= MAX_SEQUENCE && r.missingMask != 0 && r.missingMask & !REPAIR_ALL_FRAGMENTS_MASK == 0
  }

  function EncodeRepairRequest(r: RepairRequest): Bytes
    requires ValidRepairRequest(r)
  {
    LittleEndian(r.sequence, 4) + [r.missingMask]
  }

  function DecodeRepairRequest(data: Bytes): Result<RepairRequest, RepairDecodeError> {
    if |data| != REPAIR_REQUEST_LEN then Err(InvalidLength(|data|)) else
    var sequence := FromLittleEndian(data[..4]);
    if sequence > MAX_SEQUENCE then Err(InvalidSequence(sequence)) else
    var mask := data[4];
    if mask == 0 || mask & !REPAIR_ALL_FRAGMENTS_MASK != 0 then Err(InvalidMissingMask(mask))
    else Ok(RepairRequest(sequence, mask))
  }

  lemma RepairRequestDecodesToItself(r: RepairRequest)
    requires ValidRepairRequest(r)
    ensures DecodeRepairRequest(EncodeRepairRequest(r)) == Ok(r)
  {
    RadixValues();
    NumberRoundTrip(r.sequence, 4);
    assert EncodeRepairRequest(r)[..4] == LittleEndian(r.sequence, 4);
  }

  lemma DecodedRepairRequestReencodes(data: Bytes)
    requires DecodeRepairRequest(data).Ok?
    ensures var r := DecodeRepairRequest(data).value;
      ValidRepairRequest(r) && EncodeRepairRequest(r) == data
  {
    BytesRoundTrip(data[..4]);
    assert data == data[..4] + [data[4]];
  }

  /** A repair request is refused for its length, its number or its mask, the first of them that is wrong. */
  lemma RefusedRequestTellsWhy(data: Bytes, sequence: nat, mask: bv8)
    requires sequence < 0x1_0000_0000
    ensures |data| != 5 ==> DecodeRepairRequest(data) == Err(InvalidLength(|data|))
    ensures DecodeRepairRequest(LittleEndian(sequence, 4) + [mask]) ==
            if sequence > MAX_SEQUENCE then Err(InvalidSequence(sequence))
            else if mask == 0 || mask & 0x80 != 0 then Err(InvalidMissingMask(mask))
            else Ok(RepairRequest(sequence, mask))
  {
    var bytes := LittleEndian(sequence, 4) + [mask];
    RadixValues();
    NumberRoundTrip(sequence, 4);
    assert bytes[..4] == LittleEndian(sequence, 4) && bytes[4] == mask;
    hide LittleEndian, FromLittleEndian;
  }

  // ---------------------------------------------------------------- parity frames

  /** What the parity-frame encoder asserts. */
  predicate ValidFrame(f: FecFrame) {
    && f.baseSequence <= MAX_MEDIA_SEQUENCE
    && 1 <= |f.payloadLengths| <= MAX_FEC_GROUP_PACKETS
    && forall i :: 0 <= i < |f.payloadLengths| ==> f.payloadLengths[i] <= U16_MAX && f.payloadLengths[i] <= |f.parity|
  }

  const FEC_HEADER := PacketHeader(FEC_SEQUENCE, 0, 1)

  function EncodeLengths(lengths: seq<nat>): (bytes: Bytes)
    ensures |bytes| == 2 * |lengths|
  {
    if lengths == [] then []
    else EncodeLengths(lengths[..|lengths| - 1]) + LittleEndian(lengths[|lengths| - 1], 2)
  }

  function DecodeLengths(bytes: Bytes): (lengths: seq<nat>)
    ensures |lengths| == |bytes| / 2
  {
    seq(|bytes| / 2, (i: nat) requires i < |bytes| / 2 => FromLittleEndian(bytes[2 * i..2 * i + 2]))
  }

  function FecPreamble(base: nat, count: bv8): (preamble: Bytes)
    ensures |preamble| == FEC_FIXED_LEN
  {
    FEC_MAGIC + LittleEndian(base, 4) + [count]
  }

  function FecPayload(f: FecFrame): (payload: Bytes)
    requires ValidFrame(f)
    ensures |payload| == FEC_FIXED_LEN + 2 * |f.payloadLengths| + |f.parity|
  {
    FecPreamble(f.baseSequence, |f.payloadLengths| as bv8) + EncodeLengths(f.payloadLengths) + f.parity
  }

  function FecDatagram(f: FecFrame): Bytes
    requires ValidFrame(f)
  {
    EncodePacket(FEC_HEADER, FecPayload(f))
  }

  function LargestLength(lengths: seq<nat>): nat {
    if lengths == [] then 0 else Max(LargestLength(lengths[..|lengths| - 1]), lengths[|lengths| - 1])
  }

  function ReadFecPayload(p: Bytes): Result<FecFrame, FecDecodeError> {
    if |p| < FEC_FIXED_LEN then Err(FecTooShort(|p|)) else
    if p[..5] != FEC_MAGIC then Err(InvalidMagic) else
    var base := FromLittleEndian(p[5..9]);
    if base > MAX_MEDIA_SEQUENCE then Err(InvalidBaseSequence(base)) else
    var count := p[9] as nat;
    if count == 0 || count > MAX_FEC_GROUP_PACKETS then Err(InvalidGroupSize(count)) else
    var offset := FEC_FIXED_LEN + 2 * count;
    if |p| < offset then Err(FecTooShort(|p|)) else
    var lengths, parity := DecodeLengths(p[FEC_FIXED_LEN..offset]), p[offset..];
    if exists i :: 0 <= i < |lengths| && lengths[i] > |parity| then Err(InvalidPayloadLength(LargestLength(lengths)))
    else Ok(FecFrame(base, lengths, parity))
  }

  function FecFromDatagram(data: Bytes): Result<FecFrame, FecDecodeError> {
    match DecodePacket(data)
    case Err(e) => Err(InvalidPacket(e))
    case Ok(packet) =>
      if packet.header != FEC_HEADER then Err(InvalidHeader(packet.header)) else ReadFecPayload(packet.payload)
  }

  method AppendLengths(front: Bytes, lengths: seq<nat>) returns (payload: Bytes)
    ensures payload == front + EncodeLengths(lengths)
  {
    payload := front;
    hide LittleEndian;
    assert EncodeLengths(lengths[..0]) == [];
    hide EncodeLengths;
    for i := 0 to |lengths|
      invariant payload == front + EncodeLengths(lengths[..i])
    {
      EncodeLengthsExtends(lengths[..i], lengths[i]);
      PrefixNext(lengths, i);
      payload := payload + LittleEndian(lengths[i], 2);
    }
    assert lengths[..|lengths|] == lengths;
  }

  method EncodeFecFrame(f: FecFrame) returns (data: Bytes)
    requires ValidFrame(f)
    ensures data == FecDatagram(f)
  {
    var payload := FecPreamble(f.baseSequence, |f.payloadLengths| as bv8);
    payload := AppendLengths(payload, f.payloadLengths);
    payload := payload + f.parity;
    data := EncodePacket(FEC_HEADER, payload);
  }

  method ReadLengths(payload: Bytes, start: nat, count: nat) returns (lengths: seq<nat>)
    requires start + 2 * count <= |payload|
    ensures lengths == DecodeLengths(payload[start..start + 2 * count])
  {
    lengths := [];
    var offset := start;
    for i := 0 to count
      invariant offset == start + 2 * i
      invariant lengths == DecodeLengths(payload[start..offset])
    {
      var last := payload[offset..offset + 2];
      DecodeLengthsExtends(payload[start..offset], last);
      assert payload[start..offset] + last == payload[start..offset + 2];
      lengths := lengths + [FromLittleEndian(last)];
      offset := offset + 2;
    }
  }

  method DecodeFecFrame(data: Bytes) returns (r: Result<FecFrame, FecDecodeError>)
    ensures r == FecFromDatagram(data)
  {
    var packet := DecodePacket(data);
    if packet.Err? {
      return Err(InvalidPacket(packet.error));
    }
    if packet.value.header != FEC_HEADER {
      return Err(InvalidHeader(packet.value.header));
    }
    var payload := packet.value.payload;
    if |payload| < FEC_FIXED_LEN {
      return Err(FecTooShort(|payload|));
    }
    if payload[..5] != FEC_MAGIC {
      return Err(InvalidMagic);
    }
    var offset := 5;
    var base := FromLittleEndian(payload[offset..offset + 4]);
    offset := offset + 4;
    if base > MAX_MEDIA_SEQUENCE {
      return Err(InvalidBaseSequence(base));
    }
    var count := payload[offset] as nat;
    offset := offset + 1;
    if count == 0 || count > MAX_FEC_GROUP_PACKETS {
      return Err(InvalidGroupSize(count));
    }
    if |payload| < offset + count * 2 {
      return Err(FecTooShort(|payload|));
    }
    var lengths := ReadLengths(payload, offset, count);
    offset := offset + 2 * count;
    var parity := payload[offset..];
    if exists i :: 0 <= i < |lengths| && lengths[i] > |parity| {
      return Err(InvalidPayloadLength(LargestLength(lengths)));
    }
    return Ok(FecFrame(base, lengths, parity));
  }

  lemma {:induction false} LengthsDecodeToThemselves(lengths: seq<nat>)
    requires forall i :: 0 <= i < |lengths| ==> lengths[i] <= U16_MAX
    ensures DecodeLengths(EncodeLengths(lengths)) == lengths
  {
    if lengths != [] {
      var n := |lengths| - 1;
      LengthsDecodeToThemselves(lengths[..n]);
      DecodeLengthsExtends(EncodeLengths(lengths[..n]), LittleEndian(lengths[n], 2));
      RadixValues();
      NumberRoundTrip(lengths[n], 2);
    }
  }

  lemma DecodeLengthsExtends(front: Bytes, last: Bytes)
    requires |front| % 2 == 0 && |last| == 2
    ensures DecodeLengths(front + last) == DecodeLengths(front) + [FromLittleEndian(last)]
  {
    hide FromLittleEndian;
    var bytes, n := front + last, |front| / 2;
    forall i | 0 <= i <= n
      ensures DecodeLengths(bytes)[i] == (DecodeLengths(front) + [FromLittleEndian(last)])[i]
    {
      PairAt(front, last, i);
    }
  }

  lemma PairAt(front: Bytes, last: Bytes, i: nat)
    requires |front| % 2 == 0 && |last| == 2 && i <= |front| / 2
    ensures (front + last)[2 * i..2 * i + 2] == if i < |front| / 2 then front[2 * i..2 * i + 2] else last
  {
  }

  lemma EncodeLengthsExtends(lengths: seq<nat>, length: nat)
    ensures EncodeLengths(lengths + [length]) == EncodeLengths(lengths) + LittleEndian(length, 2)
  {
    assert (lengths + [length])[..|lengths|] == lengths;
  }

  lemma {:induction false} DecodedLengthsReencode(bytes: Bytes)
    requires |bytes| % 2 == 0
    ensures EncodeLengths(DecodeLengths(bytes)) == bytes
    ensures forall i :: 0 <= i < |bytes| / 2 ==> DecodeLengths(bytes)[i] <= U16_MAX
  {
    if bytes != [] {
      var front, last := bytes[..|bytes| - 2], bytes[|bytes| - 2..];
      assert bytes == front + last;
      DecodedLengthsReencode(front);
      DecodeLengthsExtends(front, last);
      EncodeLengthsExtends(DecodeLengths(front), FromLittleEndian(last));
      RadixValues();
      BytesRoundTrip(last);
    }
  }

  lemma PreambleReads(base: nat, count: nat, rest: Bytes)
    requires base < 0x1_0000_0000 && count < 256
    ensures var p := FecPreamble(base, count as bv8) + rest;
      p[..5] == FEC_MAGIC && FromLittleEndian(p[5..9]) == base && p[9] as nat == count && p[FEC_FIXED_LEN..] == rest
  {
    RadixValues();
    NumberRoundTrip(base, 4);
    ByteRoundTrip(count);
    var p := FecPreamble(base, count as bv8) + rest;
    assert p[5..9] == LittleEndian(base, 4);
    assert p[9] == count as bv8;
  }

  lemma TableReads(p: Bytes, lengths: seq<nat>, parity: Bytes)
    requires |p| >= FEC_FIXED_LEN && p[FEC_FIXED_LEN..] == EncodeLengths(lengths) + parity
    ensures p[FEC_FIXED_LEN..FEC_FIXED_LEN + 2 * |lengths|] == EncodeLengths(lengths)
    ensures p[FEC_FIXED_LEN + 2 * |lengths|..] == parity
  {
    AppendParts(EncodeLengths(lengths), parity);
    DropThenTake(p, FEC_FIXED_LEN, 2 * |lengths|);
  }

  lemma FecPayloadReads(f: FecFrame)
    requires ValidFrame(f)
    ensures ReadFecPayload(FecPayload(f)) == Ok(f)
  {
    var count, rest := |f.payloadLengths|, EncodeLengths(f.payloadLengths) + f.parity;
    assert FecPayload(f) == FecPreamble(f.baseSequence, count as bv8) + rest;
    PreambleReads(f.baseSequence, count, rest);
    TableReads(FecPayload(f), f.payloadLengths, f.parity);
    LengthsDecodeToThemselves(f.payloadLengths);
  }

  lemma FecFrameDecodesToItself(f: FecFrame)
    requires ValidFrame(f)
    ensures FecFromDatagram(FecDatagram(f)) == Ok(f)
  {
    PacketDecodesToItself(FEC_HEADER, FecPayload(f));
    FecPayloadReads(f);
  }

  lemma PreambleReencodes(p: Bytes)
    requires |p| >= FEC_FIXED_LEN && p[..5] == FEC_MAGIC
    ensures FecPreamble(FromLittleEndian(p[5..9]), p[9]) == p[..FEC_FIXED_LEN]
  {
    BytesRoundTrip(p[5..9]);
    assert p[..FEC_FIXED_LEN] == p[..5] + p[5..9] + [p[9]];
  }

  lemma ReadFecPayloadReencodes(p: Bytes)
    requires ReadFecPayload(p).Ok?
    ensures var f := ReadFecPayload(p).value;
      ValidFrame(f) && FecPayload(f) == p
  {
    var f := ReadFecPayload(p).value;
    var count := |f.payloadLengths|;
    assert count == p[9] as nat;
    ByteBack(p[9]);
    PreambleReencodes(p);
    LengthsTableReencodes(p, count);
  }

  lemma LengthsTableReencodes(p: Bytes, count: nat)
    requires |p| >= FEC_FIXED_LEN + 2 * count
    ensures var table := p[FEC_FIXED_LEN..FEC_FIXED_LEN + 2 * count];
      && |DecodeLengths(table)| == count
      && (forall i :: 0 <= i < count ==> DecodeLengths(table)[i] <= U16_MAX)
      && p[..FEC_FIXED_LEN] + EncodeLengths(DecodeLengths(table)) + p[FEC_FIXED_LEN + 2 * count..] == p
  {
    var offset := FEC_FIXED_LEN + 2 * count;
    var table := p[FEC_FIXED_LEN..offset];
    assert |table| == 2 * count;
    DecodedLengthsReencode(table);
    assert p == p[..FEC_FIXED_LEN] + table + p[offset..];
  }

  lemma DecodedFecFrameReencodes(data: Bytes)
    requires FecFromDatagram(data).Ok?
    ensures var f := FecFromDatagram(data).value;
      ValidFrame(f) && FecDatagram(f) == data
  {
    DecodedPacketReencodes(data);
    ReadFecPayloadReencodes(DecodePacket(data).value.payload);
  }

  // ---------------------------------------------------------------- dispatch

  datatype Frame = MediaFrame(packet: Packet) | ParityFrame(frame: FecFrame)

  /** A parity frame is refused for the first part of it that is wrong, which the error tells. */
  lemma RefusedFrameTellsWhy(h: PacketHeader, magic: Bytes, base: nat, count: bv8, rest: Bytes)
    requires ValidHeader(h) && |magic| == 5 && base < 0x1_0000_0000
    ensures var result := FecFromDatagram(EncodePacket(h, magic + LittleEndian(base, 4) + [count] + rest));
      if h != FEC_HEADER then result == Err(InvalidHeader(h))
      else if magic != FEC_MAGIC then result == Err(InvalidMagic)
      else if base > MAX_MEDIA_SEQUENCE then result == Err(InvalidBaseSequence(base))
      else if count == 0 || count > 32 then result == Err(InvalidGroupSize(count as nat))
      else |rest| < 2 * count as nat ==> result == Err(FecTooShort(10 + |rest|))
  {
    var p := magic + LittleEndian(base, 4) + [count] + rest;
    PacketDecodesToItself(h, p);
    RadixValues();
    NumberRoundTrip(base, 4);
    assert p[..5] == magic && p[5..9] == LittleEndian(base, 4) && p[9] == count;
    hide LittleEndian, FromLittleEndian, EncodePacket, DecodePacket, DecodeLengths;
  }

  datatype FrameError = BadPacket(packetError: DecodeError) | BadFec(fecError: FecDecodeError)

  /** How a received datagram is told apart: the reserved sequence number means parity. */
  function ParseFrame(data: Bytes): Result<Frame, FrameError> {
    match DecodePacket(data)
    case Err(e) => Err(BadPacket(e))
    case Ok(packet) =>
      if packet.header.sequence == FEC_SEQUENCE then
        match FecFromDatagram(data)
        case Err(e) => Err(BadFec(e))
        case Ok(frame) => Ok(ParityFrame(frame))
      else Ok(MediaFrame(packet))
  }

  /** Whatever parses is within the limits the receiving machine relies on. */
  lemma ParsedFramesAreValid(data: Bytes)
    requires ParseFrame(data).Ok?
    ensures match ParseFrame(data).value
      case MediaFrame(p) => ValidHeader(p.header) && p.header.sequence <= MAX_MEDIA_SEQUENCE
      case ParityFrame(f) => ValidFrame(f)
  {
    DecodedPacketReencodes(data);
    if ParseFrame(data).value.ParityFrame? {
      DecodedFecFrameReencodes(data);
    }
  }

  lemma MediaDatagramParses(h: PacketHeader, payload: Bytes)
    requires ValidHeader(h) && h.sequence <= MAX_MEDIA_SEQUENCE
    ensures ParseFrame(EncodePacket(h, payload)) == Ok(MediaFrame(Packet(h, payload)))
  {
    PacketDecodesToItself(h, payload);
  }

  lemma FecDatagramParses(f: FecFrame)
    requires ValidFrame(f)
    ensures ParseFrame(FecDatagram(f)) == Ok(ParityFrame(f))
  {
    PacketDecodesToItself(FEC_HEADER, FecPayload(f));
    FecFrameDecodesToItself(f);
  }
}
