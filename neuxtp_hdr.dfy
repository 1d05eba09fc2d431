/** neuxtp_hdr.h: the canonical 12-byte NeuXTP header, the supported version, and
    the ai_tag and priority code points. The header file fixes field order and
    widths (a packed struct) but no byte order; this model puts every multi-byte
    field in network (big-endian) order, the order the code converts to where it
    converts at all. */
module NeuxtpHdr {
  import opened Bytes

  /** The result of a decoder that can refuse its input. */
  datatype Option<T> = None | Some(value: T)

  /** NEUXTP_VERSION. */
  const NEUXTP_VERSION: uint8 := 0x1

  const AI_TAG_NONE: uint8 := 0x00
  const AI_TAG_TEXT: uint8 := 0x01
  const AI_TAG_IMAGE: uint8 := 0x02
  const AI_TAG_AUDIO: uint8 := 0x03
  const AI_TAG_VIDEO: uint8 := 0x04
  const AI_TAG_EMBEDDING: uint8 := 0x05

  const NEUXTP_PRIORITY_LOW: uint8 := 0x00
  const NEUXTP_PRIORITY_MEDIUM: uint8 := 0x01
  const NEUXTP_PRIORITY_HIGH: uint8 := 0x02
  const NEUXTP_PRIORITY_CRITICAL: uint8 := 0x03

  /** sizeof(struct neuxtp_hdr): 1 + 1 + 2 + 2 + 1 + 1 + 4. */
  const NEUXTP_HDR_LEN: nat := 12

  datatype Header = Header(
    version: uint8,
    flags: uint8,
    length: uint16,
    sessionId: uint16,
    aiTag: uint8,
    priority: uint8,
    checksum: uint32)

  function Encode(h: Header): (b: seq<uint8>)
    ensures |b| == NEUXTP_HDR_LEN
  {
    [h.version, h.flags] + Be16(h.length) + Be16(h.sessionId) + [h.aiTag, h.priority] + Be32(h.checksum)
  }

  /** Reads a header from the front of b; fails on fewer than 12 bytes. */
  function Decode(b: seq<uint8>): (r: Option<Header>)
    ensures r.Some? <==> |b| >= NEUXTP_HDR_LEN
  {
    if |b| < NEUXTP_HDR_LEN then None
    else Some(Header(b[0], b[1], FromBe16(b[2..4]), FromBe16(b[4..6]), b[6], b[7], FromBe32(b[8..12])))
  }

  /** The packed layout: version 0, flags 1, length 2-3, session_id 4-5, ai_tag 6,
      priority 7, checksum 8-11. */
  lemma FieldOffsets(h: Header)
    ensures var b := Encode(h);
      && b[0] == h.version && b[1] == h.flags
      && b[2..4] == Be16(h.length) && b[4..6] == Be16(h.sessionId)
      && b[6] == h.aiTag && b[7] == h.priority
      && b[8..12] == Be32(h.checksum)
  {
  }

  lemma DecodeEncode(h: Header)
    ensures Decode(Encode(h)) == Some(h)
  {
    var b := Encode(h);
    FieldOffsets(h);
    Be16RoundTrip(h.length, b[2..4]);
    Be16RoundTrip(h.sessionId, b[4..6]);
    Be32RoundTrip(h.checksum, b[8..12]);
  }

  lemma EncodeDecode(b: seq<uint8>)
    requires |b| == NEUXTP_HDR_LEN
    ensures Encode(Decode(b).value) == b
  {
    Be16RoundTrip(0, b[2..4]);
    Be16RoundTrip(0, b[4..6]);
    Be32RoundTrip(0, b[8..12]);
    assert b == b[..2] + b[2..4] + b[4..6] + b[6..8] + b[8..12];
  }

  /** Decoding looks only at the first 12 bytes: the payload after them is ignored. */
  lemma DecodeIgnoresPayload(h: Header, payload: seq<uint8>)
    ensures Decode(Encode(h) + payload) == Some(h)
  {
    var b := Encode(h) + payload;
    assert b[..NEUXTP_HDR_LEN] == Encode(h);
    assert b[2..4] == Encode(h)[2..4] && b[4..6] == Encode(h)[4..6] && b[8..12] == Encode(h)[8..12];
    DecodeEncode(h);
  }

  // ---------------------------------------------------------------------------
  // ai_tag and priority code points

  /** The content types the AI_TAG_* constants name. */
  datatype AiTag = TagNone | TagText | TagImage | TagAudio | TagVideo | TagEmbedding

  function TagCode(t: AiTag): uint8
  {
    match t
    case TagNone => AI_TAG_NONE
    case TagText => AI_TAG_TEXT
    case TagImage => AI_TAG_IMAGE
    case TagAudio => AI_TAG_AUDIO
    case TagVideo => AI_TAG_VIDEO
    case TagEmbedding => AI_TAG_EMBEDDING
  }

  /** A tag validator: accepts exactly the defined AI_TAG_* values. */
  predicate ValidTag(c: uint8)
  {
    c == AI_TAG_NONE || c == AI_TAG_TEXT || c == AI_TAG_IMAGE || c == AI_TAG_AUDIO
    || c == AI_TAG_VIDEO || c == AI_TAG_EMBEDDING
  }

  function TagOfCode(c: uint8): (r: Option<AiTag>)
    ensures r.Some? ==> TagCode(r.value) == c
  {
    if c == AI_TAG_NONE then Some(TagNone)
    else if c == AI_TAG_TEXT then Some(TagText)
    else if c == AI_TAG_IMAGE then Some(TagImage)
    else if c == AI_TAG_AUDIO then Some(TagAudio)
    else if c == AI_TAG_VIDEO then Some(TagVideo)
    else if c == AI_TAG_EMBEDDING then Some(TagEmbedding)
    else None
  }

  /** The defined tags are the six values 0..5, each naming one content type. */
  lemma TagCodes(c: uint8, t: AiTag, u: AiTag)
    ensures ValidTag(c) <==> c <= 5
    ensures TagOfCode(c).Some? <==> ValidTag(c)
    ensures TagOfCode(TagCode(t)) == Some(t)
    ensures TagCode(t) == TagCode(u) ==> t == u
  {
  }

  /** The QoS levels the NEUXTP_PRIORITY_* constants name, lowest first. */
  datatype Priority = Low | Medium | High | Critical

  function PriorityCode(p: Priority): uint8
  {
    match p
    case Low => NEUXTP_PRIORITY_LOW
    case Medium => NEUXTP_PRIORITY_MEDIUM
    case High => NEUXTP_PRIORITY_HIGH
    case Critical => NEUXTP_PRIORITY_CRITICAL
  }

  /** A priority validator: accepts exactly the defined NEUXTP_PRIORITY_* values. */
  predicate ValidPriority(c: uint8)
  {
    c == NEUXTP_PRIORITY_LOW || c == NEUXTP_PRIORITY_MEDIUM
    || c == NEUXTP_PRIORITY_HIGH || c == NEUXTP_PRIORITY_CRITICAL
  }

  function PriorityOfCode(c: uint8): (r: Option<Priority>)
    ensures r.Some? ==> PriorityCode(r.value) == c
  {
    if c == NEUXTP_PRIORITY_LOW then Some(Low)
    else if c == NEUXTP_PRIORITY_MEDIUM then Some(Medium)
    else if c == NEUXTP_PRIORITY_HIGH then Some(High)
    else if c == NEUXTP_PRIORITY_CRITICAL then Some(Critical)
    else None
  }

  /** The defined priorities are the four values 0..3 ("0 = low, 3 = critical"),
      ordered Low < Medium < High < Critical. */
  lemma PriorityCodes(c: uint8, p: Priority, q: Priority)
    ensures ValidPriority(c) <==> c <= 3
    ensures PriorityOfCode(c).Some? <==> ValidPriority(c)
    ensures PriorityOfCode(PriorityCode(p)) == Some(p)
    ensures PriorityCode(p) == PriorityCode(q) ==> p == q
    ensures PriorityCode(Low) < PriorityCode(Medium) < PriorityCode(High) < PriorityCode(Critical)
  {
  }
}
