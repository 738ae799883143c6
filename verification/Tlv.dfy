/** The LwM2M TLV format (section 6.4.3 of the OMA LwM2M 1.0 Technical Specification):
    the data trees, what the two-pass serializer may write for a tree, and the parser. */
module Tlv {
  import opened Bytes

  /** What prv_encodeFloat leaves in its buffer: a 4- or 8-byte image of the value. */
  type FloatImage = b: seq<byte> | |b| == 4 || |b| == 8 witness [0, 0, 0, 0]

  datatype Data =
    | Undefined(id: u16)
    | Object(id: u16, children: seq<Data>)
    | ObjectInstance(id: u16, children: seq<Data>)
    | MultipleResource(id: u16, children: seq<Data>)
    | Text(id: u16, bytes: seq<byte>)
    | Opaque(id: u16, bytes: seq<byte>)
    | Integer(id: u16, value: int64)
    | Float(id: u16, image: FloatImage)
    | Boolean(id: u16, on: bool)
    | ObjectLink(id: u16, objectId: u16, instanceId: u16)
  {
    predicate IsContainer() {
      ObjectInstance? || MultipleResource?
    }

    predicate IsLeaf() {
      !IsContainer() && !Undefined? && !Object?
    }
  }

  /** The high two bits of a header byte. */
  datatype HeaderType = OfObjectInstance | OfResourceInstance | OfMultipleResource | OfResource

  const MAX_CONTENT := 0xFF_FFFF

  // ----- content of a leaf

  /** The shortest of 1, 2, 4 or 8 bytes that holds v in two's complement. */
  function IntWidth(v: int64): (n: nat)
    ensures n in {1, 2, 4, 8}
    ensures -(Pow256(n) as int) <= 2 * v < Pow256(n)
    ensures forall m :: m in {1, 2, 4, 8} && -(Pow256(m) as int) <= 2 * v < Pow256(m) ==> n <= m
  {
    Powers();
    if -0x80 <= v <= 0x7F then 1
    else if -0x8000 <= v <= 0x7FFF then 2
    else if -0x8000_0000 <= v <= 0x7FFF_FFFF then 4
    else 8
  }

  function EncodeInt(v: int64): (b: seq<byte>)
  {
    BigEndian(v, IntWidth(v))
  }

  /** The payload bytes of a leaf node. */
  function LeafBytes(d: Data): (b: seq<byte>)
    requires d.IsLeaf()
  {
    match d
    case Text(_, bytes) => bytes
    case Opaque(_, bytes) => bytes
    case Integer(_, value) => EncodeInt(value)
    case Float(_, image) => image
    case Boolean(_, on) => [if on then 1 else 0]
    case ObjectLink(_, objectId, instanceId) => BigEndian(objectId, 2) + BigEndian(instanceId, 2)
  }

  // ----- sizes

  function HeaderLength(id: u16, len: nat): (n: nat)
    ensures 2 <= n <= 6
  {
    2 + (if id > 0xFF then 1 else 0) + LengthFieldSize(len)
  }

  function LengthFieldSize(len: nat): (n: nat)
    ensures n <= 3
  {
    if len > 0xFFFF then 3 else if len > 0xFF then 2 else if len > 7 then 1 else 0
  }

  function ContentSize(d: Data): (n: nat)
    decreases d, 0
  {
    if d.IsContainer() then Size(d.children)
    else if d.IsLeaf() then |LeafBytes(d)|
    else 0
  }

  function NodeSize(d: Data): (n: nat)
    decreases d, 1
  {
    HeaderLength(d.id, ContentSize(d)) + ContentSize(d)
  }

  function Size(ts: seq<Data>): (n: nat)
    decreases ts, 2
  {
    if ts == [] then 0 else NodeSize(ts[0]) + Size(ts[1..])
  }

  /** No node the serializer refuses. */
  predicate Encodable(ts: seq<Data>)
  {
    forall i :: 0 <= i < |ts| ==> EncodableNode(ts[i])
  }

  predicate EncodableNode(d: Data)
  {
    if d.IsContainer() then forall i :: 0 <= i < |d.children| ==> EncodableNode(d.children[i])
    else d.IsLeaf()
  }

  // ----- headers

  function TypeBits(t: HeaderType): (b: byte)
    ensures b in {0x00, 0x40, 0x80, 0xC0}
  {
    match t
    case OfObjectInstance => 0x00
    case OfResourceInstance => 0x40
    case OfMultipleResource => 0x80
    case OfResource => 0xC0
  }

  /** The low five bits of the first header byte. A length over 24 bits has no representation: the bits stay clear. */
  function LengthBits(len: nat): (b: byte)
    ensures b < 0x20
  {
    if len <= 7 then len
    else if len <= 0xFF then 0x08
    else if len <= 0xFFFF then 0x10
    else if len <= MAX_CONTENT then 0x18
    else 0
  }

  function FirstByte(t: HeaderType, id: u16, len: nat): (b: byte)
  {
    TypeBits(t) + (if id > 0xFF then 0x20 else 0) + LengthBits(len)
  }

  /** `h` is what prv_createHeader may leave: the three length bytes of an oversized node are never written,
      so any content is possible there. */
  predicate IsHeader(h: seq<byte>, t: HeaderType, id: u16, len: nat)
  {
    var offset := if id > 0xFF then 3 else 2;
    && |h| == HeaderLength(id, len)
    && h[0] == FirstByte(t, id, len)
    && h[1..offset] == BigEndian(id, offset - 1)
    && (len <= MAX_CONTENT ==> h[offset..] == BigEndian(len, LengthFieldSize(len)))
  }

  function TypeOf(asInstance: bool, d: Data): (t: HeaderType)
    requires d.IsContainer() || d.IsLeaf()
  {
    if d.ObjectInstance? then OfObjectInstance
    else if d.MultipleResource? then OfMultipleResource
    else if asInstance then OfResourceInstance
    else OfResource
  }

  // ----- what the write pass may produce

  /** `b` is a possible output of the write pass for the list `ts`. */
  predicate Written(asInstance: bool, ts: seq<Data>, b: seq<byte>)
    requires Encodable(ts)
    decreases ts, 2
  {
    && |b| == Size(ts)
    && (ts != [] ==>
          && WrittenNode(asInstance, ts[0], b[..NodeSize(ts[0])])
          && Written(asInstance, ts[1..], b[NodeSize(ts[0])..]))
  }

  predicate WrittenNode(asInstance: bool, d: Data, b: seq<byte>)
    requires EncodableNode(d)
    decreases d, 1
  {
    var h := HeaderLength(d.id, ContentSize(d));
    && |b| == NodeSize(d)
    && IsHeader(b[..h], TypeOf(asInstance, d), d.id, ContentSize(d))
    && WrittenContent(asInstance, d, b[h..])
  }

  predicate WrittenContent(asInstance: bool, d: Data, b: seq<byte>)
    requires EncodableNode(d)
    decreases d, 0
  {
    if d.IsContainer() then Written(asInstance || d.MultipleResource?, d.children, b)
    else b == LeafBytes(d)
  }

  // ----- the parser

  datatype Header = Header(kind: HeaderType, id: u16, dataIndex: nat, dataLen: nat)

  function KindOf(first: byte): (t: HeaderType)
  {
    match first / 0x40
    case 0 => OfObjectInstance
    case 1 => OfResourceInstance
    case 2 => OfMultipleResource
    case _ => OfResource
  }

  /** xiny_lwm2m_decode_TLV: the header at the front of a buffer, unless the buffer is too short for it or its content. */
  function DecodeHeader(b: seq<byte>): (h: Option<Header>)
    ensures h.Some? ==> 2 <= h.value.dataIndex && h.value.dataIndex + h.value.dataLen <= |b|
    ensures h.Some? ==> h.value.dataLen <= MAX_CONTENT
    ensures h.Some? ==> HeaderLength(h.value.id, h.value.dataLen) <= h.value.dataIndex
  {
    if |b| < 2 then None else
    var at := if b[0] / 0x20 % 2 == 1 then 3 else 2;
    if |b| < at then None else
    var width := b[0] / 8 % 4;
    if |b| < at + width then None else
    var id := Unsigned(b[1..at]);
    var len := if width == 0 then b[0] % 8 else Unsigned(b[at..at + width]);
    Powers(); UnsignedBound(b[1..at]); UnsignedBound(b[at..at + width]);
    if at + width + len > |b| then None
    else Some(Header(KindOf(b[0]), id, at + width, len))
  }

  function ContainerOf(kind: HeaderType, id: u16, children: seq<Data>): (d: Data)
    requires kind.OfObjectInstance? || kind.OfMultipleResource?
  {
    if kind.OfObjectInstance? then ObjectInstance(id, children) else MultipleResource(id, children)
  }

  /** One parsed node; None when a container holds no parsable child. */
  function ParseNode(h: Header, body: seq<byte>): (d: Option<Data>)
    requires |body| == h.dataLen
    decreases |body|, 1
  {
    if h.kind.OfObjectInstance? || h.kind.OfMultipleResource? then
      match Parse(body)
      case Some(children) => if children == [] then None else Some(ContainerOf(h.kind, h.id, children))
      case None => None
    else Some(Opaque(h.id, body))
  }

  /** xiny_tlv_parse_lwm2m; None is its early `return 0`. */
  function Parse(b: seq<byte>): (ts: Option<seq<Data>>)
    decreases |b|, 0
  {
    match DecodeHeader(b)
    case None => Some([])
    case Some(h) =>
      var end := h.dataIndex + h.dataLen;
      Prepend(ParseNode(h, b[h.dataIndex..end]), Parse(b[end..]))
  }

  function Prepend(d: Option<Data>, ts: Option<seq<Data>>): (r: Option<seq<Data>>)
  {
    if d.Some? && ts.Some? then Some([d.value] + ts.value) else None
  }

  // ----- the round trip

  /** A tree as the parser can at best return it: every leaf is opaque. */
  function Flattened(ts: seq<Data>): (r: seq<Data>)
    requires Encodable(ts)
    ensures |r| == |ts|
    decreases ts, 1
  {
    if ts == [] then [] else [FlattenedNode(ts[0])] + Flattened(ts[1..])
  }

  function FlattenedNode(d: Data): (r: Data)
    requires EncodableNode(d)
    decreases d, 2
  {
    match d
    case ObjectInstance(id, children) => ObjectInstance(id, Flattened(children))
    case MultipleResource(id, children) => MultipleResource(id, Flattened(children))
    case _ => Opaque(d.id, LeafBytes(d))
  }

  /** Every container has a child and every content fits 24 bits. */
  predicate Representable(ts: seq<Data>)
  {
    forall i :: 0 <= i < |ts| ==> RepresentableNode(ts[i])
  }

  predicate RepresentableNode(d: Data)
  {
    && ContentSize(d) <= MAX_CONTENT
    && (d.IsContainer() ==>
          d.children != [] && forall i :: 0 <= i < |d.children| ==> RepresentableNode(d.children[i]))
  }

  /** The bit fields of the first byte can be told apart. */
  lemma FirstByteFields(t: HeaderType, id: u16, len: nat)
    ensures var b := FirstByte(t, id, len);
            && KindOf(b) == t
            && b / 0x20 % 2 == (if id > 0xFF then 1 else 0)
            && (len <= MAX_CONTENT ==> b / 8 % 4 == LengthFieldSize(len))
            && (len <= 7 || len > MAX_CONTENT ==> b / 8 % 4 == 0 && b % 8 == if len <= 7 then len else 0)
  {
    var low := LengthBits(len);
    var wide := if id > 0xFF then 0x20 else 0;
    var b := FirstByte(t, id, len);
    assert b / 0x40 == TypeBits(t) / 0x40;
    assert b / 0x20 == TypeBits(t) / 0x20 + wide / 0x20;
  }

  /** A written header that fits is decoded to what it was made from, whatever follows its content. */
  lemma HeaderDecodes(h: seq<byte>, t: HeaderType, id: u16, len: nat, rest: seq<byte>)
    requires IsHeader(h, t, id, len) && len <= MAX_CONTENT && len <= |rest|
    ensures DecodeHeader(h + rest) == Some(Header(t, id, |h|, len))
  {
    var at := if id > 0xFF then 3 else 2;
    var width := LengthFieldSize(len);
    var b := h + rest;
    hide FirstByte, TypeBits, LengthBits, KindOf, BigEndian, Unsigned, Pow256;
    Powers();
    assert b[1..at] == h[1..at] == BigEndian(id, at - 1);
    UnsignedBigEndian(id, at - 1);
    assert b[at..at + width] == h[at..] == BigEndian(len, width);
    UnsignedBigEndian(len, width);
    assert b[0] == h[0];
    FirstByteFields(t, id, len);
  }

  /** The header of an oversized node claims an empty content. */
  lemma OversizedHeaderDecodes(h: seq<byte>, t: HeaderType, id: u16, len: nat, rest: seq<byte>)
    requires IsHeader(h, t, id, len) && len > MAX_CONTENT
    ensures var r := DecodeHeader(h + rest); r.Some? && r.value.kind == t && r.value.dataLen == 0
  {
    var b := h + rest;
    assert b[0] == h[0];
    FirstByteFields(t, id, len);
  }
}
