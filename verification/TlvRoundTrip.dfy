/** When parsing undoes serializing, and what the parser accepts. */
module TlvRoundTrip {
  import opened Bytes
  import opened Tlv

  /** Parsing what was written gives back the tree, with opaque leaves, exactly when every container has a child
      and every content fits the 24-bit length field. */
  lemma {:induction false} RoundTrip(asInstance: bool, ts: seq<Data>, b: seq<byte>)
    requires Encodable(ts) && Written(asInstance, ts, b)
    ensures Parse(b) == Some(Flattened(ts)) <==> Representable(ts)
    decreases ts, 0
  {
    if ts == [] {
      assert b == [];
    } else {
      var d, n := ts[0], NodeSize(ts[0]);
      RoundTrip(asInstance, ts[1..], b[n..]);
      RepresentableSplit(ts);
      if ContentSize(d) <= MAX_CONTENT {
        FirstHeaderDecodes(asInstance, ts, b);
        NodeParses(asInstance, d, b[..n]);
        var h := HeaderOf(asInstance, d);
        SplitAt(b, n, h.dataIndex);
        assert Parse(b) == Prepend(ParseNode(h, b[h.dataIndex..n]), Parse(b[n..]));
        PrependIsRight(ParseNode(h, b[h.dataIndex..n]), Parse(b[n..]), FlattenedNode(d), Flattened(ts[1..]));
      } else {
        OversizedNodeIsLost(asInstance, ts, b);
      }
    }
  }

  lemma RepresentableSplit(ts: seq<Data>)
    requires ts != []
    ensures Representable(ts) <==> RepresentableNode(ts[0]) && Representable(ts[1..])
  {
    assert ts == [ts[0]] + ts[1..];
  }

  lemma SplitAt(b: seq<byte>, n: nat, h: nat)
    requires h <= n <= |b|
    ensures b[..n][..h] + b[h..] == b && b[..n][h..] == b[h..n]
  {}

  /** A list is right exactly when its first node and the rest are. */
  lemma PrependIsRight(d: Option<Data>, ts: Option<seq<Data>>, d': Data, ts': seq<Data>)
    ensures Prepend(d, ts) == Some([d'] + ts') <==> d == Some(d') && ts == Some(ts')
  {
    if d.Some? && ts.Some? {
      assert ([d.value] + ts.value)[1..] == ts.value && ([d'] + ts')[1..] == ts';
      assert ([d.value] + ts.value)[0] == d.value && ([d'] + ts')[0] == d';
    }
  }

  function HeaderOf(asInstance: bool, d: Data): (h: Header)
    requires EncodableNode(d)
  {
    Header(TypeOf(asInstance, d), d.id, HeaderLength(d.id, ContentSize(d)), ContentSize(d))
  }

  /** A first node that fits is delimited correctly. */
  lemma FirstHeaderDecodes(asInstance: bool, ts: seq<Data>, b: seq<byte>)
    requires Encodable(ts) && Written(asInstance, ts, b)
    requires ts != [] && ContentSize(ts[0]) <= MAX_CONTENT
    ensures DecodeHeader(b) == Some(HeaderOf(asInstance, ts[0]))
  {
    var d := ts[0];
    var h := HeaderLength(d.id, ContentSize(d));
    SplitAt(b, NodeSize(d), h);
    HeaderDecodes(b[..NodeSize(d)][..h], TypeOf(asInstance, d), d.id, ContentSize(d), b[h..]);
  }

  /** A node that fits comes back exactly when it is representable. */
  lemma NodeParses(asInstance: bool, d: Data, node: seq<byte>)
    requires EncodableNode(d) && WrittenNode(asInstance, d, node) && ContentSize(d) <= MAX_CONTENT
    ensures var h := HeaderOf(asInstance, d);
            ParseNode(h, node[h.dataIndex..]) == Some(FlattenedNode(d)) <==> RepresentableNode(d)
    decreases d, 1
  {
    var body := node[HeaderOf(asInstance, d).dataIndex..];
    if d.IsContainer() {
      RoundTrip(asInstance || d.MultipleResource?, d.children, body);
      assert RepresentableNode(d) <==> d.children != [] && Representable(d.children);
      assert d.children == [] ==> body == [];
    }
  }

  /** A node over 24 bits is read back as an empty one, so it never comes back. */
  lemma OversizedNodeIsLost(asInstance: bool, ts: seq<Data>, b: seq<byte>)
    requires Encodable(ts) && Written(asInstance, ts, b)
    requires ts != [] && ContentSize(ts[0]) > MAX_CONTENT
    ensures Parse(b) != Some(Flattened(ts))
  {
    var d := ts[0];
    var h := HeaderLength(d.id, ContentSize(d));
    var node := b[..NodeSize(d)];
    SplitAt(b, NodeSize(d), h);
    OversizedHeaderDecodes(node[..h], TypeOf(asInstance, d), d.id, ContentSize(d), b[h..]);
    var header := DecodeHeader(b).value;
    var body := b[header.dataIndex..header.dataIndex + header.dataLen];
    assert body == [];
    assert Parse([]) == Some([]);
    assert ParseNode(header, body) != Some(FlattenedNode(d));
    assert Flattened(ts)[0] == FlattenedNode(d);
  }

  /** Trees made only of non-empty containers and opaque leaves: what the parser can return. */
  predicate Canonical(ts: seq<Data>)
  {
    forall i :: 0 <= i < |ts| ==> CanonicalNode(ts[i])
  }

  predicate CanonicalNode(d: Data)
  {
    if d.IsContainer() then d.children != [] && forall i :: 0 <= i < |d.children| ==> CanonicalNode(d.children[i])
    else d.Opaque?
  }

  lemma {:induction false} CanonicalIsEncodable(ts: seq<Data>)
    requires Canonical(ts)
    ensures Encodable(ts) && Flattened(ts) == ts
    decreases ts
  {
    if ts != [] {
      var d := ts[0];
      if d.IsContainer() {
        CanonicalIsEncodable(d.children);
      }
      assert FlattenedNode(d) == d;
      CanonicalIsEncodable(ts[1..]);
      assert ts == [d] + ts[1..];
    }
  }

  /** Whatever bytes come in, the parser returns a canonical, representable tree,
      and no encoding of that tree is longer than the bytes it came from. */
  lemma {:induction false} ParsedIsRepresentable(b: seq<byte>)
    requires Parse(b).Some?
    ensures var ts := Parse(b).value; Canonical(ts) && Representable(ts) && Size(ts) <= |b|
    decreases |b|
  {
    var header := DecodeHeader(b);
    if header.Some? {
      var h := header.value;
      var end := h.dataIndex + h.dataLen;
      var body := b[h.dataIndex..end];
      var d := ParseNode(h, body).value;
      if d.IsContainer() {
        ParsedIsRepresentable(body);
        assert ContentSize(d) <= h.dataLen;
      }
      assert NodeSize(d) <= end by { HeaderLengthMonotone(d.id, ContentSize(d), h.dataLen); }
      ParsedIsRepresentable(b[end..]);
      var rest := Parse(b[end..]).value;
      assert Parse(b).value == [d] + rest && ([d] + rest)[1..] == rest;
    }
  }

  lemma HeaderLengthMonotone(id: u16, m: nat, n: nat)
    requires m <= n
    ensures HeaderLength(id, m) <= HeaderLength(id, n)
  {}

  /** Re-encoding any accepted input is a normal form: every encoding of the parsed tree
      parses to that same tree and is never longer than the input. */
  lemma ReencodeIsStable(b: seq<byte>)
    requires Parse(b).Some?
    ensures Encodable(Parse(b).value)
    ensures forall asInstance, b' :: Written(asInstance, Parse(b).value, b') ==> Parse(b') == Parse(b) && |b'| <= |b|
  {
    var ts := Parse(b).value;
    ParsedIsRepresentable(b);
    CanonicalIsEncodable(ts);
    forall asInstance, b' | Written(asInstance, ts, b')
      ensures Parse(b') == Parse(b) && |b'| <= |b|
    {
      RoundTrip(asInstance, ts, b');
    }
  }

  // ----- leaf values

  /** xiny_lwm2m_data_decode_int on a node that came out of the parser. */
  function DecodeInt(d: Data): (v: Option<int64>)
    requires d.Opaque?
  {
    if |d.bytes| in {1, 2, 4, 8} then SignedFits(d.bytes); Some(Signed(d.bytes)) else None
  }

  lemma SignedFits(b: seq<byte>)
    requires |b| in {1, 2, 4, 8}
    ensures -0x8000_0000_0000_0000 <= Signed(b) < 0x8000_0000_0000_0000
  {
    UnsignedBound(b);
    Powers();
  }

  /** xiny_lwm2m_data_decode_bool, likewise. */
  function DecodeBool(d: Data): (v: Option<bool>)
    requires d.Opaque?
  {
    if d.bytes == [0] then Some(false) else if d.bytes == [1] then Some(true) else None
  }

  /** Every 64-bit integer and every boolean survives the trip through TLV bytes,
      the integer in the fewest of 1, 2, 4 or 8 bytes from which any decoder can recover it. */
  lemma ValuesSurvive(d: Data)
    requires d.Integer? || d.Boolean?
    ensures var o := FlattenedNode(d);
            && (d.Integer? ==> DecodeInt(o) == Some(d.value))
            && (d.Boolean? ==> DecodeBool(o) == Some(d.on))
    ensures d.Integer? ==> forall b: seq<byte> :: |b| in {1, 2, 4, 8} && Signed(b) == d.value ==> |LeafBytes(d)| <= |b|
  {
    if d.Integer? {
      SignedBigEndian(d.value, IntWidth(d.value));
      forall b: seq<byte> | |b| in {1, 2, 4, 8} && Signed(b) == d.value
        ensures |LeafBytes(d)| <= |b|
      {
        UnsignedBound(b);
      }
    }
  }
}
