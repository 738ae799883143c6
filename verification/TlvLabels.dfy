/** The type label of every node on the wire, as section 6.4.3 of the OMA LwM2M 1.0 Technical Specification numbers them: the
    two high bits of its first byte are 0 for an object instance, 1 for a resource instance, 2 for a multiple resource and
    3 for a resource. */
module TlvLabels {
  import opened Bytes
  import opened Tlv

  /** Every node of the list is labelled by its kind and by where it stands: a leaf is a resource instance in a multiple resource
      or when the caller says so, and a resource elsewhere. */
  predicate Labelled(asInstance: bool, ts: seq<Data>, b: seq<byte>)
    decreases ts, 1
  {
    ts != [] ==>
      && NodeSize(ts[0]) <= |b|
      && LabelledNode(asInstance, ts[0], b[..NodeSize(ts[0])])
      && Labelled(asInstance, ts[1..], b[NodeSize(ts[0])..])
  }

  predicate LabelledNode(asInstance: bool, d: Data, b: seq<byte>)
    decreases d, 0
  {
    var h := HeaderLength(d.id, ContentSize(d));
    && 0 < h <= |b|
    && match d
       case ObjectInstance(_, children) => b[0] / 64 == 0 && Labelled(asInstance, children, b[h..])
       case MultipleResource(_, children) => b[0] / 64 == 2 && Labelled(true, children, b[h..])
       case _ => b[0] / 64 == if asInstance then 1 else 3
  }

  lemma HighBits(t: HeaderType, id: u16, len: nat)
    ensures FirstByte(t, id, len) / 64 ==
            (match t case OfObjectInstance => 0 case OfResourceInstance => 1 case OfMultipleResource => 2 case OfResource => 3)
  {}

  /** Whatever the write pass produces is labelled so, at every level. */
  lemma {:induction false} WrittenIsLabelled(asInstance: bool, ts: seq<Data>, b: seq<byte>)
    requires Encodable(ts) && Written(asInstance, ts, b)
    ensures Labelled(asInstance, ts, b)
    decreases ts, 1
  {
    if ts != [] {
      NodeIsLabelled(asInstance, ts[0], b[..NodeSize(ts[0])]);
      WrittenIsLabelled(asInstance, ts[1..], b[NodeSize(ts[0])..]);
    }
  }

  lemma {:induction false} NodeIsLabelled(asInstance: bool, d: Data, b: seq<byte>)
    requires EncodableNode(d) && WrittenNode(asInstance, d, b)
    ensures LabelledNode(asInstance, d, b)
    decreases d, 0
  {
    var h := HeaderLength(d.id, ContentSize(d));
    HighBits(TypeOf(asInstance, d), d.id, ContentSize(d));
    assert b[..h][0] == b[0];
    hide FirstByte, IsHeader;
    if d.IsContainer() {
      WrittenIsLabelled(asInstance || d.MultipleResource?, d.children, b[h..]);
    }
  }

  /** The content of a leaf: an object link is the two ids, two bytes each, high byte first, and a boolean is one byte. */
  lemma LeafContents(d: Data)
    requires d.IsLeaf()
    ensures d.Text? || d.Opaque? ==> LeafBytes(d) == d.bytes
    ensures d.Float? ==> LeafBytes(d) == d.image
    ensures d.Boolean? ==> LeafBytes(d) == [if d.on then 1 else 0]
    ensures d.ObjectLink? ==>
              LeafBytes(d) == [d.objectId / 256, d.objectId % 256, d.instanceId / 256, d.instanceId % 256]
  {
    if d.ObjectLink? {
      TwoBytes(d.objectId);
      TwoBytes(d.instanceId);
      hide BigEndian;
    }
  }

  lemma TwoBytes(v: u16)
    ensures BigEndian(v, 2) == [v / 256, v % 256]
  {
    assert BigEndian(v / 256, 1) == BigEndian(v / 256 / 256, 0) + [v / 256 % 256] == [v / 256];
  }
}
