/** The loops of tlv.c, proved against the specification of module Tlv. */
module TlvCode {
  import opened Bytes
  import opened Tlv
  import TlvLabels

  lemma {:induction false} SizeSnoc(ts: seq<Data>, d: Data)
    ensures Size(ts + [d]) == Size(ts) + NodeSize(d)
  {
    if ts == [] {
      assert ts + [d] == [d] && [d][1..] == [];
    } else {
      assert (ts + [d])[1..] == ts[1..] + [d];
      SizeSnoc(ts[1..], d);
    }
  }

  lemma WrittenCons(asInstance: bool, d: Data, c: seq<byte>, ts: seq<Data>, b: seq<byte>)
    requires EncodableNode(d) && WrittenNode(asInstance, d, c)
    requires Encodable(ts) && Written(asInstance, ts, b)
    ensures Encodable([d] + ts) && Written(asInstance, [d] + ts, c + b)
  {
    var all := [d] + ts;
    assert all[0] == d && all[1..] == ts;
    assert (c + b)[..NodeSize(d)] == c && (c + b)[NodeSize(d)..] == b;
  }

  lemma {:induction false} WrittenSnoc(asInstance: bool, ts: seq<Data>, b: seq<byte>, d: Data, c: seq<byte>)
    requires Encodable(ts) && Written(asInstance, ts, b)
    requires EncodableNode(d) && WrittenNode(asInstance, d, c)
    ensures Encodable(ts + [d]) && Written(asInstance, ts + [d], b + c)
    decreases |ts|
  {
    hide *;
    if ts == [] {
      EmptyPrefix(asInstance, ts);
      WrittenCons(asInstance, d, c, [], []);
      assert |b| == 0 by { WrittenLength(asInstance, ts, b); }
      assert b + c == c + [] && ts + [d] == [d] + [];
    } else {
      WrittenUncons(asInstance, ts, b);
      var n := NodeSize(ts[0]);
      WrittenSnoc(asInstance, ts[1..], b[n..], d, c);
      WrittenCons(asInstance, ts[0], b[..n], ts[1..] + [d], b[n..] + c);
      assert [ts[0]] + (ts[1..] + [d]) == ts + [d];
      assert b[..n] + (b[n..] + c) == b + c;
    }
  }

  lemma WrittenLength(asInstance: bool, ts: seq<Data>, b: seq<byte>)
    requires Encodable(ts) && Written(asInstance, ts, b)
    ensures |b| == Size(ts) && (ts == [] ==> b == [])
  {}

  lemma WrittenUncons(asInstance: bool, ts: seq<Data>, b: seq<byte>)
    requires ts != [] && Encodable(ts) && Written(asInstance, ts, b)
    ensures EncodableNode(ts[0]) && Encodable(ts[1..]) && NodeSize(ts[0]) <= |b|
    ensures WrittenNode(asInstance, ts[0], b[..NodeSize(ts[0])])
    ensures Written(asInstance, ts[1..], b[NodeSize(ts[0])..])
  {}

  /** Two buffer contents that agree up to `mid`. */
  lemma Glue(a: seq<byte>, b: seq<byte>, start: nat, mid: nat, end: nat)
    requires start <= mid <= end <= |b| && mid <= |a| && a[..mid] == b[..mid]
    ensures b[start..end] == a[start..mid] + b[mid..end] && b[..start] == a[..start]
  {
    assert a[start..mid] == a[..mid][start..] && a[..start] == a[..mid][..start];
    assert b[start..mid] == b[..mid][start..] && b[..start] == b[..mid][..start];
  }

  /** prv_getLength: the size pass. */
  method GetLength(ts: seq<Data>) returns (length: int)
    ensures length == if Encodable(ts) then Size(ts) else -1
    decreases ts
  {
    length := 0;
    var i := 0;
    while i < |ts| && length != -1
      invariant 0 <= i <= |ts|
      invariant length == if Encodable(ts[..i]) then Size(ts[..i]) else -1
    {
      var d := ts[i];
      assert ts[..i + 1] == ts[..i] + [d];
      SizeSnoc(ts[..i], d);
      if d.IsContainer() {
        var subLength := GetLength(d.children);
        if subLength == -1 {
          length := -1;
          assert !EncodableNode(ts[..i + 1][i]);
        } else {
          length := length + HeaderLength(d.id, subLength) + subLength;
        }
      } else if d.IsLeaf() {
        length := length + HeaderLength(d.id, |LeafBytes(d)|) + |LeafBytes(d)|;
      } else {
        length := -1;
        assert !EncodableNode(ts[..i + 1][i]);
      }
      i := i + 1;
    }
    if length == -1 {
      assert forall k :: 0 <= k < i ==> ts[..i][k] == ts[k];
    } else {
      assert ts[..i] == ts;
    }
  }

  /** prv_createHeader: at `index`, touching nothing before it. */
  method CreateHeader(buffer: array<byte>, index: nat, t: HeaderType, id: u16, len: nat) returns (n: nat)
    requires index + HeaderLength(id, len) <= buffer.Length
    modifies buffer
    ensures n == HeaderLength(id, len)
    ensures IsHeader(buffer[index..index + n], t, id, len)
    ensures buffer[..index] == old(buffer[..index])
  {
    n := HeaderLength(id, len);
    hide LengthBits, LengthFieldSize;
    var first := TypeBits(t);
    var offset;
    if id > 0xFF {
      first := first + 0x20;
      buffer[index + 1] := id / 0x100 % 0x100;
      buffer[index + 2] := id % 0x100;
      offset := 3;
    } else {
      buffer[index + 1] := id;
      offset := 2;
    }
    buffer[index] := first + LengthBits(len);
    ghost var a := buffer[..];
    assert a[index + 1..index + offset] == BigEndian(id, offset - 1);
    WriteLength(buffer, index + offset, len);
    Glue(a, buffer[..], index, index + offset, index + n);
    HeaderParts(a[index..index + offset], buffer[index + offset..index + n], t, id, len);
  }

  lemma HeaderParts(fixed: seq<byte>, field: seq<byte>, t: HeaderType, id: u16, len: nat)
    requires |fixed| == (if id > 0xFF then 3 else 2) && |field| == LengthFieldSize(len)
    requires fixed[0] == FirstByte(t, id, len) && fixed[1..] == BigEndian(id, |fixed| - 1)
    requires len <= MAX_CONTENT ==> field == BigEndian(len, |field|)
    ensures IsHeader(fixed + field, t, id, len)
  {
    assert (fixed + field)[1..|fixed|] == fixed[1..] && (fixed + field)[|fixed|..] == field;
  }

  /** The length bytes of prv_createHeader; an oversized length writes none of them. */
  method WriteLength(buffer: array<byte>, at: nat, len: nat)
    requires at + LengthFieldSize(len) <= buffer.Length
    modifies buffer
    ensures len <= MAX_CONTENT ==> buffer[at..at + LengthFieldSize(len)] == BigEndian(len, LengthFieldSize(len))
    ensures buffer[..at] == old(buffer[..at])
  {
    if len <= 7 {
    } else if len <= 0xFF {
      buffer[at] := len;
    } else if len <= 0xFFFF {
      buffer[at] := len / 0x100 % 0x100;
      buffer[at + 1] := len % 0x100;
    } else if len <= MAX_CONTENT {
      buffer[at] := len / 0x1_0000 % 0x100;
      buffer[at + 1] := len / 0x100 % 0x100;
      buffer[at + 2] := len % 0x100;
      assert BigEndian(len, 3) == BigEndian(len / 0x100, 2) + [len % 0x100];
      assert BigEndian(len / 0x100, 2) == [len / 0x1_0000 % 0x100, len / 0x100 % 0x100];
    }
  }

  /** memcpy into a buffer at `index`. */
  method CopyIn(buffer: array<byte>, index: nat, data: seq<byte>)
    requires index + |data| <= buffer.Length
    modifies buffer
    ensures buffer[..index] == old(buffer[..index])
    ensures buffer[index..index + |data|] == data
  {
    var k := 0;
    while k < |data|
      invariant 0 <= k <= |data|
      invariant buffer[..index] == old(buffer[..index])
      invariant buffer[index..index + k] == data[..k]
    {
      buffer[index + k] := data[k];
      k := k + 1;
    }
  }

  /** xiny_tlv_serialize_lwm2m: the write pass fills exactly the bytes the size pass promised, at every level. */
  method Serialize(asInstance: bool, ts: seq<Data>) returns (length: int, buffer: array?<byte>)
    ensures length == if Encodable(ts) then Size(ts) else -1
    ensures length <= 0 ==> buffer == null
    ensures length > 0 ==> buffer != null && fresh(buffer) && Encodable(ts) && Written(asInstance, ts, buffer[..])
    ensures length > 0 ==> TlvLabels.Labelled(asInstance, ts, buffer[..])
    decreases ts, 2
  {
    hide *;
    buffer := null;
    length := GetLength(ts);
    if length <= 0 {
      return;
    }
    var out := new byte[length];
    var index := 0;
    var i := 0;
    EmptyPrefix(asInstance, ts);
    assert out[..0] == [];
    while i < |ts|
      invariant 0 <= i <= |ts| && index == Size(ts[..i]) <= out.Length
      invariant Encodable(ts[..i]) && Written(asInstance, ts[..i], out[..index])
    {
      SizeSplit(ts, i);
      ghost var start, done := index, out[..index];
      index := WriteNode(asInstance, ts[i], out, index);
      WrittenStep(asInstance, ts, i, done, out[start..index]);
      assert out[..index] == done + out[start..index];
      i := i + 1;
    }
    assert ts[..i] == ts && out[..index] == out[..];
    TlvLabels.WrittenIsLabelled(asInstance, ts, out[..]);
    buffer := out;
  }

  lemma EmptyPrefix(asInstance: bool, ts: seq<Data>)
    ensures ts[..0] == [] && Size(ts[..0]) == 0 && Encodable(ts[..0]) && Written(asInstance, ts[..0], [])
  {}

  lemma WrittenStep(asInstance: bool, ts: seq<Data>, i: nat, b: seq<byte>, c: seq<byte>)
    requires i < |ts| && Encodable(ts[..i]) && EncodableNode(ts[i])
    requires Written(asInstance, ts[..i], b) && WrittenNode(asInstance, ts[i], c)
    ensures Encodable(ts[..i + 1]) && Written(asInstance, ts[..i + 1], b + c)
  {
    hide *;
    assert ts[..i + 1] == ts[..i] + [ts[i]];
    WrittenSnoc(asInstance, ts[..i], b, ts[i], c);
  }

  lemma SizeSplit(ts: seq<Data>, i: nat)
    requires i < |ts| && Encodable(ts)
    ensures EncodableNode(ts[i])
    ensures Size(ts[..i + 1]) == Size(ts[..i]) + NodeSize(ts[i]) <= Size(ts)
  {
    hide Size, NodeSize, EncodableNode;
    assert ts[..i + 1] == ts[..i] + [ts[i]];
    SizeSnoc(ts[..i], ts[i]);
    SizePrefix(ts, i + 1);
  }

  lemma {:induction false} SizePrefix(ts: seq<Data>, i: nat)
    requires i <= |ts|
    ensures Size(ts[..i]) <= Size(ts)
    decreases i
  {
    if i > 0 {
      assert ts[..i][1..] == ts[1..][..i - 1];
      SizePrefix(ts[1..], i - 1);
    }
  }

  /** The content part of one iteration of the write pass. */
  method Content(asInstance: bool, d: Data) returns (content: seq<byte>)
    requires EncodableNode(d)
    ensures |content| == ContentSize(d) && WrittenContent(asInstance, d, content)
    decreases d, 0
  {
    if d.IsContainer() {
      var res, tmp := Serialize(asInstance || d.MultipleResource?, d.children);
      content := if tmp == null then [] else tmp[..];
      if res == 0 {
        EmptyWritten(asInstance || d.MultipleResource?, d.children);
      }
    } else {
      content := LeafBytes(d);
    }
  }

  lemma EmptyWritten(asInstance: bool, ts: seq<Data>)
    requires Encodable(ts) && Size(ts) == 0
    ensures ts == [] && Written(asInstance, ts, [])
  {}

  /** One iteration of the write pass. */
  method WriteNode(asInstance: bool, d: Data, buffer: array<byte>, start: nat) returns (index: nat)
    requires EncodableNode(d) && start + NodeSize(d) <= buffer.Length
    modifies buffer
    ensures index == start + NodeSize(d)
    ensures buffer[..start] == old(buffer[..start])
    ensures WrittenNode(asInstance, d, buffer[start..index])
    decreases d, 1
  {
    hide *;
    NodeParts(d);
    var content := Content(asInstance, d);
    ghost var mid := start + HeaderLength(d.id, |content|);
    index := WriteParts(buffer, start, TypeOf(asInstance, d), d.id, content);
    NodeWritten(asInstance, d, buffer[start..mid], content);
    assert buffer[start..index] == buffer[start..mid] + buffer[mid..index];
  }

  /** A header and the bytes it describes. */
  method WriteParts(buffer: array<byte>, start: nat, t: HeaderType, id: u16, content: seq<byte>) returns (index: nat)
    requires start + HeaderLength(id, |content|) + |content| <= buffer.Length
    modifies buffer
    ensures index == start + HeaderLength(id, |content|) + |content|
    ensures buffer[..start] == old(buffer[..start])
    ensures IsHeader(buffer[start..start + HeaderLength(id, |content|)], t, id, |content|)
    ensures buffer[start + HeaderLength(id, |content|)..index] == content
  {
    hide *;
    var n := CreateHeader(buffer, start, t, id, |content|);
    ghost var a := buffer[..];
    CopyIn(buffer, start + n, content);
    index := start + n + |content|;
    Glue(a, buffer[..], start, start + n, start + n);
  }

  lemma NodeParts(d: Data)
    requires EncodableNode(d)
    ensures d.IsContainer() || d.IsLeaf()
    ensures NodeSize(d) == HeaderLength(d.id, ContentSize(d)) + ContentSize(d)
  {}

  lemma NodeWritten(asInstance: bool, d: Data, header: seq<byte>, content: seq<byte>)
    requires EncodableNode(d) && |content| == ContentSize(d)
    requires IsHeader(header, TypeOf(asInstance, d), d.id, |content|)
    requires WrittenContent(asInstance, d, content)
    ensures WrittenNode(asInstance, d, header + content)
  {
    assert (header + content)[..|header|] == header && (header + content)[|header|..] == content;
  }

  /** The value part of one iteration of the parser. */
  method ParseOne(h: Header, body: seq<byte>) returns (d: Option<Data>)
    requires |body| == h.dataLen
    ensures d == ParseNode(h, body)
    decreases |body|, 1
  {
    if h.kind.OfObjectInstance? || h.kind.OfMultipleResource? {
      var children := ParseLoop(body);
      d := if children == [] then None else Some(ContainerOf(h.kind, h.id, children));
    } else {
      d := Some(Opaque(h.id, body));
    }
  }

  /** xiny_tlv_parse_lwm2m: the returned count and array. */
  method ParseLoop(b: seq<byte>) returns (data: seq<Data>)
    ensures data == if Parse(b).Some? then Parse(b).value else []
    decreases |b|, 0
  {
    hide DecodeHeader, ParseNode;
    data := [];
    var index := 0;
    assert b[0..] == b;
    assert Appended([], Parse(b)) == Parse(b) by {
      assert Parse(b).Some? ==> [] + Parse(b).value == Parse(b).value;
    }
    while true
      invariant 0 <= index <= |b|
      invariant Parse(b) == Appended(data, Parse(b[index..]))
      decreases |b| - index
    {
      var header := DecodeHeader(b[index..]);
      if header.None? {
        assert data + [] == data;
        return;
      }
      var h := header.value;
      var end := h.dataIndex + h.dataLen;
      var d := ParseOne(h, b[index..][h.dataIndex..end]);
      if d.None? {
        data := [];
        return;
      }
      AppendedPrepend(data, d.value, Parse(b[index..][end..]));
      assert b[index..][end..] == b[index + end..];
      data := data + [d.value];
      index := index + end;
    }
  }

  function Appended(data: seq<Data>, rest: Option<seq<Data>>): (r: Option<seq<Data>>)
  {
    if rest.Some? then Some(data + rest.value) else None
  }

  lemma AppendedPrepend(data: seq<Data>, d: Data, rest: Option<seq<Data>>)
    ensures Appended(data, Prepend(Some(d), rest)) == Appended(data + [d], rest)
  {
    if rest.Some? {
      assert data + ([d] + rest.value) == (data + [d]) + rest.value;
    }
  }
}
