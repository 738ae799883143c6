/** The registration payload and query as the client prints them: sizing, then printing into a buffer of that size. */
module RegisterPayloadCode {
  import opened Bytes
  import opened Decimal
  import opened RegisterPayload

  // ----- texts and prefixes

  lemma {:induction false} LinksAppend(a: seq<Entry>, b: seq<Entry>)
    ensures Links(a + b) == Links(a) + Links(b)
    decreases |b|
  {
    hide EntryLink;
    if b == [] {
      assert a + b == a;
    } else {
      var b' := b[..|b| - 1];
      assert (a + b)[..|a + b| - 1] == a + b';
      LinksAppend(a, b');
      assert Links(a + b) == Links(a) + Links(b') + EntryLink(b[|b| - 1]) + ",";
    }
  }

  lemma NextObject(os: seq<Object>, altPath: string, i: nat)
    requires i < |os|
    ensures FullText(os[..i + 1], altPath) == FullText(os[..i], altPath) + Links(ObjectEntries(os[i]))
  {
    assert os[..i + 1][..i] == os[..i];
    assert Entries(os[..i + 1]) == Entries(os[..i]) + ObjectEntries(os[i]);
    LinksAppend(Entries(os[..i]), ObjectEntries(os[i]));
    hide RootLink, Links, Entries, ObjectEntries;
  }

  lemma {:induction false} TextGrows(os: seq<Object>, altPath: string, i: nat)
    requires i <= |os|
    ensures |FullText(os[..i], altPath)| <= |FullText(os, altPath)|
    decreases |os| - i
  {
    if i == |os| {
      assert os[..i] == os;
    } else {
      hide FullText, Links, ObjectEntries;
      NextObject(os, altPath, i);
      TextGrows(os, altPath, i + 1);
    }
  }

  /** The part that an object's links share. */
  function Template(id: u16): (s: string)
  {
    "</" + Digits(id) + "/"
  }

  function InstanceText(i: u16): (s: string)
  {
    Digits(i) + ">,"
  }

  function InstanceLinks(id: u16, instances: seq<u16>): (s: string)
  {
    Links(InstanceEntries(id, instances))
  }

  lemma NextInstance(id: u16, instances: seq<u16>, j: nat)
    requires j < |instances|
    ensures InstanceLinks(id, instances[..j + 1]) ==
            InstanceLinks(id, instances[..j]) + Template(id) + InstanceText(instances[j])
  {
    hide Digits;
    var es := InstanceEntries(id, instances[..j + 1]);
    assert es[..|es| - 1] == InstanceEntries(id, instances[..j]);
    assert EntryLink(es[j]) + "," == Template(id) + InstanceText(instances[j]);
  }

  lemma {:induction false} InstancesGrow(id: u16, instances: seq<u16>, j: nat)
    requires j <= |instances|
    ensures |InstanceLinks(id, instances[..j])| <= |InstanceLinks(id, instances)|
    decreases |instances| - j
  {
    if j == |instances| {
      assert instances[..j] == instances;
    } else {
      hide InstanceLinks, Template, InstanceText;
      NextInstance(id, instances, j);
      InstancesGrow(id, instances, j + 1);
    }
  }

  lemma LonelyObject(o: Object)
    requires o.id != SECURITY_OBJECT && o.instances == []
    ensures Links(ObjectEntries(o)) == "</" + Digits(o.id) + ">," && Template(o.id) == "</" + Digits(o.id) + "/"
  {
    hide Digits;
    var es := ObjectEntries(o);
    assert es == [Entry(o.id, None)] && es[..0] == [];
    assert Links(es) == Links([]) + EntryLink(es[0]) + ",";
  }

  // ----- printing

  /** prv_getObjectTemplate. */
  method GetObjectTemplate(buffer: array<char>, at: nat, id: u16) returns (n: int)
    requires at <= buffer.Length
    modifies buffer
    ensures n == if at + |Template(id)| < buffer.Length then |Template(id)| else -1
    ensures n >= 0 ==> buffer[..at + n] == old(buffer[..at]) + Template(id)
  {
    hide Digits;
    var length := buffer.Length - at;
    if length < 5 {
      return -1;
    }
    buffer[at] := '<';
    buffer[at + 1] := '/';
    var index := 2;
    ghost var before := buffer[..at + 2];
    assert before == old(buffer[..at]) + "</";
    var result := AppendNumber(id, buffer, at + index);
    if result == 0 {
      return -1;
    }
    index := index + result;
    assert buffer[..at + index] == before + Digits(id);
    if length - index < 2 {
      return -1;
    }
    buffer[at + index] := '/';
    index := index + 1;
    return index;
  }

  /** memcpy of the template. */
  method CopyTemplate(buffer: array<char>, start: nat, n: nat, to: nat)
    requires start + n <= to && to + n <= buffer.Length
    modifies buffer
    ensures buffer[..to + n] == old(buffer[..to]) + old(buffer[start..start + n])
  {
    var i := 0;
    while i < n
      invariant 0 <= i <= n
      invariant buffer[..to + i] == old(buffer[..to]) + old(buffer[start..start + i])
    {
      assert buffer[start + i] == buffer[..to + i][start + i] == old(buffer[..to])[start + i];
      buffer[to + i] := buffer[start + i];
      i := i + 1;
    }
  }

  /** One instance behind its template. */
  method PrintInstance(buffer: array<char>, at: nat, i: u16) returns (index: int)
    requires at < buffer.Length
    modifies buffer
    ensures index == if at + |InstanceText(i)| < buffer.Length then at + |InstanceText(i)| else -1
    ensures index >= 0 ==> buffer[..index] == old(buffer[..at]) + InstanceText(i)
  {
    hide Digits;
    var result := AppendNumber(i, buffer, at);
    if result == 0 {
      return -1;
    }
    ghost var before := buffer[..at + result];
    var n := StringCopy(buffer, at + result, ">,");
    if n < 0 {
      return -1;
    }
    index := at + result + n;
    assert buffer[..index] == before + ">,";
  }

  /** What one turn of the instance loop adds. */
  ghost function NextText(id: u16, i: u16, first: bool): (s: string)
  {
    (if first then "" else Template(id)) + InstanceText(i)
  }

  /** The body of the instance loop: the template is copied unless it is the one printed first. */
  method PrintNext(buffer: array<char>, start: nat, length: nat, at: nat, id: u16, i: u16) returns (index: int)
    requires length == |Template(id)| && start + length <= at < buffer.Length
    requires buffer[start..start + length] == Template(id)
    modifies buffer
    ensures var text := NextText(id, i, at == start + length);
            && index == (if at + |text| < buffer.Length then at + |text| else -1)
            && (index >= 0 ==> buffer[..index] == old(buffer[..at]) + text)
  {
    hide Template, InstanceText;
    var to := at;
    if to != start + length {
      if buffer.Length - to <= length {
        return -1;
      }
      CopyTemplate(buffer, start, length, to);
      to := to + length;
    }
    ghost var printed := buffer[..to];
    index := PrintInstance(buffer, to, i);
    if index >= 0 {
      assert buffer[..index] == printed + InstanceText(i);
    }
  }

  /** One turn in terms of what is in the buffer. */
  method PrintTurn(buffer: array<char>, start: nat, length: nat, at: nat, o: Object, j: nat, ghost before: string)
    returns (index: int)
    requires j < |o.instances| && length == |Template(o.id)| && |before| == start
    requires at == start + |Printed(o.id, o.instances, j)| < buffer.Length
    requires buffer[..at] == before + Printed(o.id, o.instances, j)
    modifies buffer
    ensures index == var end := start + |Printed(o.id, o.instances, j + 1)|; if end < buffer.Length then end else -1
    ensures index >= 0 ==> buffer[..index] == before + Printed(o.id, o.instances, j + 1)
  {
    hide *;
    ghost var text := NextText(o.id, o.instances[j], j == 0);
    ghost var printed := Printed(o.id, o.instances, j);
    PrintedNext(o.id, o.instances, j);
    PrintedStarts(o.id, o.instances, j);
    TemplateStays(buffer, at, before, printed, Template(o.id));
    index := PrintNext(buffer, start, length, at, o.id, o.instances[j]);
    assert (before + printed) + text == before + (printed + text);
  }

  /** The instances of one object, behind the template that was printed at `start`. */
  method PrintInstances(buffer: array<char>, start: nat, length: nat, o: Object) returns (index: int)
    requires o.instances != [] && length == |Template(o.id)| && start + length < buffer.Length
    requires buffer[start..start + length] == Template(o.id)
    modifies buffer
    ensures index == var end := start + |InstanceLinks(o.id, o.instances)|; if end < buffer.Length then end else -1
    ensures index >= 0 ==> buffer[..index] == old(buffer[..start]) + InstanceLinks(o.id, o.instances)
  {
    ghost var before := buffer[..start];
    index := start + length;
    assert buffer[..index] == before + Template(o.id);
    assert Printed(o.id, o.instances, 0) == Template(o.id);
    hide *;
    var j := 0;
    while j < |o.instances|
      invariant 0 <= j <= |o.instances| && index == start + |Printed(o.id, o.instances, j)| < buffer.Length
      invariant buffer[..index] == before + Printed(o.id, o.instances, j)
    {
      var next := PrintTurn(buffer, start, length, index, o, j, before);
      PrintedGrows(o.id, o.instances, j + 1);
      if next < 0 {
        return -1;
      }
      index := next;
      j := j + 1;
    }
    assert Printed(o.id, o.instances, j) == InstanceLinks(o.id, o.instances) by { PrintedAll(o.id, o.instances); }
  }

  /** What has been printed before instance j. */
  ghost function Printed(id: u16, instances: seq<u16>, j: nat): (s: string)
    requires j <= |instances|
  {
    if j == 0 then Template(id) else InstanceLinks(id, instances[..j])
  }

  lemma PrintedNext(id: u16, instances: seq<u16>, j: nat)
    requires j < |instances|
    ensures Printed(id, instances, j + 1) == Printed(id, instances, j) + NextText(id, instances[j], j == 0)
  {
    NoInstances(id, instances);
    NextInstance(id, instances, j);
    hide InstanceLinks, Template, InstanceText;
  }

  lemma {:induction false} PrintedStarts(id: u16, instances: seq<u16>, j: nat)
    requires j <= |instances|
    ensures Template(id) <= Printed(id, instances, j) && (|Printed(id, instances, j)| == |Template(id)| <==> j == 0)
    decreases j
  {
    if j > 0 {
      assert |NextText(id, instances[j - 1], j == 1)| > 0;
      hide NextText;
      PrintedNext(id, instances, j - 1);
      PrintedStarts(id, instances, j - 1);
      hide Printed;
    }
  }

  lemma PrintedGrows(id: u16, instances: seq<u16>, j: nat)
    requires 0 < j <= |instances|
    ensures |Printed(id, instances, j)| <= |InstanceLinks(id, instances)|
  {
    hide InstanceLinks;
    InstancesGrow(id, instances, j);
  }

  lemma PrintedAll(id: u16, instances: seq<u16>)
    requires instances != []
    ensures Printed(id, instances, |instances|) == InstanceLinks(id, instances)
  {
    assert instances[..|instances|] == instances;
  }

  lemma TemplateStays(buffer: array<char>, index: nat, before: string, printed: string, template: string)
    requires index <= buffer.Length && buffer[..index] == before + printed && template <= printed
    ensures |before| + |template| <= buffer.Length && buffer[|before|..|before| + |template|] == template
  {
    assert buffer[|before|..index] == buffer[..index][|before|..] == printed;
  }

  /** An object without instances: the end of the path replaces the last slash of the template. */
  method EndPath(buffer: array<char>, start: nat, length: nat, o: Object) returns (index: int)
    requires o.id != SECURITY_OBJECT && o.instances == []
    requires length == |Template(o.id)| && start + length < buffer.Length
    requires buffer[start..start + length] == Template(o.id)
    modifies buffer
    ensures index == var end := start + |Links(ObjectEntries(o))|; if end < buffer.Length then end else -1
    ensures index >= 0 ==> buffer[..index] == old(buffer[..start]) + Links(ObjectEntries(o))
  {
    LonelyObject(o);
    hide Digits, Links, ObjectEntries, Template;
    ghost var before := buffer[..start];
    index := start + length - 1;
    assert buffer[start..index] == buffer[start..start + length][..length - 1] == "</" + Digits(o.id);
    assert buffer[..index] == before + buffer[start..index];
    var result := StringCopy(buffer, index, ">,");
    if result < 0 {
      return -1;
    }
    index := index + result;
    assert buffer[..index] == before + ("</" + Digits(o.id) + ">,");
  }

  /** The body of the object loop. */
  method PrintObject(buffer: array<char>, start: nat, o: Object) returns (index: int)
    requires start < buffer.Length
    modifies buffer
    ensures index == var end := start + |Links(ObjectEntries(o))|; if end < buffer.Length then end else -1
    ensures index >= 0 ==> buffer[..index] == old(buffer[..start]) + Links(ObjectEntries(o))
  {
    if o.id == SECURITY_OBJECT {
      return start;
    }
    TemplateFits(o);
    hide *;
    ghost var before := buffer[..start];
    var length := GetObjectTemplate(buffer, start, o.id);
    if length < 0 {
      return -1;
    }
    TemplateStays(buffer, start + length, before, Template(o.id), Template(o.id));
    assert buffer[..start] == before by { assert buffer[..start] == buffer[..start + length][..start]; }
    if o.instances == [] {
      index := EndPath(buffer, start, length, o);
    } else {
      index := PrintInstances(buffer, start, length, o);
    }
  }

  lemma TemplateFits(o: Object)
    requires o.id != SECURITY_OBJECT
    ensures |Template(o.id)| < |Links(ObjectEntries(o))|
    ensures o.instances != [] ==> Links(ObjectEntries(o)) == InstanceLinks(o.id, o.instances)
  {
    if o.instances == [] {
      LonelyObject(o);
    } else {
      NoInstances(o.id, o.instances);
      NextInstance(o.id, o.instances, 0);
      InstancesGrow(o.id, o.instances, 1);
      assert |InstanceText(o.instances[0])| > 0;
      hide Template;
    }
  }

  /** xiny_object_getRegisterPayload_lwm2m: it succeeds exactly when the text with its last comma and a terminating zero
      fits, and then leaves the payload, without that comma, in the buffer. */
  method PrintPayload(os: seq<Object>, altPath: string, buffer: array<char>) returns (n: nat)
    requires ValidPath(altPath)
    modifies buffer
    ensures n == if |FullText(os, altPath)| < buffer.Length then |Payload(os, altPath)| else 0
    ensures n > 0 ==> buffer[..n] == Payload(os, altPath)
  {
    n := 0;
    var start := PrintRoot(altPath, buffer);
    assert os[..0] == [] && FullText(os[..0], altPath) == RootLink(altPath) + ",";
    TextGrows(os, altPath, 0);
    hide Links, ObjectEntries, FullText, RootLink;
    if start < 0 {
      return;
    }
    var index, i := start, 0;
    while i < |os|
      invariant 0 <= i <= |os| && index == |FullText(os[..i], altPath)| < buffer.Length
      invariant buffer[..index] == FullText(os[..i], altPath)
    {
      NextObject(os, altPath, i);
      TextGrows(os, altPath, i + 1);
      var next := PrintObject(buffer, index, os[i]);
      if next < 0 {
        return;
      }
      index := next;
      i := i + 1;
    }
    assert os[..i] == os;
    index := index - 1;
    assert buffer[..index] == Payload(os, altPath);
    buffer[index] := '\0';
    n := index;
  }

  lemma PathHasNoZero(altPath: string)
    requires ValidPath(altPath)
    ensures forall i :: 0 <= i < |altPath| ==> altPath[i] != '\0'
  {}

  /** The three string copies in front of the object loop. */
  method PrintRoot(altPath: string, buffer: array<char>) returns (index: int)
    requires ValidPath(altPath)
    modifies buffer
    ensures index == var text := RootLink(altPath) + ","; if |text| < buffer.Length then |text| else -1
    ensures index >= 0 ==> buffer[..index] == RootLink(altPath) + ","
  {
    PathHasNoZero(altPath);
    ghost var path := if altPath == "" then "/" else altPath;
    var kind := RESOURCE_TYPE + ",";
    assert forall i :: 0 <= i < |kind| ==> kind[i] != '\0';
    assert RootLink(altPath) + "," == "<" + path + kind;
    hide RootLink, ValidPath;
    var result := StringCopy(buffer, 0, "<");
    if result < 0 {
      return -1;
    }
    index := result;
    assert buffer[..index] == "<";
    if altPath != "" {
      result := StringCopy(buffer, index, altPath);
    } else {
      result := StringCopy(buffer, index, "/");
    }
    if result < 0 {
      return -1;
    }
    index := index + result;
    assert buffer[..index] == "<" + path;
    result := StringCopy(buffer, index, kind);
    if result < 0 {
      return -1;
    }
    index := index + result;
  }

  // ----- sizing

  /** The contribution of one object to the length. */
  method ObjectLength(o: Object, buffer: array<char>) returns (n: nat)
    requires buffer.Length == 10
    modifies buffer
    ensures n == |Links(ObjectEntries(o))|
  {
    if o.id == SECURITY_OBJECT {
      return 0;
    }
    ShortId(o.id);
    var length := GetObjectTemplate(buffer, 0, o.id);
    var index := length;
    if o.instances == [] {
      LonelyObject(o);
      index := index - 1;
      index := index + 2;
    } else {
      assert Links(ObjectEntries(o)) == InstanceLinks(o.id, o.instances);
      hide Links, ObjectEntries, Digits;
      var j := 0;
      assert InstanceLinks(o.id, o.instances[..0]) == "" by { NoInstances(o.id, o.instances); }
      hide InstanceLinks, Template;
      while j < |o.instances|
        invariant 0 <= j <= |o.instances| && length <= index
        invariant j == 0 <==> index == length
        invariant j > 0 ==> index == |InstanceLinks(o.id, o.instances[..j])|
      {
        NextInstance(o.id, o.instances, j);
        if index != length {
          index := index + length;
        }
        ShortId(o.instances[j]);
        var result := IntToText(o.instances[j], buffer, 0, 10);
        index := index + result;
        index := index + 2;
        j := j + 1;
      }
      assert o.instances[..j] == o.instances;
    }
    n := index;
  }

  lemma NoInstances(id: u16, instances: seq<u16>)
    ensures InstanceLinks(id, instances[..0]) == ""
  {
    assert InstanceEntries(id, instances[..0]) == [];
  }

  lemma ShortId(id: u16)
    ensures |Digits(id)| <= 5 && |Template(id)| <= 8
  {
    DigitsBound(id, 5);
  }

  /** xiny_object_getRegisterPayload_lwm2mBufferLength_lwm2m. */
  method PayloadBufferLength(os: seq<Object>, altPath: string) returns (n: nat)
    ensures n == |FullText(os, altPath)| + 1 == |Payload(os, altPath)| + 2
  {
    var index := 1;
    if altPath != "" {
      index := index + |altPath|;
    } else {
      index := index + 1;
    }
    index := index + |RESOURCE_TYPE + ","|;
    assert os[..0] == [] && |FullText(os[..0], altPath)| == |RootLink(altPath)| + 1 == index;
    hide Links, ObjectEntries, FullText, RootLink;
    var buffer := new char[10];
    var i := 0;
    while i < |os|
      invariant 0 <= i <= |os| && index == |FullText(os[..i], altPath)|
    {
      NextObject(os, altPath, i);
      var length := ObjectLength(os[i], buffer);
      index := index + length;
      i := i + 1;
    }
    assert os[..i] == os;
    return index + 1;
  }

  /** Sizing and printing agree: a buffer of the computed length always suffices, and holds the payload, which is two
      characters shorter. */
  method MakePayload(os: seq<Object>, altPath: string) returns (payload: string)
    requires ValidPath(altPath)
    ensures payload == Payload(os, altPath)
  {
    var length := PayloadBufferLength(os, altPath);
    var buffer := new char[length];
    var n := PrintPayload(os, altPath, buffer);
    assert |FullText(os, altPath)| >= 2;
    assert n == length - 2;
    payload := buffer[..n];
  }
}
