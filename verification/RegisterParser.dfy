/** The loops of the server's payload parser, each proved against its function. */
module RegisterParser {
  import opened Bytes
  import opened Decimal
  import opened RegisterPayload

  // ----- the scanning loops

  method SkipSpaces(s: string, from: nat) returns (i: nat)
    requires from <= |s|
    ensures i == from + Spaces(s[from..])
  {
    i := from;
    while i < |s| && s[i] == ' '
      invariant from <= i <= |s| && from + Spaces(s[from..]) == i + Spaces(s[i..])
    {
      assert s[i..][1..] == s[i + 1..];
      i := i + 1;
    }
  }

  method Scan(s: string, from: nat, c: char) returns (i: nat)
    requires from <= |s|
    ensures i == from + IndexOf(s[from..], c)
  {
    i := from;
    while i < |s| && s[i] != c
      invariant from <= i <= |s| && from + IndexOf(s[from..], c) == i + IndexOf(s[i..], c)
    {
      assert s[i..][1..] == s[i + 1..];
      i := i + 1;
    }
  }

  method Trim(s: string) returns (length: nat)
    ensures length <= |s| && s[..length] == TrimRight(s)
  {
    length := |s|;
    assert s[..length] == s;
    while length > 0 && s[length - 1] == ' '
      invariant length <= |s| && TrimRight(s[..length]) == TrimRight(s)
    {
      assert s[..length][..length - 1] == s[..length - 1];
      length := length - 1;
    }
  }

  const INT_MAX := 0x7FFF_FFFF

  /** prv_parseNumber. The accumulator runs one factor of ten ahead; `inRange` says that it never passed what an int holds,
      which is so exactly when ten times the number is in that range. Beyond it the source has no defined result. */
  method ParseNumber(s: string, first: char) returns (n: Option<nat>, inRange: bool)
    ensures n == Number(s, first)
    ensures n.Some? ==> (inRange <==> 10 * n.value <= INT_MAX)
  {
    inRange := true;
    if first == '/' {
      return None, inRange;
    }
    ghost var digits := s[..IndexOf(s, '/')];
    var result, head := 0, 0;
    assert s[0..] == s;
    while head < |s| && s[head] != '/'
      invariant 0 <= head <= |s| && IndexOf(s, '/') == head + IndexOf(s[head..], '/')
      invariant AllDigits(s[..head]) && result == Value(s[..head]) * 10
      invariant inRange <==> result <= INT_MAX
    {
      assert s[head..][1..] == s[head + 1..];
      assert digits[head] == s[head];
      assert s[..head + 1][..head] == s[..head];
      if IsDigit(s[head]) {
        result := result + DigitValue(s[head]);
        inRange := inRange && result <= INT_MAX;
        result := result * 10;
        inRange := inRange && result <= INT_MAX;
      } else {
        return None, inRange;
      }
      head := head + 1;
    }
    n := Some(result / 10);
  }

  /** prv_getId. */
  method ParseId(link: string) returns (e: Option<Entry>)
    ensures e == GetId(link)
  {
    hide Number, IndexOf, TrimRight;
    var length := Trim(link);
    var s := link[..length];
    if !(length >= 1 && s[0] == '<' && s[length - 1] == '>') {
      return None;
    }
    var path := s[1..length - 1];
    if |path| >= 1 && path[0] == '/' {
      path := path[1..];
    }
    var limit := Scan(path, 0, '/');
    assert path[0..] == path;
    var id, _ := ParseNumber(path[..limit], if path == "" then '>' else path[0]);
    if id.None? || id.value >= MAX_ID {
      return None;
    }
    if limit < |path| {
      var rest := path[limit + 1..];
      if |rest| > 0 {
        var instance, _ := ParseNumber(rest, rest[0]);
        if instance.Some? && instance.value < MAX_ID {
          return Some(Entry(id.value, Some(instance.value)));
        }
        return None;
      }
    }
    return Some(Entry(id.value, None));
  }

  /** The value half of prv_splitLinkAttribute. */
  method SplitValue(d: string, key: string, v: nat) returns (a: Option<Attribute>)
    requires 0 < v < |d|
    ensures a == WithValue(d, key, v)
  {
    hide IndexOf;
    var end := Scan(d, v, ';');
    var index: int := end - 1;
    ghost var from := end - 1;
    while index > v && d[index] == ' '
      invariant v - 1 <= index <= from
      invariant end > v ==> v <= index && LastVisible(d, v, from) == LastVisible(d, v, index)
      invariant end == v ==> index == v - 1
      decreases index - v
    {
      index := index - 1;
    }
    if index == v {
      return None;
    }
    a := Some(Attribute(key, d[v..index + 1], end));
    if end == v {
      assert d[v..index + 1] == "";
    }
  }

  /** prv_splitLinkAttribute. */
  method Split(d: string) returns (a: Option<Attribute>)
    ensures a == SplitAttribute(d)
  {
    hide IndexOf, Spaces, WithValue;
    var index := SkipSpaces(d, 0);
    assert d[0..] == d;
    if index == |d| {
      return None;
    }
    if d[index] == ';' {
      index := index + 1;
    }
    if index == |d| {
      return None;
    }
    var keyStart := index;
    index := Scan(d, index, '=');
    if index == keyStart || index == |d| {
      return None;
    }
    var key := d[keyStart..index];
    index := SkipSpaces(d, index + 1);
    if index == |d| {
      return None;
    }
    a := SplitValue(d, key, index);
  }

  /** The attribute loop of prv_parseLinkAttributes. */
  method ParseAttributes(d: string, json: bool) returns (r: Option<Flags>)
    ensures r == Attributes(d, Flags(json, false))
  {
    hide SplitAttribute;
    var f, index := Flags(json, false), 0;
    assert d[0..] == d;
    while index < |d|
      invariant 0 <= index <= |d| && Attributes(d, Flags(json, false)) == Attributes(d[index..], f)
    {
      var a := Split(d[index..]);
      if a.None? {
        return None;
      }
      assert d[index..][a.value.end..] == d[index + a.value.end..];
      if a.value.key == "rt" {
        if f.valid || a.value.value != "\"oma.lwm2m\"" {
          return None;
        }
        f := f.(valid := true);
      } else if a.value.key == "ct" {
        if f.json || a.value.value != "11543" {
          return None;
        }
        f := f.(json := true);
      }
      index := index + a.value.end;
    }
    assert d[index..] == "";
    return Some(f);
  }

  /** prv_parseLinkAttributes. */
  method ParseRootLink(link: string, json: bool) returns (r: Option<Root>)
    ensures r == ParseRoot(link, json)
  {
    hide Attributes, TrimRight;
    var length := Trim(link);
    if length < 2 || link[0] != '<' {
      return None;
    }
    var d := link[..length][1..];
    var index := |d| - 1;
    assert d[..index + 1] == d;
    while index > 0 && d[index] != '>'
      invariant 0 <= index < |d| && LastIndexOf(d, '>') == LastIndexOf(d[..index + 1], '>')
    {
      assert d[..index + 1][..index] == d[..index];
      index := index - 1;
    }
    hide LastIndexOf;
    if index == 0 || index == |d| - 1 {
      return None;
    }
    var pathStart := 0;
    if d[0] == '/' {
      pathStart := 1;
    }
    if d[index + 1] != ';' {
      return None;
    }
    var f := ParseAttributes(d[index + 2..], json);
    if f.None? || !f.value.valid {
      return None;
    }
    return Some(Root(f.value.json, if index - pathStart != 0 then Some(d[pathStart..index]) else None));
  }

  /** What is done with one link. */
  method TakeLink(c: Client, link: string) returns (r: Option<Client>)
    ensures r == Accept(c, link)
  {
    hide GetId, ParseRoot;
    var id := ParseId(link);
    if id.Some? {
      return Some(c.(objects := Record(c.objects, id.value)));
    } else if c.root.None? {
      var root := ParseRootLink(link, false);
      if root.None? {
        return None;
      }
      return Some(c.(root := root));
    }
    return None;
  }

  /** The last piece between commas is not blank, so that the loop passes the end of the payload by one. */
  function LastIsLink(s: string): (b: bool)
    decreases |s|
  {
    var t := s[Spaces(s)..];
    if t == "" then false
    else
      var k := IndexOf(t, ',');
      if k == |t| then true else LastIsLink(t[k + 1..])
  }

  /** One turn of the loop of prv_decodeRegisterPayload: `blank` is its break, no client is its error exit, and otherwise
      `end` is where the link ended. */
  method NextLink(payload: string, from: nat, c: Client) returns (blank: bool, next: Option<Client>, end: nat)
    requires from <= |payload|
    ensures end <= |payload| && (blank ==> next == Some(c)) && (!blank ==> from <= end)
    ensures var rest := payload[from..];
            if blank then Decode(rest, c) == Some(c) && !LastIsLink(rest)
            else if next.None? then Decode(rest, c).None?
            else if end == |payload| then Decode(rest, c) == next && LastIsLink(rest)
            else Decode(rest, c) == Decode(payload[end + 1..], next.value)
                 && LastIsLink(rest) == LastIsLink(payload[end + 1..])
  {
    hide Accept, Decode, LastIsLink, Spaces, IndexOf;
    var start := SkipSpaces(payload, from);
    end := start;
    if start == |payload| {
      NothingLeft(payload, from, c);
      return true, Some(c), end;
    }
    end := Scan(payload, start, ',');
    OneLink(payload, from, start, end, c);
    next := TakeLink(c, payload[start..end]);
    blank := false;
  }

  /** What is left of the payload decides as the whole does. */
  ghost predicate Left(payload: string, from: nat, c: Client)
  {
    && from <= |payload| && Decode(payload, NOBODY) == Decode(payload[from..], c)
    && LastIsLink(payload) == LastIsLink(payload[from..])
  }

  lemma LeftMoves(payload: string, from: nat, c: Client, blank: bool, next: Option<Client>, end: nat)
    requires Left(payload, from, c) && end <= |payload|
    requires var rest := payload[from..];
             if blank then next == Some(c) && Decode(rest, c) == Some(c) && !LastIsLink(rest)
             else if next.None? then Decode(rest, c).None?
             else if end == |payload| then Decode(rest, c) == next && LastIsLink(rest)
             else Decode(rest, c) == Decode(payload[end + 1..], next.value)
                  && LastIsLink(rest) == LastIsLink(payload[end + 1..])
    ensures blank || next.None? || end == |payload| ==> Decode(payload, NOBODY) == next
    ensures blank ==> !LastIsLink(payload)
    ensures !blank && next.Some? && end == |payload| ==> LastIsLink(payload)
    ensures !blank && next.Some? && end < |payload| ==> Left(payload, end + 1, next.value)
  {
    hide Decode, LastIsLink;
  }

  lemma LeftFirst(payload: string)
    ensures Left(payload, 0, NOBODY)
  {
    assert payload[0..] == payload;
  }

  /** prv_decodeRegisterPayload, up to its end or to where its 16-bit index wraps to the start of the payload. */
  method DecodePayload(payload: string) returns (r: Option<Client>, wraps: bool)
    requires |payload| <= 65535
    ensures r == Decode(payload, NOBODY)
    ensures wraps <==> |payload| == 65535 && LastIsLink(payload) && r.Some?
  {
    var c := NOBODY;
    LeftFirst(payload);
    hide *;
    var index: u16 := 0;
    while index <= |payload|
      invariant index <= |payload| + 1
      invariant index <= |payload| ==> Left(payload, index, c)
      invariant index > |payload| ==> Decode(payload, NOBODY) == Some(c) && |payload| < 65535
      decreases |payload| + 1 - index
    {
      var blank, next, end := NextLink(payload, index, c);
      LeftMoves(payload, index, c, blank, next, end);
      if blank || next.None? {
        return next, false;
      }
      c := next.value;
      if end == 65535 {
        return next, true;
      }
      index := end + 1;
    }
    return Some(c), false;
  }

  lemma NothingLeft(s: string, from: nat, c: Client)
    requires from <= |s| && from + Spaces(s[from..]) == |s|
    ensures Decode(s[from..], c) == Some(c) && !LastIsLink(s[from..])
  {
    hide Accept;
  }

  /** One turn of the loop: the link between `start` and `end`, behind spaces. */
  lemma OneLink(s: string, from: nat, start: nat, end: nat, c: Client)
    requires from <= start < |s| && start == from + Spaces(s[from..]) && end == start + IndexOf(s[start..], ',') <= |s|
    ensures var next := Accept(c, s[start..end]);
            && Decode(s[from..], c) == (if next.None? || end == |s| then next else Decode(s[end + 1..], next.value))
            && LastIsLink(s[from..]) == (if end == |s| then true else LastIsLink(s[end + 1..]))
  {
    hide Accept, Spaces, IndexOf;
    var t := s[from..][Spaces(s[from..])..];
    assert t == s[start..] && t[..end - start] == s[start..end];
    if end < |s| {
      assert t[end - start + 1..] == s[end + 1..];
    }
  }

  // ----- after the wrap

  /** Everything recorded in m is recorded in m'. */
  predicate Covers(m': map<nat, set<nat>>, m: map<nat, set<nat>>)
  {
    forall id :: id in m ==> id in m' && m[id] <= m'[id]
  }

  lemma {:induction false} DecodeCovers(s: string, c: Client)
    requires Decode(s, c).Some?
    ensures Covers(Decode(s, c).value.objects, c.objects)
    ensures c.root.Some? ==> Decode(s, c).value.root == c.root
    decreases |s|
  {
    hide GetId, ParseRoot, Spaces, IndexOf;
    var t := s[Spaces(s)..];
    if t != "" {
      var k := IndexOf(t, ',');
      var next := Accept(c, t[..k]).value;
      if k < |t| {
        DecodeCovers(t[k + 1..], next);
      }
    }
  }

  lemma RecordedTwice(m: map<nat, set<nat>>, e: Entry)
    requires e.id in m && (e.instance.Some? ==> e.instance.value in m[e.id])
    ensures Record(m, e) == m
  {
    assert m[e.id] + (if e.instance.Some? then {e.instance.value as nat} else {}) == m[e.id];
  }

  /** Reading a text again with everything in it recorded: nothing changes, unless it holds a root link, which is refused
      the second time. */
  lemma {:induction false} SecondReading(s: string, c: Client, d: Client)
    requires Decode(s, c).Some? && Covers(d.objects, Decode(s, c).value.objects)
    requires d.root == Decode(s, c).value.root
    ensures Decode(s, d) == if c.root == d.root then Some(d) else None
    decreases |s|
  {
    hide GetId, ParseRoot, Spaces, IndexOf;
    var t := s[Spaces(s)..];
    if t != "" {
      var k := IndexOf(t, ',');
      var link := t[..k];
      var next := Accept(c, link).value;
      LaterCovers(t, k, next, d);
      var id := GetId(link);
      if id.Some? {
        assert id.value.id in next.objects;
        RecordedTwice(d.objects, id.value);
        assert d.(objects := Record(d.objects, id.value)) == d;
      }
      if k < |t| && Accept(d, link).Some? {
        SecondReading(t[k + 1..], next, d);
      }
    }
  }

  lemma LaterCovers(t: string, k: nat, next: Client, d: Client)
    requires k <= |t|
    requires k < |t| ==> Decode(t[k + 1..], next).Some? && Covers(d.objects, Decode(t[k + 1..], next).value.objects)
                         && d.root == Decode(t[k + 1..], next).value.root
    requires k == |t| ==> Covers(d.objects, next.objects) && d.root == next.root
    ensures Covers(d.objects, next.objects) && (next.root.Some? ==> d.root == next.root)
  {
    if k < |t| {
      DecodeCovers(t[k + 1..], next);
      hide Decode;
    }
  }

  /** A payload that makes the index wrap is read again from its start with what was recorded: with a root link in it,
      as every client sends one, it is refused then; without, every reading leaves the same and the loop never ends. */
  lemma AfterTheWrap(payload: string)
    requires Decode(payload, NOBODY).Some?
    ensures var c := Decode(payload, NOBODY).value;
            Decode(payload, c) == if c.root.Some? then None else Some(c)
  {
    hide Decode;
    SecondReading(payload, NOBODY, Decode(payload, NOBODY).value);
  }

  lemma {:induction false} LeadingSpaces(n: nat, link: string)
    requires link != "" && link[0] != ' '
    ensures var s := seq(n, _ => ' ') + link; Spaces(s) == n && s[n..] == link
    decreases n
  {
    var s := seq(n, _ => ' ') + link;
    assert s[n..] == link;
    if n > 0 {
      LeadingSpaces(n - 1, link);
      assert s[1..] == seq(n - 1, _ => ' ') + link;
    }
  }

  /** Such a payload: spaces, and one object link at the end. */
  lemma EndlessPayload(n: nat)
    requires n == 65531
    ensures var payload := seq(n, _ => ' ') + "</1>";
            && |payload| == 65535 && LastIsLink(payload)
            && Decode(payload, NOBODY).Some? && Decode(payload, NOBODY).value.root.None?
            && Decode(payload, Decode(payload, NOBODY).value) == Decode(payload, NOBODY)
  {
    var e := Entry(1, None);
    assert EntryLink(e) == "</1>" by { assert Digits(1) == "1"; }
    EntryReadsBack(e);
    EndlessSpaces(n, EntryLink(e), e);
  }

  lemma EndlessSpaces(n: nat, link: string, e: Entry)
    requires GetId(link) == Some(e) && PlainLink(link)
    ensures var payload := seq(n, _ => ' ') + link;
            && LastIsLink(payload)
            && Decode(payload, NOBODY).Some? && Decode(payload, NOBODY).value.root.None?
            && Decode(payload, Decode(payload, NOBODY).value) == Decode(payload, NOBODY)
  {
    LeadingSpaces(n, link);
    var payload := seq(n, _ => ' ') + link;
    assert link[..|link|] == link;
    IndexIs(link, ',', |link|);
    hide GetId, ParseRoot, Spaces, IndexOf, Record;
    assert Decode(payload, NOBODY) == Accept(NOBODY, link);
    AfterTheWrap(payload);
  }
}
