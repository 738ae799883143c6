/** The registration payload (link format, section 2 of RFC 6690): the text the client prints for its objects,
    and the parser of the server half. */
module RegisterPayload {
  import opened Bytes
  import opened Decimal

  const MAX_ID := 65535
  const SECURITY_OBJECT := 0

  datatype Object = Object(id: u16, instances: seq<u16>)

  /** An object without instances, or one instance. */
  datatype Entry = Entry(id: u16, instance: Option<u16>)

  // ----- printing

  const RESOURCE_TYPE := ">;rt=\"oma.lwm2m\";ct=11543"

  /** The first link: the alternate path if one is set, and the resource type. */
  function RootLink(altPath: string): (s: string)
  {
    "<" + (if altPath == "" then "/" else altPath) + RESOURCE_TYPE
  }

  function EntryLink(e: Entry): (s: string)
  {
    "</" + Digits(e.id) + (if e.instance.Some? then "/" + Digits(e.instance.value) else "") + ">"
  }

  function InstanceEntries(id: u16, instances: seq<u16>): (es: seq<Entry>)
    ensures |es| == |instances|
  {
    seq(|instances|, i requires 0 <= i < |instances| => Entry(id, Some(instances[i])))
  }

  /** What is printed of one object: nothing for the Security object. */
  function ObjectEntries(o: Object): (es: seq<Entry>)
  {
    if o.id == SECURITY_OBJECT then []
    else if o.instances == [] then [Entry(o.id, None)]
    else InstanceEntries(o.id, o.instances)
  }

  function Entries(os: seq<Object>): (es: seq<Entry>)
  {
    if os == [] then [] else Entries(os[..|os| - 1]) + ObjectEntries(os[|os| - 1])
  }

  /** Links, each followed by a comma. */
  function Links(es: seq<Entry>): (s: string)
  {
    if es == [] then "" else Links(es[..|es| - 1]) + EntryLink(es[|es| - 1]) + ","
  }

  /** The text as it is printed: a comma follows every link, and the last one is dropped in the end. */
  function FullText(os: seq<Object>, altPath: string): (s: string)
    ensures |s| >= 1
  {
    RootLink(altPath) + "," + Links(Entries(os))
  }

  /** The payload that xiny_object_getRegisterPayload_lwm2m prints. */
  function Payload(os: seq<Object>, altPath: string): (s: string)
  {
    var t := FullText(os, altPath);
    t[..|t| - 1]
  }

  // ----- scanning

  /** The first position of c, or the length. */
  function IndexOf(s: string, c: char): (i: nat)
    ensures i <= |s|
  {
    if s == [] || s[0] == c then 0 else 1 + IndexOf(s[1..], c)
  }

  lemma {:induction false} IndexIs(s: string, c: char, i: nat)
    requires i <= |s| && (i < |s| ==> s[i] == c) && c !in s[..i]
    ensures IndexOf(s, c) == i
  {
    if i > 0 {
      assert s[..i] == [s[0]] + s[1..][..i - 1];
      IndexIs(s[1..], c, i - 1);
    }
  }

  /** The last position of c other than 0, or 0. */
  function LastIndexOf(s: string, c: char): (i: nat)
    requires s != ""
    ensures i < |s|
  {
    if |s| == 1 then 0
    else if s[|s| - 1] == c then |s| - 1
    else LastIndexOf(s[..|s| - 1], c)
  }

  lemma {:induction false} LastIndexIs(a: string, c: char, b: string)
    requires a != "" && c !in b
    ensures LastIndexOf(a + [c] + b, c) == |a|
    decreases |b|
  {
    var s := a + [c] + b;
    if b != "" {
      var b' := b[..|b| - 1];
      assert s[..|s| - 1] == a + [c] + b' && s[|s| - 1] == b[|b| - 1];
      LastIndexIs(a, c, b');
    }
  }

  function TrimRight(s: string): (r: string)
  {
    if s != "" && s[|s| - 1] == ' ' then TrimRight(s[..|s| - 1]) else s
  }

  function Spaces(s: string): (n: nat)
    ensures n <= |s| && (n < |s| ==> s[n] != ' ')
  {
    if s != "" && s[0] == ' ' then 1 + Spaces(s[1..]) else 0
  }

  // ----- the server's parser

  /** prv_parseNumber: the digits up to a slash. `first` is the character it looks at before the loop. */
  function Number(s: string, first: char): (n: Option<nat>)
  {
    var digits := s[..IndexOf(s, '/')];
    if first == '/' || !AllDigits(digits) then None else Some(Value(digits))
  }

  /** prv_getId: an object id, and an instance id if there is one. */
  function GetId(link: string): (e: Option<Entry>)
  {
    var s := TrimRight(link);
    if |s| < 2 || s[0] != '<' || s[|s| - 1] != '>' then None
    else
      var inner := s[1..|s| - 1];
      var path := if inner != "" && inner[0] == '/' then inner[1..] else inner;
      var limit := IndexOf(path, '/');
      var id := Number(path[..limit], if path == "" then '>' else path[0]);
      if id.None? || id.value >= MAX_ID then None
      else if limit + 1 < |path| then
        var rest := path[limit + 1..];
        var instance := Number(rest, rest[0]);
        if instance.None? || instance.value >= MAX_ID then None
        else Some(Entry(id.value, Some(instance.value)))
      else Some(Entry(id.value, None))
  }

  datatype Attribute = Attribute(key: string, value: string, end: nat)

  /** prv_splitLinkAttribute: the first attribute of a string, and where it ends. */
  function SplitAttribute(d: string): (a: Option<Attribute>)
    ensures a.Some? ==> 0 < a.value.end <= |d|
  {
    var i := Spaces(d);
    if i == |d| then None
    else
      var key := if d[i] == ';' then i + 1 else i;
      if key == |d| then None
      else
        var eq := key + IndexOf(d[key..], '=');
        if eq == key || eq == |d| then None
        else
          var v := eq + 1 + Spaces(d[eq + 1..]);
          if v == |d| then None else WithValue(d, d[key..eq], v)
  }

  /** The value from `v` to the next separator, without trailing spaces; one of a single character is refused. */
  function WithValue(d: string, key: string, v: nat): (a: Option<Attribute>)
    requires 0 < v < |d|
    ensures a.Some? ==> 0 < a.value.end <= |d|
  {
    var end := v + IndexOf(d[v..], ';');
    if end == v then Some(Attribute(key, "", end))
    else
      var last := LastVisible(d, v, end - 1);
      if last == v then None else Some(Attribute(key, d[v..last + 1], end))
  }

  /** Going back over spaces, but not below `from`. */
  function LastVisible(d: string, from: nat, i: nat): (k: nat)
    requires from <= i < |d|
    ensures from <= k <= i
    decreases i
  {
    if i > from && d[i] == ' ' then LastVisible(d, from, i - 1) else i
  }

  datatype Flags = Flags(json: bool, valid: bool)

  /** The attribute loop of prv_parseLinkAttributes. */
  function Attributes(d: string, f: Flags): (r: Option<Flags>)
    decreases |d|
  {
    if d == "" then Some(f)
    else
      var a := SplitAttribute(d);
      if a.None? then None
      else
        var rest := d[a.value.end..];
        if a.value.key == "rt" then
          if f.valid || a.value.value != "\"oma.lwm2m\"" then None else Attributes(rest, f.(valid := true))
        else if a.value.key == "ct" then
          if f.json || a.value.value != "11543" then None else Attributes(rest, f.(json := true))
        else Attributes(rest, f)
  }

  datatype Root = Root(json: bool, altPath: Option<string>)

  /** prv_parseLinkAttributes. */
  function ParseRoot(link: string, json: bool): (r: Option<Root>)
  {
    var s := TrimRight(link);
    if |s| < 2 || s[0] != '<' then None
    else
      var d := s[1..];
      var i := LastIndexOf(d, '>');
      if i == 0 || i == |d| - 1 || d[i + 1] != ';' then None
      else
        var start := if d[0] == '/' then 1 else 0;
        var f := Attributes(d[i + 2..], Flags(json, false));
        if f.None? || !f.value.valid then None
        else Some(Root(f.value.json, if start < i then Some(d[start..i]) else None))
  }

  /** The object list built so far, and the root link once it was seen. */
  datatype Client = Client(objects: map<nat, set<nat>>, root: Option<Root>)

  /** The find-or-add of an entry in the two id lists. */
  function Record(m: map<nat, set<nat>>, e: Entry): (m': map<nat, set<nat>>)
  {
    var known: set<nat> := if e.id in m then m[e.id] else {};
    m[e.id as nat := known + if e.instance.Some? then {e.instance.value as nat} else {}]
  }

  /** One link; None is `goto error`. */
  function Accept(c: Client, link: string): (c': Option<Client>)
  {
    var id := GetId(link);
    if id.Some? then Some(c.(objects := Record(c.objects, id.value)))
    else if c.root.Some? then None
    else
      var root := ParseRoot(link, false);
      if root.None? then None else Some(c.(root := root))
  }

  /** prv_decodeRegisterPayload on what is left of the payload. */
  function Decode(s: string, c: Client): (r: Option<Client>)
    decreases |s|
  {
    var t := s[Spaces(s)..];
    if t == "" then Some(c)
    else
      var k := IndexOf(t, ',');
      var next := Accept(c, t[..k]);
      if next.None? || k == |t| then next else Decode(t[k + 1..], next.value)
  }

  const NOBODY := Client(map[], None)

  // ----- reading back one link

  lemma DigitsAreNumber(n: nat)
    ensures '/' !in Digits(n) && ',' !in Digits(n) && Number(Digits(n), Digits(n)[0]) == Some(n)
  {
    var s := Digits(n);
    IndexIs(s, '/', |s|);
    assert s[..|s|] == s;
    DigitsHaveValue(n);
  }

  predicate Printable(e: Entry)
  {
    e.id < MAX_ID && (e.instance.Some? ==> e.instance.value < MAX_ID)
  }

  /** The path of an entry link, between the brackets. */
  lemma LinkIsPath(path: string)
    ensures var link := "</" + path + ">";
            && TrimRight(link) == link && |link| >= 2 && link[0] == '<' && link[|link| - 1] == '>'
            && link[1..|link| - 1] == "/" + path && ("/" + path)[1..] == path
  {
    var link := "</" + path + ">";
    assert link[1..|link| - 1] == "/" + path;
  }

  lemma GetIdOfPath(path: string)
    ensures GetId("</" + path + ">") ==
            var limit := IndexOf(path, '/');
            var id := Number(path[..limit], if path == "" then '>' else path[0]);
            if id.None? || id.value >= MAX_ID then None
            else if limit + 1 < |path| then
              var rest := path[limit + 1..];
              var instance := Number(rest, rest[0]);
              if instance.None? || instance.value >= MAX_ID then None
              else Some(Entry(id.value, Some(instance.value)))
            else Some(Entry(id.value, None))
  {
    hide Number, IndexOf, TrimRight;
    LinkIsPath(path);
  }

  /** An entry link is read back as its entry exactly when its ids are below 65535. */
  lemma EntryReadsBack(e: Entry)
    ensures GetId(EntryLink(e)) == if Printable(e) then Some(e) else None
  {
    LinkForm(e);
    DigitsAreNumber(e.id);
    hide *;
    if e.instance.Some? {
      DigitsAreNumber(e.instance.value);
      InstanceReadsBack(e.id, e.instance.value, Digits(e.id), Digits(e.instance.value));
    } else {
      ObjectReadsBack(e.id, Digits(e.id));
    }
    PrintableIs(e);
  }

  lemma PrintableIs(e: Entry)
    ensures Printable(e) <==> e.id < MAX_ID && (e.instance.Some? ==> e.instance.value < MAX_ID)
  {}

  lemma LinkForm(e: Entry)
    ensures EntryLink(e) ==
            if e.instance.Some? then "</" + (Digits(e.id) + "/" + Digits(e.instance.value)) + ">" else "</" + Digits(e.id) + ">"
  {
    hide Digits;
  }

  lemma ObjectReadsBack(id: u16, text: string)
    requires text != "" && '/' !in text && Number(text, text[0]) == Some(id)
    ensures GetId("</" + text + ">") == if id < MAX_ID then Some(Entry(id, None)) else None
  {
    GetIdOfPath(text);
    hide GetId, Number, IndexOf;
    assert text[..|text|] == text;
    IndexIs(text, '/', |text|);
  }

  lemma InstanceReadsBack(id: u16, instance: u16, text: string, rest: string)
    requires text != "" && '/' !in text && Number(text, text[0]) == Some(id)
    requires rest != "" && Number(rest, rest[0]) == Some(instance)
    ensures GetId("</" + (text + "/" + rest) + ">") ==
            if id < MAX_ID && instance < MAX_ID then Some(Entry(id, Some(instance))) else None
  {
    var path := text + "/" + rest;
    GetIdOfPath(path);
    hide GetId, Number, IndexOf;
    assert path[..|text|] == text && path[|text|] == '/';
    IndexIs(path, '/', |text|);
    assert path[|text| + 1..] == rest;
  }

  // ----- reading back the root link

  const ATTRIBUTES := "rt=\"oma.lwm2m\";ct=11543"

  /** An attribute without spaces, by the positions of its parts. */
  lemma SplitIs(d: string, k: nat, eq: nat, end: nat)
    requires d != "" && d[0] != ' ' && k == if d[0] == ';' then 1 else 0
    requires k < eq && eq + 2 < end <= |d| && d[eq] == '=' && '=' !in d[k..eq]
    requires d[eq + 1] != ' ' && d[end - 1] != ' ' && ';' !in d[eq + 1..end] && (end < |d| ==> d[end] == ';')
    ensures SplitAttribute(d) == Some(Attribute(d[k..eq], d[eq + 1..end], end))
  {
    hide *;
    NoSpaces(d);
    NoSpaces(d[eq + 1..]);
    IndexFrom(d, '=', k, eq);
    IndexFrom(d, ';', eq + 1, end);
    SplitBy(d, k, eq, end);
  }

  lemma ValueIs(d: string, key: string, v: nat, end: nat)
    requires 0 < v && v + 1 < end <= |d| && d[end - 1] != ' ' && IndexOf(d[v..], ';') == end - v
    ensures WithValue(d, key, v) == Some(Attribute(key, d[v..end], end))
  {
    hide IndexOf;
  }

  lemma SplitBy(d: string, k: nat, eq: nat, end: nat)
    requires d != "" && k == (if d[0] == ';' then 1 else 0) && k < eq && eq + 2 < end <= |d| && d[end - 1] != ' '
    requires Spaces(d) == 0 && Spaces(d[eq + 1..]) == 0
    requires IndexOf(d[k..], '=') == eq - k && IndexOf(d[eq + 1..], ';') == end - eq - 1
    ensures SplitAttribute(d) == Some(Attribute(d[k..eq], d[eq + 1..end], end))
  {
    hide IndexOf, Spaces, WithValue;
    ValueIs(d, d[k..eq], eq + 1, end);
    assert SplitAttribute(d) == WithValue(d, d[k..eq], eq + 1);
    hide SplitAttribute;
  }

  lemma IndexFrom(d: string, c: char, from: nat, i: nat)
    requires from <= i <= |d| && (i < |d| ==> d[i] == c) && c !in d[from..i]
    ensures IndexOf(d[from..], c) == i - from
  {
    assert d[from..][..i - from] == d[from..i];
    IndexIs(d[from..], c, i - from);
  }

  lemma NoSpaces(s: string)
    requires s == "" || s[0] != ' '
    ensures Spaces(s) == 0
  {}

  lemma FirstAttribute()
    ensures SplitAttribute(ATTRIBUTES) == Some(Attribute("rt", "\"oma.lwm2m\"", 14)) && ATTRIBUTES[14..] == ";ct=11543"
  {
    hide SplitAttribute;
    var d := ATTRIBUTES;
    assert d[0..2] == "rt" && d[3..14] == "\"oma.lwm2m\"";
    SplitIs(d, 0, 2, 14);
  }

  lemma LastAttribute()
    ensures SplitAttribute(";ct=11543") == Some(Attribute("ct", "11543", 9)) && ";ct=11543"[9..] == ""
  {
    hide SplitAttribute;
    var d := ";ct=11543";
    assert d[1..3] == "ct" && d[4..9] == "11543";
    SplitIs(d, 1, 3, 9);
  }

  lemma RootAttributes()
    ensures Attributes(ATTRIBUTES, Flags(false, false)) == Some(Flags(true, true))
  {
    FirstAttribute();
    LastAttribute();
    hide SplitAttribute;
    assert Attributes(";ct=11543", Flags(false, true)) == Some(Flags(true, true));
  }

  predicate PathChar(c: char)
  {
    'A' <= c <= 'Z' || 'a' <= c <= 'z' || '0' <= c <= '9' || c in "-._~%"
  }

  /** xiny_utils_isAltPathValid, or no alternate path. */
  predicate ValidPath(altPath: string)
  {
    altPath == "" || (altPath[0] == '/' && forall i :: 1 <= i < |altPath| ==> PathChar(altPath[i]))
  }

  /** The path as the server stores it: without the leading slash, and not at all when that is everything. */
  function StoredPath(altPath: string): (p: Option<string>)
  {
    if |altPath| <= 1 then None else Some(altPath[1..])
  }

  lemma ResourceTypeParts()
    ensures RESOURCE_TYPE == ['>'] + (";" + ATTRIBUTES) && |ATTRIBUTES| > 0
  {}

  lemma AttributeCharacters()
    ensures '>' !in ATTRIBUTES && ',' !in ATTRIBUTES && |ATTRIBUTES| > 0 && ATTRIBUTES[|ATTRIBUTES| - 1] == '3'
  {}

  /** The same about the text behind the path. */
  lemma TailCharacters(attributes: string)
    requires '>' !in attributes && ',' !in attributes && |attributes| > 0
    ensures var tail := ";" + attributes;
            && '>' !in tail && ',' !in ['>'] + tail && tail[|tail| - 1] == attributes[|attributes| - 1]
            && tail[1..] == attributes && tail[0] == ';'
  {}

  /** Between a path and the text behind it: the last closing bracket. */
  lemma LinkIsSplit(path: string, tail: string)
    requires path != "" && tail != "" && '>' !in tail && tail[|tail| - 1] != ' '
    ensures var link := "<" + path + (['>'] + tail); var d := link[1..];
            && TrimRight(link) == link && |link| >= 2 && link[0] == '<' && link[|link| - 1] == tail[|tail| - 1]
            && LastIndexOf(d, '>') == |path| && d[|path| + 1..] == tail && |d| == |path| + 1 + |tail|
            && d[..|path|] == path
  {
    var link := "<" + path + (['>'] + tail);
    assert link[|link| - 1] == tail[|tail| - 1];
    hide LastIndexOf;
    var d := link[1..];
    assert d == path + ['>'] + tail;
    LastIndexIs(path, '>', tail);
  }

  lemma RootIsParsed(path: string, tail: string)
    requires path != "" && path[0] == '/' && |tail| > 1 && tail[0] == ';' && '>' !in tail
    requires tail[|tail| - 1] != ' '
    requires Attributes(tail[1..], Flags(false, false)) == Some(Flags(true, true))
    ensures var link := "<" + path + (['>'] + tail);
            && GetId(link).None?
            && ParseRoot(link, false) == Some(Root(true, if |path| == 1 then None else Some(path[1..])))
  {
    hide *;
    var link := "<" + path + (['>'] + tail);
    LinkIsSplit(path, tail);
    NoClosingBracket(link);
    LinkPositions(path, tail, link[1..]);
    RootBy(link, |path|);
  }

  lemma RootBy(link: string, i: nat)
    requires TrimRight(link) == link && |link| >= 2 && link[0] == '<'
    requires LastIndexOf(link[1..], '>') == i && 0 < i && i + 2 < |link[1..]|
    requires link[1..][i + 1] == ';' && link[1..][0] == '/'
    requires Attributes(link[1..][i + 2..], Flags(false, false)) == Some(Flags(true, true))
    ensures ParseRoot(link, false) == Some(Root(true, if i == 1 then None else Some(link[1..][1..i])))
  {
    hide TrimRight, LastIndexOf, Attributes;
  }

  lemma NoClosingBracket(link: string)
    requires TrimRight(link) == link && link != "" && link[|link| - 1] != '>'
    ensures GetId(link).None?
  {
    hide Number, IndexOf, TrimRight;
  }

  lemma LinkPositions(path: string, tail: string, d: string)
    requires path != "" && tail != "" && |d| == |path| + 1 + |tail| && d[..|path|] == path && d[|path| + 1..] == tail
    ensures d[|path| + 2..] == tail[1..] && d[1..|path|] == path[1..] && d[|path| + 1] == tail[0] && d[0] == path[0]
  {
    assert d[|path| + 2..] == d[|path| + 1..][1..];
    assert d[1..|path|] == d[..|path|][1..];
    assert d[|path| + 1] == d[|path| + 1..][0];
    assert d[0] == d[..|path|][0];
  }

  lemma RootReadsBack(altPath: string)
    requires ValidPath(altPath)
    ensures var link := RootLink(altPath);
            && PlainLink(link) && GetId(link).None?
            && ParseRoot(link, false) == Some(Root(true, StoredPath(altPath)))
  {
    hide Attributes, GetId, ParseRoot;
    var path := if altPath == "" then "/" else altPath;
    assert RootLink(altPath) == "<" + path + RESOURCE_TYPE && ValidPath(path) && path[0] == '/';
    assert StoredPath(altPath) == if |path| == 1 then None else Some(path[1..]);
    ResourceTypeParts();
    AttributeCharacters();
    RootAttributes();
    hide *;
    TailCharacters(ATTRIBUTES);
    PathIsPlain(path, RESOURCE_TYPE);
    RootIsParsed(path, ";" + ATTRIBUTES);
  }

  lemma PathIsPlain(path: string, tail: string)
    requires ValidPath(path) && ',' !in tail
    ensures PlainLink("<" + path + tail)
  {}

  // ----- reading back the payload

  /** Links joined by commas. */
  function Joined(links: seq<string>): (s: string)
    requires links != []
  {
    if |links| == 1 then links[0] else links[0] + "," + Joined(links[1..])
  }

  predicate PlainLink(link: string)
  {
    link != "" && link[0] == '<' && ',' !in link
  }

  function AcceptAll(c: Client, links: seq<string>): (r: Option<Client>)
    decreases |links|
  {
    if links == [] then Some(c)
    else
      var next := Accept(c, links[0]);
      if next.None? then None else AcceptAll(next.value, links[1..])
  }

  /** The parser takes a payload apart at its commas. */
  lemma {:induction false} DecodeJoined(links: seq<string>, c: Client)
    requires links != [] && forall i :: 0 <= i < |links| ==> PlainLink(links[i])
    ensures Decode(Joined(links), c) == AcceptAll(c, links)
    decreases |links|
  {
    hide Accept;
    var s, link := Joined(links), links[0];
    assert PlainLink(link);
    assert s[0] == link[0] && s[..|link|] == link;
    assert Spaces(s) == 0 && s[0..] == s;
    IndexIs(s, ',', |link|);
    if |links| > 1 {
      assert s[|link| + 1..] == Joined(links[1..]);
      var next := Accept(c, link);
      if next.Some? {
        DecodeJoined(links[1..], next.value);
      }
    } else {
      assert links[1..] == [];
    }
  }

  function RecordAll(m: map<nat, set<nat>>, es: seq<Entry>): (m': map<nat, set<nat>>)
    decreases |es|
  {
    if es == [] then m else RecordAll(Record(m, es[0]), es[1..])
  }

  function LinksOf(es: seq<Entry>): (links: seq<string>)
    ensures |links| == |es|
  {
    seq(|es|, i requires 0 <= i < |es| => EntryLink(es[i]))
  }

  predicate AllPrintable(es: seq<Entry>)
  {
    forall i :: 0 <= i < |es| ==> Printable(es[i])
  }

  /** Behind the root link, entry links are all recorded, or the payload is refused. */
  lemma {:induction false} AcceptEntries(c: Client, es: seq<Entry>)
    requires c.root.Some?
    ensures AcceptAll(c, LinksOf(es)) ==
            if AllPrintable(es) then Some(c.(objects := RecordAll(c.objects, es))) else None
    decreases |es|
  {
    if es != [] {
      EntryReadsBack(es[0]);
      hide GetId, EntryLink, Record;
      assert LinksOf(es)[1..] == LinksOf(es[1..]) && LinksOf(es)[0] == EntryLink(es[0]);
      assert AllPrintable(es) <==> Printable(es[0]) && AllPrintable(es[1..]) by {
        assert es == [es[0]] + es[1..];
      }
      if Printable(es[0]) {
        AcceptEntries(c.(objects := Record(c.objects, es[0])), es[1..]);
      }
    }
  }

  /** The printed payload is the links joined by commas. */
  lemma {:induction false} LinksAreJoined(first: string, es: seq<Entry>)
    ensures Joined([first] + LinksOf(es)) + "," == first + "," + Links(es)
    decreases |es|
  {
    if es == [] {
      assert [first] + LinksOf(es) == [first];
      assert first + "," + Links(es) == first + ",";
    } else {
      var before, e := es[..|es| - 1], es[|es| - 1];
      LinksAreJoined(first, before);
      assert [first] + LinksOf(es) == ([first] + LinksOf(before)) + [EntryLink(e)];
      hide EntryLink;
      JoinedSnoc([first] + LinksOf(before), EntryLink(e));
      assert first + "," + Links(es) == (first + "," + Links(before)) + EntryLink(e) + ",";
    }
  }

  lemma {:induction false} JoinedSnoc(links: seq<string>, link: string)
    requires links != []
    ensures Joined(links + [link]) == Joined(links) + "," + link
    decreases |links|
  {
    if |links| == 1 {
      assert (links + [link])[1..] == [link] && (links + [link])[0] == links[0];
    } else {
      assert (links + [link])[1..] == links[1..] + [link];
      JoinedSnoc(links[1..], link);
      assert Joined(links + [link]) == links[0] + "," + (Joined(links[1..]) + "," + link);
    }
  }

  lemma EntryLinksArePlain(e: Entry)
    ensures PlainLink(EntryLink(e))
  {
    DigitsAreNumber(e.id);
    if e.instance.Some? {
      DigitsAreNumber(e.instance.value);
    }
    hide Digits;
  }

  lemma LinksArePlain(first: string, es: seq<Entry>)
    requires PlainLink(first)
    ensures var links := [first] + LinksOf(es); forall i :: 0 <= i < |links| ==> PlainLink(links[i])
  {
    hide PlainLink, EntryLink;
    forall i | 0 <= i < |es|
      ensures PlainLink(LinksOf(es)[i])
    {
      EntryLinksArePlain(es[i]);
    }
  }

  lemma PayloadIsJoined(os: seq<Object>, altPath: string)
    ensures Payload(os, altPath) == Joined([RootLink(altPath)] + LinksOf(Entries(os)))
  {
    var es, first := Entries(os), RootLink(altPath);
    hide RootLink, Links, Joined, Entries, EntryLink;
    LinksAreJoined(first, es);
    assert FullText(os, altPath) == Joined([first] + LinksOf(es)) + ",";
  }

  lemma AcceptRoot(c: Client, first: string, root: Root, links: seq<string>)
    requires c.root.None? && GetId(first).None? && ParseRoot(first, false) == Some(root)
    ensures AcceptAll(c, [first] + links) == AcceptAll(c.(root := Some(root)), links)
  {
    hide GetId, ParseRoot;
    assert ([first] + links)[1..] == links;
  }

  /** For every object list and every valid alternate path, the server reads the client's payload back as exactly the
      objects and instances that are printed, with the alternate path, if all their ids are below 65535,
      and refuses it otherwise. */
  lemma PayloadReadsBack(os: seq<Object>, altPath: string)
    requires ValidPath(altPath)
    ensures Decode(Payload(os, altPath), NOBODY) ==
            if AllPrintable(Entries(os))
            then Some(Client(RecordAll(map[], Entries(os)), Some(Root(true, StoredPath(altPath)))))
            else None
  {
    assert NOBODY == Client(map[], None);
    hide *;
    var es, first := Entries(os), RootLink(altPath);
    var links := [first] + LinksOf(es);
    var root := Root(true, StoredPath(altPath));
    RootReadsBack(altPath);
    PayloadIsJoined(os, altPath);
    LinksArePlain(first, es);
    DecodeJoined(links, NOBODY);
    AcceptRoot(NOBODY, first, root, LinksOf(es));
    AcceptEntries(Client(map[], Some(root)), es);
  }

  // ----- what the recorded entries say

  predicate StrictlySorted(os: seq<Object>)
  {
    forall i, j :: 0 <= i < j < |os| ==> os[i].id < os[j].id
  }

  function InstanceSet(instances: seq<u16>): (s: set<nat>)
  {
    set i: nat | i in instances
  }

  /** m holds exactly the objects other than the Security object, each with exactly its instances. */
  ghost predicate Describes(m: map<nat, set<nat>>, os: seq<Object>)
  {
    && (forall id :: id in m <==> exists o :: o in os && o.id == id && id != SECURITY_OBJECT)
    && (forall o :: o in os && o.id != SECURITY_OBJECT ==> m[o.id] == InstanceSet(o.instances))
  }

  lemma {:induction false} RecordAppend(m: map<nat, set<nat>>, a: seq<Entry>, b: seq<Entry>)
    ensures RecordAll(m, a + b) == RecordAll(RecordAll(m, a), b)
    decreases |a|
  {
    hide Record;
    if a == [] {
      assert a + b == b;
    } else {
      assert (a + b)[0] == a[0] && (a + b)[1..] == a[1..] + b;
      RecordAppend(Record(m, a[0]), a[1..], b);
    }
  }

  lemma InstanceSetCons(instances: seq<u16>)
    requires instances != []
    ensures InstanceSet(instances) == {instances[0] as nat} + InstanceSet(instances[1..])
  {
    assert instances == [instances[0]] + instances[1..];
  }

  lemma {:induction false} RecordInstances(m: map<nat, set<nat>>, id: u16, instances: seq<u16>)
    requires id in m
    ensures RecordAll(m, InstanceEntries(id, instances)) == m[id as nat := m[id] + InstanceSet(instances)]
    decreases |instances|
  {
    if instances == [] {
      assert InstanceSet(instances) == {};
      assert InstanceEntries(id, instances) == [];
      assert m[id] + {} == m[id];
      assert m == m[id as nat := m[id]];
    } else {
      var es, x := InstanceEntries(id, instances), instances[0];
      assert es[0] == Entry(id, Some(x)) && es[1..] == InstanceEntries(id, instances[1..]);
      var m' := Record(m, es[0]);
      RecordInstances(m', id, instances[1..]);
      InstanceSetCons(instances);
      assert m'[id] == m[id] + {x as nat};
      assert m[id] + InstanceSet(instances) == m'[id] + InstanceSet(instances[1..]);
    }
  }

  lemma RecordObject(m: map<nat, set<nat>>, o: Object)
    requires o.id != SECURITY_OBJECT && o.id !in m
    ensures RecordAll(m, ObjectEntries(o)) == m[o.id as nat := InstanceSet(o.instances)]
  {
    if o.instances == [] {
      assert InstanceSet(o.instances) == {};
      var es := ObjectEntries(o);
      assert es == [Entry(o.id, None)] && es[1..] == [];
      assert RecordAll(m, es) == RecordAll(Record(m, es[0]), []);
      var none: set<nat> := {};
      assert none + none == none;
      assert Record(m, es[0]) == m[o.id as nat := none];
    } else {
      var es, x := ObjectEntries(o), o.instances[0];
      var m' := Record(m, es[0]);
      assert es[0] == Entry(o.id, Some(x)) && es[1..] == InstanceEntries(o.id, o.instances[1..]);
      RecordInstances(m', o.id, o.instances[1..]);
      InstanceSetCons(o.instances);
      assert m'[o.id] == {x as nat};
      assert m'[o.id as nat := InstanceSet(o.instances)] == m[o.id as nat := InstanceSet(o.instances)];
    }
  }

  /** Recording the printed entries of a sorted object list gives exactly that list without the Security object. */
  lemma {:induction false} EntriesDescribe(os: seq<Object>)
    requires StrictlySorted(os)
    ensures Describes(RecordAll(map[], Entries(os)), os)
  {
    hide *;
    if os == [] {
      NothingIsDescribed(os);
    } else {
      var before, o := os[..|os| - 1], os[|os| - 1];
      EntriesNext(os);
      EntriesDescribe(before);
      RecordAppend(map[], Entries(before), ObjectEntries(o));
      RecordMore(os, RecordAll(map[], Entries(before)));
    }
  }

  lemma NothingIsDescribed(os: seq<Object>)
    requires os == []
    ensures Describes(RecordAll(map[], Entries(os)), os)
  {}

  lemma EntriesNext(os: seq<Object>)
    requires os != [] && StrictlySorted(os)
    ensures Entries(os) == Entries(os[..|os| - 1]) + ObjectEntries(os[|os| - 1]) && StrictlySorted(os[..|os| - 1])
  {}

  lemma RecordMore(os: seq<Object>, m: map<nat, set<nat>>)
    requires os != [] && StrictlySorted(os) && Describes(m, os[..|os| - 1])
    ensures Describes(RecordAll(m, ObjectEntries(os[|os| - 1])), os)
  {
    hide *;
    var before, o := os[..|os| - 1], os[|os| - 1];
    assert os == before + [o];
    if o.id == SECURITY_OBJECT {
      RecordNothing(m);
      SecurityIsSkipped(m, before, o);
    } else {
      SortedIdIsNew(os, m);
      RecordObject(m, o);
      DescribesMore(m, before, o);
    }
  }

  lemma SortedIdIsNew(os: seq<Object>, m: map<nat, set<nat>>)
    requires os != [] && StrictlySorted(os) && Describes(m, os[..|os| - 1])
    ensures os[|os| - 1].id !in m
  {
    hide InstanceSet;
  }

  lemma SecurityIsSkipped(m: map<nat, set<nat>>, os: seq<Object>, o: Object)
    requires Describes(m, os) && o.id == SECURITY_OBJECT
    ensures Describes(m, os + [o]) && ObjectEntries(o) == []
  {
    hide InstanceSet;
    assert forall p :: p in os + [o] <==> p in os || p == o;
  }

  lemma DescribesMore(m: map<nat, set<nat>>, os: seq<Object>, o: Object)
    requires Describes(m, os) && o.id != SECURITY_OBJECT && o.id !in m
    ensures Describes(m[o.id as nat := InstanceSet(o.instances)], os + [o])
  {
    hide InstanceSet;
    assert forall p :: p in os + [o] <==> p in os || p == o;
    assert forall p :: p in os && p.id != SECURITY_OBJECT ==> p.id in m;
  }

  lemma RecordNothing(m: map<nat, set<nat>>)
    ensures RecordAll(m, []) == m
  {}

  /** For every sorted object list the server reads the payload back as that list without the Security object, and the
      alternate path, if the printed ids are below 65535, and refuses it otherwise. */
  lemma RegistrationReadsBack(os: seq<Object>, altPath: string)
    requires StrictlySorted(os) && ValidPath(altPath)
    ensures var r := Decode(Payload(os, altPath), NOBODY);
            && (r.Some? <==> AllPrintable(Entries(os)))
            && (r.Some? ==> Describes(r.value.objects, os) && r.value.root == Some(Root(true, StoredPath(altPath))))
  {
    hide *;
    PayloadReadsBack(os, altPath);
    EntriesDescribe(os);
  }
}
