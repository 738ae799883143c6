/** The registration query on its way to the server: cut into options, and the parameters read from them. */
module RegisterQueryParser {
  import opened Bytes
  import opened Decimal
  import opened RegisterPayload
  import opened RegisterQuery

  // ----- options

  /** The length of an option is one byte. */
  function Cut(o: string): (r: string)
    ensures |r| < 256
  {
    o[..|o| % 256]
  }

  lemma ShortIsNotCut(o: string)
    requires |o| < 256
    ensures Cut(o) == o
  {}

  /** xiny_coap_set_header_uri_query behind the question mark: the pieces between ampersands. */
  function Options(s: string): (os: seq<string>)
    decreases |s|
  {
    var k := IndexOf(s, '&');
    [Cut(s[..k])] + if k + 1 >= |s| then [] else Options(s[k + 1..])
  }

  function JoinedBy(os: seq<string>): (s: string)
    requires os != []
  {
    if |os| == 1 then os[0] else os[0] + "&" + JoinedBy(os[1..])
  }

  lemma OptionsAt(s: string, k: nat)
    requires k <= |s| && k < 256 && '&' !in s[..k] && (k < |s| ==> s[k] == '&')
    ensures Options(s) == [s[..k]] + if k + 1 >= |s| then [] else Options(s[k + 1..])
  {
    IndexIs(s, '&', k);
    ShortIsNotCut(s[..k]);
    hide Cut, IndexOf;
  }

  lemma {:induction false} OptionsOfJoined(os: seq<string>)
    requires os != [] && forall i :: 0 <= i < |os| ==> os[i] != "" && '&' !in os[i] && |os[i]| < 256
    ensures Options(JoinedBy(os)) == os && JoinedBy(os) != ""
    decreases |os|
  {
    var o, s := os[0], JoinedBy(os);
    hide Options, Cut, IndexOf;
    assert s[..|o|] == o;
    OptionsAt(s, |o|);
    if |os| > 1 {
      OptionsOfJoined(os[1..]);
      assert s[|o| + 1..] == JoinedBy(os[1..]);
      assert os == [o] + os[1..];
    }
  }

  // ----- parameters

  datatype Parameters = Parameters(name: Option<string>, lifetime: u32, msisdn: Option<string>, binding: Binding,
                                   version: Option<string>)

  const NO_PARAMETERS := Parameters(None, 0, None, Unknown, None)

  /** xiny_utils_stringToBinding. */
  function ToBinding(s: string): (b: Binding)
  {
    if s == "U" then U
    else if s == "UQ" then UQ
    else if s == "US" then US
    else if s == "UQS" then UQS
    else if s == "S" then S
    else if s == "SQ" then SQ
    else Unknown
  }

  /** The decimal loop in 32 bits. */
  function ReadLifetime(s: string): (n: Option<u32>)
  {
    if s == "" then Some(0)
    else
      var before := ReadLifetime(s[..|s| - 1]);
      if before.None? || !IsDigit(s[|s| - 1]) then None
      else Some((before.value * 10 + DigitValue(s[|s| - 1])) % 0x1_0000_0000)
  }

  /** One option; None is `goto error`, which a repeated or empty parameter causes. */
  function Take(p: Parameters, o: string): (p': Option<Parameters>)
  {
    if "ep=" <= o then
      if p.name.Some? || |o| == 3 then None else Some(p.(name := Some(o[3..])))
    else if "sms=" <= o then
      if p.msisdn.Some? || |o| == 4 then None else Some(p.(msisdn := Some(o[4..])))
    else if "lt=" <= o then
      if p.lifetime != 0 || |o| == 3 then None
      else
        var n := ReadLifetime(o[3..]);
        if n.None? then None else Some(p.(lifetime := n.value))
    else if "lwm2m=" <= o then
      if p.version.Some? || |o| == 6 then None else Some(p.(version := Some(o[6..])))
    else if "b=" <= o then
      if p.binding != Unknown || |o| == 2 then None else Some(p.(binding := ToBinding(o[2..])))
    else Some(p)
  }

  /** prv_getParameters. */
  function TakeAll(p: Parameters, os: seq<string>): (r: Option<Parameters>)
    decreases |os|
  {
    if os == [] then Some(p)
    else
      var next := Take(p, os[0]);
      if next.None? then None else TakeAll(next.value, os[1..])
  }

  /** The loops of prv_getParameters. */
  method GetParameters(os: seq<string>) returns (r: Option<Parameters>)
    ensures r == TakeAll(NO_PARAMETERS, os)
  {
    hide Take;
    var p, i := NO_PARAMETERS, 0;
    assert os[0..] == os;
    while i < |os|
      invariant 0 <= i <= |os| && TakeAll(NO_PARAMETERS, os) == TakeAll(p, os[i..])
    {
      assert os[i..][0] == os[i] && os[i..][1..] == os[i + 1..];
      var next := Take(p, os[i]);
      if next.None? {
        return None;
      }
      p := next.value;
      i := i + 1;
    }
    return Some(p);
  }

  // ----- reading back one option

  lemma TakeName(p: Parameters, name: string)
    ensures Take(p, "ep=" + name) == if p.name.Some? || name == "" then None else Some(p.(name := Some(name)))
  {
    assert ("ep=" + name)[3..] == name;
  }

  lemma TakeMsisdn(p: Parameters, msisdn: string)
    ensures Take(p, "sms=" + msisdn) == if p.msisdn.Some? || msisdn == "" then None else Some(p.(msisdn := Some(msisdn)))
  {
    var o := "sms=" + msisdn;
    assert o[4..] == msisdn && o[0] == 's' && !("ep=" <= o);
  }

  lemma TakeVersion(p: Parameters)
    requires p.version.None?
    ensures Take(p, "lwm2m=1.0") == Some(p.(version := Some("1.0")))
  {
    var o := "lwm2m=1.0";
    assert o[6..] == "1.0" && o[0] == 'l' && o[1] == 'w';
    assert !("ep=" <= o) && !("sms=" <= o) && !("lt=" <= o);
  }

  lemma TakeBinding(p: Parameters, b: Binding)
    requires p.binding == Unknown && b != Unknown
    ensures BindingText(b)[0] == '&' && Take(p, BindingText(b)[1..]) == Some(p.(binding := b))
  {
    var o := BindingText(b)[1..];
    assert o[0] == 'b' && o[1] == '=';
    assert !("ep=" <= o) && !("sms=" <= o) && !("lt=" <= o) && !("lwm2m=" <= o) && "b=" <= o;
    assert o[2..] == BindingText(b)[3..];
    BindingReadsBack(b);
  }

  lemma BindingReadsBack(b: Binding)
    requires b != Unknown
    ensures ToBinding(BindingText(b)[3..]) == b && |BindingText(b)| > 3 && '&' !in BindingText(b)[1..]
  {
    var s := BindingText(b)[3..];
    assert s == match b case U => "U" case UQ => "UQ" case S => "S" case SQ => "SQ" case US => "US" case _ => "UQS";
  }

  lemma {:induction false} LifetimeReads(s: string)
    requires AllDigits(s)
    ensures ReadLifetime(s) == Some(Value(s) % 0x1_0000_0000)
    decreases |s|
  {
    if s != "" {
      var before := s[..|s| - 1];
      LifetimeReads(before);
      ModStep(Value(before), DigitValue(s[|s| - 1]));
    }
  }

  lemma ModStep(v: nat, d: nat)
    ensures (v % 0x1_0000_0000 * 10 + d) % 0x1_0000_0000 == (v * 10 + d) % 0x1_0000_0000
  {
    var q := v / 0x1_0000_0000;
    assert v * 10 + d == (v % 0x1_0000_0000 * 10 + d) + q * 10 * 0x1_0000_0000;
    ModUnique(v * 10 + d, 0x1_0000_0000, q * 10 + (v % 0x1_0000_0000 * 10 + d) / 0x1_0000_0000,
              (v % 0x1_0000_0000 * 10 + d) % 0x1_0000_0000);
  }

  lemma TakeLifetime(p: Parameters, lifetime: nat)
    requires p.lifetime == 0
    ensures Take(p, "lt=" + Digits(lifetime)) == Some(p.(lifetime := lifetime % 0x1_0000_0000))
  {
    var digits := Digits(lifetime);
    var o := "lt=" + digits;
    DigitsHaveValue(lifetime);
    LifetimeReads(digits);
    assert o[3..] == digits && o[0] == 'l' && !("ep=" <= o) && !("sms=" <= o);
    hide Digits, ReadLifetime;
  }

  // ----- reading back the query

  /** What the server should read. */
  function Expected(name: string, msisdn: Option<string>, binding: Binding, lifetime: u32): (p: Parameters)
  {
    Parameters(Some(name), lifetime, msisdn, binding, Some("1.0"))
  }

  function Tail(binding: Binding, lifetime: nat): (os: seq<string>)
    requires binding != Unknown
    ensures os != []
  {
    BindingReadsBack(binding);
    [BindingText(binding)[1..]] + if lifetime != 0 then ["lt=" + Digits(lifetime)] else []
  }

  function WithMsisdn(msisdn: Option<string>, tail: seq<string>): (os: seq<string>)
    ensures tail != [] ==> os != []
  {
    if msisdn.Some? then ["sms=" + msisdn.value] + tail else tail
  }

  /** The options of a query. */
  function Pieces(name: string, msisdn: Option<string>, binding: Binding, lifetime: nat): (os: seq<string>)
    requires binding != Unknown
  {
    ["lwm2m=1.0"] + (["ep=" + name] + WithMsisdn(msisdn, Tail(binding, lifetime)))
  }

  lemma JoinedCons(o: string, os: seq<string>)
    requires os != []
    ensures JoinedBy([o] + os) == o + "&" + JoinedBy(os)
  {
    assert ([o] + os)[1..] == os;
  }

  lemma JoinTail(binding: Binding, lifetime: nat)
    requires binding != Unknown
    ensures "&" + JoinedBy(Tail(binding, lifetime)) == BindingText(binding) + LifetimeText(lifetime)
  {
    BindingForm(binding);
    LifetimeForm(lifetime);
    var b := BindingText(binding)[1..];
    var l := "lt=" + Digits(lifetime);
    assert Tail(binding, lifetime) == if lifetime != 0 then [b] + [l] else [b];
    hide *;
    JoinTwo(b, l);
  }

  lemma JoinTwo(b: string, l: string)
    ensures JoinedBy([b]) == b && "&" + JoinedBy([b] + [l]) == ("&" + b) + ("&" + l)
    ensures ("&" + b) + "" == "&" + b
  {
    JoinedCons(b, [l]);
    assert JoinedBy([l]) == l;
    hide JoinedBy;
  }

  lemma BindingForm(binding: Binding)
    requires binding != Unknown
    ensures |BindingText(binding)| > 1 && BindingText(binding) == "&" + BindingText(binding)[1..]
  {}

  lemma LifetimeForm(lifetime: nat)
    ensures LifetimeText(lifetime) == if lifetime != 0 then "&" + ("lt=" + Digits(lifetime)) else ""
  {
    hide Digits;
  }

  lemma JoinMsisdn(msisdn: Option<string>, tail: seq<string>)
    requires tail != []
    ensures "&" + JoinedBy(WithMsisdn(msisdn, tail)) ==
            (if msisdn.Some? then "&sms=" + msisdn.value else "") + ("&" + JoinedBy(tail))
  {
    if msisdn.Some? {
      JoinedCons("sms=" + msisdn.value, tail);
      assert "&" + ("sms=" + msisdn.value) == "&sms=" + msisdn.value;
    }
    hide JoinedBy;
  }

  lemma QueryIsJoined(name: string, msisdn: Option<string>, binding: Binding, lifetime: nat)
    requires binding != Unknown
    ensures QueryText(name, msisdn, binding, lifetime) == "?" + JoinedBy(Pieces(name, msisdn, binding, lifetime))
  {
    var tail := Tail(binding, lifetime);
    var who := WithMsisdn(msisdn, tail);
    var sms := if msisdn.Some? then "&sms=" + msisdn.value else "";
    JoinTail(binding, lifetime);
    JoinMsisdn(msisdn, tail);
    JoinedCons("ep=" + name, who);
    JoinedCons("lwm2m=1.0", ["ep=" + name] + who);
    assert QueryText(name, msisdn, binding, lifetime) ==
           (STARTER + name + sms) + BindingText(binding) + LifetimeText(lifetime);
    hide JoinedBy, BindingText, LifetimeText, Tail, WithMsisdn, QueryText, WhoText;
    QueryGlue(name, sms, BindingText(binding), LifetimeText(lifetime), JoinedBy(tail), JoinedBy(who));
  }

  lemma QueryGlue(name: string, sms: string, b: string, l: string, tail: string, who: string)
    requires "&" + tail == b + l && "&" + who == sms + ("&" + tail)
    ensures (STARTER + name + sms) + b + l == "?" + ("lwm2m=1.0" + "&" + ("ep=" + name + "&" + who))
  {
    assert STARTER == "?" + ("lwm2m=1.0" + "&" + "ep=");
    assert (STARTER + name + sms) + b + l == STARTER + name + (sms + (b + l));
    assert "ep=" + name + "&" + who == "ep=" + name + ("&" + who);
  }

  /** What the query can carry: a name and a phone number that are not empty, hold no ampersand and fit an option with their key, and
      a lifetime of 32 bits. */
  predicate Sendable(name: string, msisdn: Option<string>, lifetime: nat)
  {
    && name != "" && '&' !in name && |name| <= 252 && lifetime < 0x1_0000_0000
    && (msisdn.Some? ==> msisdn.value != "" && '&' !in msisdn.value && |msisdn.value| <= 251)
  }

  /** For a known binding the server reads back exactly what the client printed. */
  lemma QueryReadsBack(name: string, msisdn: Option<string>, binding: Binding, lifetime: nat)
    requires binding != Unknown && Sendable(name, msisdn, lifetime)
    ensures var text := QueryText(name, msisdn, binding, lifetime);
            && text[0] == '?'
            && TakeAll(NO_PARAMETERS, Options(text[1..])) == Some(Expected(name, msisdn, binding, lifetime))
  {
    var os := Pieces(name, msisdn, binding, lifetime);
    QueryIsJoined(name, msisdn, binding, lifetime);
    assert ("?" + JoinedBy(os))[1..] == JoinedBy(os);
    PiecesAreClean(name, msisdn, binding, lifetime);
    OptionsOfJoined(os);
    hide QueryText, Options, JoinedBy;
    PiecesAreTaken(name, msisdn, binding, lifetime);
  }

  lemma PiecesAreClean(name: string, msisdn: Option<string>, binding: Binding, lifetime: nat)
    requires binding != Unknown && Sendable(name, msisdn, lifetime)
    ensures var os := Pieces(name, msisdn, binding, lifetime);
            forall i :: 0 <= i < |os| ==> os[i] != "" && '&' !in os[i] && |os[i]| < 256
  {
    BindingReadsBack(binding);
    var digits := Digits(lifetime);
    NineteenDigits(lifetime);
    assert '&' !in digits;
    var b := BindingText(binding)[1..];
    assert b != "";
    hide Digits, BindingText;
    assert '&' !in "lwm2m=1.0" && '&' !in "ep=" + name && '&' !in "lt=" + digits;
    assert msisdn.Some? ==> '&' !in "sms=" + msisdn.value;
  }

  lemma PiecesAreTaken(name: string, msisdn: Option<string>, binding: Binding, lifetime: nat)
    requires binding != Unknown && name != "" && lifetime < 0x1_0000_0000 && (msisdn.Some? ==> msisdn.value != "")
    ensures TakeAll(NO_PARAMETERS, Pieces(name, msisdn, binding, lifetime)) ==
            Some(Expected(name, msisdn, binding, lifetime))
  {
    var p1 := NO_PARAMETERS.(version := Some("1.0"));
    var p2 := p1.(name := Some(name));
    var p3 := p2.(msisdn := msisdn);
    TakeVersion(NO_PARAMETERS);
    TakeName(p1, name);
    if msisdn.Some? {
      TakeMsisdn(p2, msisdn.value);
    }
    TailIsTaken(p3, binding, lifetime);
    var tail := Tail(binding, lifetime);
    var who := WithMsisdn(msisdn, tail);
    hide Take, Tail, TakeAll;
    TakeSome(NO_PARAMETERS, "lwm2m=1.0", p1, ["ep=" + name] + who);
    TakeSome(p1, "ep=" + name, p2, who);
    if msisdn.Some? {
      TakeSome(p2, "sms=" + msisdn.value, p3, tail);
    } else {
      assert p2 == p3;
    }
  }

  lemma TailIsTaken(p: Parameters, binding: Binding, lifetime: nat)
    requires binding != Unknown && p.binding == Unknown && p.lifetime == 0 && lifetime < 0x1_0000_0000
    ensures TakeAll(p, Tail(binding, lifetime)) == Some(p.(binding := binding, lifetime := lifetime))
  {
    var b, l := BindingText(binding)[1..], "lt=" + Digits(lifetime);
    var p' := p.(binding := binding);
    TakeBinding(p, binding);
    TakeLifetime(p', lifetime);
    assert Tail(binding, lifetime) == [b] + if lifetime != 0 then [l] else [];
    hide Take, BindingText, Digits, Tail;
    TakeSome(p, b, p', if lifetime != 0 then [l] else []);
    if lifetime != 0 {
      assert [l] + [] == [l];
      TakeSome(p', l, p'.(lifetime := lifetime), []);
    }
  }

  lemma TakeSome(p: Parameters, o: string, p': Parameters, rest: seq<string>)
    requires Take(p, o) == Some(p')
    ensures TakeAll(p, [o] + rest) == TakeAll(p', rest)
  {
    assert ([o] + rest)[1..] == rest;
    hide Take;
  }

  // ----- and nothing else is read back

  lemma OptionsHead(o: string, rest: string)
    requires '&' !in o && |o| < 256 && rest != ""
    ensures Options(o + "&" + rest) == [o] + Options(rest)
  {
    var s := o + "&" + rest;
    assert s[..|o|] == o && s[|o| + 1..] == rest;
    OptionsAt(s, |o|);
    hide Options;
  }

  /** A name or a number once read is kept, or the whole is refused. */
  lemma {:induction false} Stays(p: Parameters, os: seq<string>)
    ensures var r := TakeAll(p, os);
            r.Some? ==> (p.name.Some? ==> r.value.name == p.name) && (p.msisdn.Some? ==> r.value.msisdn == p.msisdn)
    decreases |os|
  {
    if os != [] {
      var next := Take(p, os[0]);
      if next.Some? {
        Stays(next.value, os[1..]);
      }
    }
  }

  /** What stands in front of the first ampersand. */
  function UpTo(s: string): (r: string)
  {
    s[..IndexOf(s, '&')]
  }

  lemma FirstOption(prefix: string, s: string, rest: string)
    requires '&' !in prefix && |prefix| + |s| < 256 && rest != "" && rest[0] == '&'
    ensures Options(prefix + s + rest) != [] && Options(prefix + s + rest)[0] == prefix + UpTo(s)
    ensures UpTo(s) == s <==> '&' !in s
  {
    var all, k := prefix + s + rest, IndexOf(s, '&');
    IndexStops(s);
    assert '&' !in prefix + s[..k];
    assert all[..|prefix| + k] == prefix + s[..k];
    assert all[|prefix| + k] == '&';
    OptionsAt(all, |prefix| + k);
    hide Options;
  }

  lemma {:induction false} IndexStops(s: string)
    ensures var k := IndexOf(s, '&'); k <= |s| && '&' !in s[..k] && (k < |s| ==> s[k] == '&')
    decreases |s|
  {
    if s != "" && s[0] != '&' {
      IndexStops(s[1..]);
      var k := IndexOf(s[1..], '&');
      assert s[..k + 1] == [s[0]] + s[1..][..k];
    }
  }

  /** No option is longer than 255 characters, so no name is read that is longer than 252 and no number longer than 251. */
  predicate Short(p: Parameters)
  {
    (p.name.Some? ==> |p.name.value| <= 252) && (p.msisdn.Some? ==> |p.msisdn.value| <= 251)
  }

  lemma {:induction false} OptionsAreShort(s: string)
    ensures forall i :: 0 <= i < |Options(s)| ==> |Options(s)[i]| < 256
    decreases |s|
  {
    var k := IndexOf(s, '&');
    if k + 1 < |s| {
      OptionsAreShort(s[k + 1..]);
    }
  }

  lemma {:induction false} ShortIsRead(p: Parameters, os: seq<string>)
    requires Short(p) && forall i :: 0 <= i < |os| ==> |os[i]| < 256
    ensures TakeAll(p, os).Some? ==> Short(TakeAll(p, os).value)
    decreases |os|
  {
    if os != [] {
      var next := Take(p, os[0]);
      if next.Some? {
        ShortIsTaken(p, os[0]);
        hide Take;
        ShortIsRead(next.value, os[1..]);
      }
    }
  }

  lemma ShortIsTaken(p: Parameters, o: string)
    requires Short(p) && |o| < 256 && Take(p, o).Some?
    ensures Short(Take(p, o).value)
  {}

  /** The server has read these parameters. */
  predicate HasRead(r: Option<Parameters>, name: string, msisdn: Option<string>, binding: Binding, lifetime: nat)
  {
    r.Some? && r.value.lifetime == lifetime && r.value == Expected(name, msisdn, binding, r.value.lifetime)
  }

  /** The server reads back what the client printed, for a known binding, exactly when the query can carry it. */
  lemma QueryReadsBackIff(name: string, msisdn: Option<string>, binding: Binding, lifetime: nat)
    requires binding != Unknown
    ensures var text := QueryText(name, msisdn, binding, lifetime);
            && text != ""
            && (HasRead(TakeAll(NO_PARAMETERS, Options(text[1..])), name, msisdn, binding, lifetime) <==>
                Sendable(name, msisdn, lifetime))
  {
    QueryIsJoined(name, msisdn, binding, lifetime);
    if Sendable(name, msisdn, lifetime) {
      hide QueryText, Options, TakeAll;
      QueryReadsBack(name, msisdn, binding, lifetime);
    } else if lifetime < 0x1_0000_0000 {
      hide QueryText, Options, TakeAll;
      SomethingIsLost(name, msisdn, binding, lifetime);
    }
  }

  lemma SomethingIsLost(name: string, msisdn: Option<string>, binding: Binding, lifetime: nat)
    requires binding != Unknown && lifetime < 0x1_0000_0000 && !Sendable(name, msisdn, lifetime)
    ensures var text := QueryText(name, msisdn, binding, lifetime);
            && text != ""
            && var r := TakeAll(NO_PARAMETERS, Options(text[1..]));
            r.Some? ==> r.value.name != Some(name) || r.value.msisdn != msisdn
  {
    var sms := if msisdn.Some? then "&sms=" + msisdn.value else "";
    var b, l := BindingText(binding), LifetimeText(lifetime);
    BindingForm(binding);
    var text := QueryText(name, msisdn, binding, lifetime);
    assert text == (STARTER + name + sms) + b + l;
    hide QueryText, WhoText, BindingText, LifetimeText, Options, TakeAll;
    TextParts(text, name, sms, b + l, b, l);
    OptionsAreShort(text[1..]);
    ShortIsRead(NO_PARAMETERS, Options(text[1..]));
    if |name| > 252 || (msisdn.Some? && |msisdn.value| > 251) {
    } else if name == "" || '&' in name {
      NameIsLost(name, sms + (b + l));
    } else {
      SmsPart(msisdn.value, b + l);
      MsisdnIsLost(name, msisdn.value, b + l);
    }
  }

  lemma SmsPart(msisdn: string, rest: string)
    ensures ("&sms=" + msisdn) + rest == "&" + ("sms=" + msisdn + rest)
  {
    assert "&sms=" == "&" + "sms=";
  }

  lemma TextParts(text: string, name: string, sms: string, rest: string, b: string, l: string)
    requires text == (STARTER + name + sms) + b + l && rest == b + l
    ensures text != "" && text[1..] == "lwm2m=1.0" + "&" + ("ep=" + name + (sms + rest))
  {
    assert STARTER == "?" + ("lwm2m=1.0" + "&" + "ep=");
    assert text == "?" + ("lwm2m=1.0" + "&" + ("ep=" + name + (sms + rest)));
  }

  lemma NameIsLost(name: string, rest: string)
    requires (name == "" || '&' in name) && |name| <= 252 && rest != "" && rest[0] == '&'
    ensures var r := TakeAll(NO_PARAMETERS, Options("lwm2m=1.0" + "&" + ("ep=" + name + rest)));
            r.Some? ==> r.value.name != Some(name)
  {
    var p1 := NO_PARAMETERS.(version := Some("1.0"));
    var s := "ep=" + name + rest;
    assert '&' !in "lwm2m=1.0" && '&' !in "ep=";
    OptionsHead("lwm2m=1.0", s);
    FirstOption("ep=", name, rest);
    var os := Options(s);
    assert name != "" ==> UpTo(name) != name;
    TakeVersion(NO_PARAMETERS);
    TakeName(p1, UpTo(name));
    assert os == [os[0]] + os[1..];
    hide Take, TakeAll, Options, UpTo;
    TakeSome(NO_PARAMETERS, "lwm2m=1.0", p1, os);
    var next := Take(p1, os[0]);
    if next.Some? {
      TakeSome(p1, os[0], next.value, os[1..]);
      Stays(next.value, os[1..]);
    } else {
      TakeNone(p1, os);
    }
  }

  lemma TakeNone(p: Parameters, os: seq<string>)
    requires os != [] && Take(p, os[0]).None?
    ensures TakeAll(p, os).None?
  {
    hide Take;
  }

  lemma MsisdnIsLost(name: string, msisdn: string, rest: string)
    requires name != "" && '&' !in name && |name| <= 252 && (msisdn == "" || '&' in msisdn) && |msisdn| <= 251 && rest != "" && rest[0] == '&'
    ensures var r := TakeAll(NO_PARAMETERS, Options("lwm2m=1.0" + "&" + ("ep=" + name + ("&" + ("sms=" + msisdn + rest)))));
            r.Some? ==> r.value.msisdn != Some(msisdn)
  {
    var p1 := NO_PARAMETERS.(version := Some("1.0"));
    var p2 := p1.(name := Some(name));
    var s := "sms=" + msisdn + rest;
    assert '&' !in "lwm2m=1.0" && '&' !in "sms=" && '&' !in "ep=" + name;
    assert "ep=" + name + ("&" + s) == ("ep=" + name) + "&" + s;
    OptionsHead("lwm2m=1.0", ("ep=" + name) + "&" + s);
    OptionsHead("ep=" + name, s);
    FirstOption("sms=", msisdn, rest);
    var os := Options(s);
    assert msisdn != "" ==> UpTo(msisdn) != msisdn;
    TakeVersion(NO_PARAMETERS);
    TakeName(p1, name);
    TakeMsisdn(p2, UpTo(msisdn));
    assert os == [os[0]] + os[1..];
    hide Take, TakeAll, Options, UpTo;
    TakeSome(NO_PARAMETERS, "lwm2m=1.0", p1, ["ep=" + name] + os);
    TakeSome(p1, "ep=" + name, p2, os);
    var next := Take(p2, os[0]);
    if next.Some? {
      TakeSome(p2, os[0], next.value, os[1..]);
      Stays(next.value, os[1..]);
    } else {
      TakeNone(p2, os);
    }
  }
}
