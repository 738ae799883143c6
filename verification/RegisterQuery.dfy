/** The registration query: its length and its text. */
module RegisterQuery {
  import opened Bytes
  import opened Decimal

  datatype Binding = U | UQ | S | SQ | US | UQS | Unknown

  const STARTER := "?lwm2m=1.0&ep="

  function BindingText(b: Binding): (s: string)
  {
    match b
    case U => "&b=U"
    case UQ => "&b=UQ"
    case S => "&b=S"
    case SQ => "&b=SQ"
    case US => "&b=US"
    case UQS => "&b=UQS"
    case Unknown => ""
  }

  /** The endpoint name and the phone number if there is one. */
  function WhoText(name: string, msisdn: Option<string>): (s: string)
  {
    STARTER + name + if msisdn.Some? then "&sms=" + msisdn.value else ""
  }

  function LifetimeText(lifetime: nat): (s: string)
  {
    if lifetime != 0 then "&lt=" + Digits(lifetime) else ""
  }

  /** The query text for a known binding. */
  function QueryText(name: string, msisdn: Option<string>, binding: Binding, lifetime: nat): (s: string)
  {
    WhoText(name, msisdn) + BindingText(binding) + LifetimeText(lifetime)
  }

  /** C strings hold no zero. */
  predicate CString(s: string)
  {
    forall i :: 0 <= i < |s| ==> s[i] != '\0'
  }

  // ----- sizing

  /** prv_getRegistrationQueryLength. */
  method QueryLength(name: string, msisdn: Option<string>, binding: Binding, lifetime: nat) returns (n: nat)
    requires lifetime <= INT64_MAX
    ensures n == if binding.Unknown? then 0 else |QueryText(name, msisdn, binding, lifetime)| + 1
  {
    var index := |STARTER|;
    index := index + |name|;
    if msisdn.Some? {
      index := index + 5;
      index := index + |msisdn.value|;
    }
    if binding == Unknown {
      return 0;
    }
    index := index + |BindingText(binding)|;
    if lifetime != 0 {
      index := index + 4;
      var buffer := new char[21];
      NineteenDigits(lifetime);
      hide Digits;
      var res := IntToText(lifetime, buffer, 0, 21);
      index := index + res;
    }
    return index + 1;
  }

  // ----- printing

  /** Two string copies in a row. */
  method CopyTwo(buffer: array<char>, at: nat, a: string, b: string) returns (index: int)
    requires at <= buffer.Length && CString(a) && CString(b)
    modifies buffer
    ensures index == if at + |a + b| < buffer.Length then at + |a + b| else -1
    ensures index >= 0 ==> buffer[..index] == old(buffer[..at]) + (a + b)
  {
    var res := StringCopy(buffer, at, a);
    if res < 0 {
      return -1;
    }
    ghost var copied := buffer[..at + res];
    index := at + res;
    res := StringCopy(buffer, index, b);
    if res < 0 {
      return -1;
    }
    index := index + res;
    assert buffer[..index] == copied + b;
  }

  method PrintWho(name: string, msisdn: Option<string>, buffer: array<char>) returns (index: int)
    requires CString(name) && (msisdn.Some? ==> CString(msisdn.value))
    modifies buffer
    ensures index == var n := |WhoText(name, msisdn)|; if n < buffer.Length then n else -1
    ensures index >= 0 ==> buffer[..index] == WhoText(name, msisdn)
  {
    assert CString(STARTER) && CString("&sms=");
    hide CString;
    index := CopyTwo(buffer, 0, STARTER, name);
    if index >= 0 && msisdn.Some? {
      index := CopyTwo(buffer, index, "&sms=", msisdn.value);
    }
  }

  method PrintLifetime(lifetime: nat, buffer: array<char>, at: nat) returns (index: int)
    requires 0 < lifetime <= INT64_MAX && at < buffer.Length
    modifies buffer
    ensures index == var end := at + |LifetimeText(lifetime)|; if end <= buffer.Length then end else -1
    ensures index >= 0 ==> buffer[..index] == old(buffer[..at]) + LifetimeText(lifetime)
  {
    assert |Digits(lifetime)| > 0;
    assert LifetimeText(lifetime) == "&lt=" + Digits(lifetime);
    hide Digits, LifetimeText;
    var res := StringCopy(buffer, at, "&lt=");
    if res < 0 {
      return -1;
    }
    index := at + res;
    ghost var copied := buffer[..index];
    res := AppendNumber(lifetime, buffer, index);
    if res == 0 {
      return -1;
    }
    index := index + res;
    assert buffer[..index] == copied + Digits(lifetime);
  }

  /** prv_getRegistrationQuery: it succeeds exactly when the text and a terminating zero fit. */
  method PrintQuery(name: string, msisdn: Option<string>, binding: Binding, lifetime: nat, buffer: array<char>)
    returns (n: nat)
    requires CString(name) && (msisdn.Some? ==> CString(msisdn.value)) && lifetime <= INT64_MAX
    modifies buffer
    ensures var text := QueryText(name, msisdn, binding, lifetime);
            && (n > 0 <==> !binding.Unknown? && |text| < buffer.Length)
            && (n > 0 ==> n == |text| + 1 && buffer[..n] == text + "\0")
  {
    n := 0;
    if binding == Unknown {
      return;
    }
    var index := PrintHead(name, msisdn, binding, buffer);
    if index < 0 {
      return;
    }
    hide BindingText, WhoText;
    if lifetime != 0 {
      hide LifetimeText;
      index := PrintLifetime(lifetime, buffer, index);
      if index < 0 {
        return;
      }
    } else {
      assert LifetimeText(lifetime) == "";
    }
    assert buffer[..index] == QueryText(name, msisdn, binding, lifetime);
    if index < buffer.Length {
      buffer[index] := '\0';
      n := index + 1;
    }
  }

  /** The query up to the binding. */
  method PrintHead(name: string, msisdn: Option<string>, binding: Binding, buffer: array<char>) returns (index: int)
    requires CString(name) && (msisdn.Some? ==> CString(msisdn.value)) && binding != Unknown
    modifies buffer
    ensures index == var n := |WhoText(name, msisdn) + BindingText(binding)|; if n < buffer.Length then n else -1
    ensures index >= 0 ==> buffer[..index] == WhoText(name, msisdn) + BindingText(binding)
  {
    index := PrintWho(name, msisdn, buffer);
    if index < 0 {
      return;
    }
    var text := BindingText(binding);
    assert CString(text);
    hide BindingText, WhoText;
    var res := StringCopy(buffer, index, text);
    index := if res < 0 then -1 else index + res;
  }

  /** Sizing and printing agree: a buffer of the computed length is filled exactly. */
  method MakeQuery(name: string, msisdn: Option<string>, binding: Binding, lifetime: nat) returns (query: Option<string>)
    requires CString(name) && (msisdn.Some? ==> CString(msisdn.value)) && lifetime <= INT64_MAX
    ensures query == if binding.Unknown? then None else Some(QueryText(name, msisdn, binding, lifetime) + "\0")
  {
    var length := QueryLength(name, msisdn, binding, lifetime);
    if length == 0 {
      return None;
    }
    var buffer := new char[length];
    var n := PrintQuery(name, msisdn, binding, lifetime, buffer);
    assert n == length;
    assert buffer[..] == buffer[..n];
    query := Some(buffer[..]);
  }
}
