/** Integers as decimal text: xiny_utils_intToText, xiny_utils_textToInt and xiny_utils_stringCopy. */
module Decimal {
  import opened Bytes

  const UINT64 := 0x1_0000_0000_0000_0000
  const INT64_MAX := 0x7FFF_FFFF_FFFF_FFFF

  function Digit(d: int): (c: char)
    requires 0 <= d < 10
    ensures '0' <= c <= '9' && c as int - '0' as int == d
  {
    (d + '0' as int) as char
  }

  predicate IsDigit(c: char) { '0' <= c <= '9' }

  function DigitValue(c: char): (d: int)
    requires IsDigit(c)
    ensures 0 <= d < 10
  {
    c as int - '0' as int
  }

  predicate AllDigits(s: string)
  {
    forall i :: 0 <= i < |s| ==> IsDigit(s[i])
  }

  function Digits(n: nat): (s: string)
    ensures s != [] && AllDigits(s)
  {
    if n < 10 then [Digit(n)] else Digits(n / 10) + [Digit(n % 10)]
  }

  function Value(s: string): (n: nat)
    requires AllDigits(s)
  {
    if s == [] then 0 else Value(s[..|s| - 1]) * 10 + DigitValue(s[|s| - 1])
  }

  lemma {:induction false} DigitsHaveValue(n: nat)
    ensures Value(Digits(n)) == n
  {
    var s := Digits(n);
    if n >= 10 {
      assert s[..|s| - 1] == Digits(n / 10);
      DigitsHaveValue(n / 10);
    } else {
      assert s[..0] == [];
    }
  }

  function PowerOfTen(k: nat): (n: nat)
  {
    if k == 0 then 1 else 10 * PowerOfTen(k - 1)
  }

  /** A number below a power of ten has no more digits than its exponent. */
  lemma {:induction false} DigitsBound(n: nat, k: nat)
    requires n < PowerOfTen(k) && k > 0
    ensures |Digits(n)| <= k
  {
    if n >= 10 {
      assert k > 1 by { assert PowerOfTen(1) == 10; }
      DigitsBound(n / 10, k - 1);
    }
  }

  lemma NineteenDigits(n: nat)
    requires n <= INT64_MAX
    ensures |Digits(n)| <= 19
  {
    assert PowerOfTen(4) == 10_000;
    assert PowerOfTen(8) == 100_000_000;
    assert PowerOfTen(12) == 1_000_000_000_000;
    assert PowerOfTen(16) == 10_000_000_000_000_000;
    assert PowerOfTen(19) == 10_000_000_000_000_000_000;
    DigitsBound(n, 19);
  }

  function Text(v: int): (s: string)
  {
    if v < 0 then "-" + Digits(-v) else Digits(v)
  }

  // ----- reading

  /** The accumulator loop of xiny_utils_textToInt in 64-bit arithmetic; None is its early return. */
  function Accumulate(s: string): (r: Option<nat>)
    ensures r.Some? ==> r.value < UINT64 && AllDigits(s)
  {
    if s == [] then Some(0)
    else
      var r := Accumulate(s[..|s| - 1]);
      var c := s[|s| - 1];
      if r.None? || !IsDigit(c) || r.value > (UINT64 - 1) / 10 then None
      else Some((r.value * 10 + DigitValue(c)) % UINT64)
  }

  /** The end of xiny_utils_textToInt: the range test and the sign. */
  function Concluded(r: Option<nat>, negative: bool): (v: Option<int>)
    ensures v.Some? ==> -INT64_MAX <= v.value <= INT64_MAX
  {
    if r.None? || r.value > INT64_MAX then None else Some(if negative then 0 - (r.value as int) else r.value as int)
  }

  /** xiny_utils_textToInt. */
  function TextToInt(s: string): (v: Option<int>)
    ensures v.Some? ==> -INT64_MAX <= v.value <= INT64_MAX
  {
    if s == [] then None
    else if s[0] == '-' then Concluded(Accumulate(s[1..]), true)
    else Concluded(Accumulate(s), false)
  }

  method TextToIntLoop(s: string) returns (v: Option<int>)
    ensures v == TextToInt(s)
  {
    if |s| == 0 {
      return None;
    }
    var i, negative := 0, false;
    if s[0] == '-' {
      i, negative := 1, true;
    }
    ghost var start := i;
    ghost var digits := s[start..];
    var result := 0;
    assert digits[..0] == [];
    while i < |s|
      invariant start <= i <= |s| && 0 <= result < UINT64
      invariant Accumulate(digits[..i - start]) == Some(result)
    {
      assert digits[..i - start + 1][..i - start] == digits[..i - start];
      if IsDigit(s[i]) && result <= (UINT64 - 1) / 10 {
        result := (result * 10 + DigitValue(s[i])) % UINT64;
      } else {
        NoneStays(digits, i - start + 1);
        return None;
      }
      i := i + 1;
    }
    assert digits[..i - start] == digits;
    if result > INT64_MAX {
      return None;
    }
    v := Some(if negative then 0 - result else result);
  }

  lemma {:induction false} NoneStays(s: string, n: nat)
    requires n <= |s| && Accumulate(s[..n]).None?
    ensures Accumulate(s).None?
    decreases |s|
  {
    if n == |s| {
      assert s[..n] == s;
    } else {
      assert s[..|s| - 1][..n] == s[..n];
      NoneStays(s[..|s| - 1], n);
    }
  }

  /** Below 2^64 the accumulator is exact. */
  lemma {:induction false} AccumulateIsExact(s: string)
    requires AllDigits(s) && Value(s) < UINT64
    ensures Accumulate(s) == Some(Value(s))
  {
    if s != [] {
      AccumulateIsExact(s[..|s| - 1]);
    }
  }

  /** On decimal digits the result is the value exactly when that is at most INT64_MAX. */
  lemma ReadsExactlyIff(s: string)
    requires s != [] && AllDigits(s)
    ensures TextToInt(s) == Some(Value(s)) <==> Value(s) <= INT64_MAX
  {
    if Value(s) <= INT64_MAX {
      AccumulateIsExact(s);
    }
  }

  // ----- what happens beyond the range

  /** The guard lets the accumulator wrap at this digit: the value so far is one of the four it misses. */
  predicate WrapsAt(s: string, k: nat)
    requires k <= |s|
  {
    AllDigits(s[..k]) && UINT64 <= Value(s[..k]) <= UINT64 + 3
  }

  predicate NeverWraps(s: string)
  {
    forall k :: 0 <= k <= |s| ==> !WrapsAt(s, k)
  }

  /** One more digit. */
  lemma Extend(s: string)
    requires s != [] && AllDigits(s)
    ensures AllDigits(s[..|s| - 1]) && Value(s) == Value(s[..|s| - 1]) * 10 + DigitValue(s[|s| - 1])
    ensures var r, d := Accumulate(s[..|s| - 1]), DigitValue(s[|s| - 1]);
            Accumulate(s) == if r.None? || r.value > (UINT64 - 1) / 10 then None else Some((r.value * 10 + d) % UINT64)
  {}

  /** Where no prefix is caught in that gap, the accumulator is exact below 2^64 and refuses everything else. */
  lemma {:induction false} AccumulateWithoutWrap(s: string)
    requires AllDigits(s) && NeverWraps(s)
    ensures Accumulate(s) == if Value(s) < UINT64 then Some(Value(s)) else None
    decreases |s|
  {
    if s != [] {
      var before := s[..|s| - 1];
      assert s[..|s|] == s;
      assert !WrapsAt(s, |s|);
      forall k | 0 <= k <= |before|
        ensures !WrapsAt(before, k)
      {
        assert before[..k] == s[..k];
        assert !WrapsAt(s, k);
      }
      Extend(s);
      AccumulateWithoutWrap(before);
      hide Accumulate, Value, NeverWraps;
      InRange(Value(before), DigitValue(s[|s| - 1]));
    }
  }

  lemma InRange(v: nat, d: nat)
    requires d < 10
    ensures v < UINT64 && v <= (UINT64 - 1) / 10 && v * 10 + d < UINT64 ==> (v * 10 + d) % UINT64 == v * 10 + d
    ensures v <= (UINT64 - 1) / 10 ==> v * 10 + d <= UINT64 + 3
    ensures v > (UINT64 - 1) / 10 ==> v * 10 + d > UINT64 + 3
    ensures UINT64 <= v * 10 + d <= UINT64 + 3 ==>
              v == (UINT64 - 1) / 10 && (v * 10 + d) % UINT64 == v * 10 + d - UINT64
  {}

  /** At such a prefix the accumulator holds the value without 2^64. */
  lemma AccumulateAtWrap(s: string)
    requires WrapsAt(s, |s|)
    ensures Accumulate(s) == Some(Value(s) - UINT64)
  {
    assert s[..|s|] == s;
    Extend(s);
    var before := s[..|s| - 1];
    hide Value, Accumulate;
    InRange(Value(before), DigitValue(s[|s| - 1]));
    AccumulateIsExact(before);
  }

  /** What follows a prefix only depends on what the accumulator holds there. */
  lemma {:induction false} AccumulateGoesOn(a: string, b: string, rest: string)
    requires Accumulate(a) == Accumulate(b)
    ensures Accumulate(a + rest) == Accumulate(b + rest)
    decreases |rest|
  {
    if rest == [] {
      assert a + rest == a && b + rest == b;
    } else {
      var before := rest[..|rest| - 1];
      assert (a + rest)[..|a + rest| - 1] == a + before && (b + rest)[..|b + rest| - 1] == b + before;
      AccumulateGoesOn(a, b, before);
    }
  }

  /** A text of digits, without and with a sign. */
  lemma BySign(s: string)
    requires s != [] && IsDigit(s[0])
    ensures TextToInt(s) == Concluded(Accumulate(s), false) && TextToInt("-" + s) == Concluded(Accumulate(s), true)
  {
    hide Accumulate, Concluded;
    assert ("-" + s)[1..] == s && ("-" + s)[0] == '-';
  }

  function Sign(negative: bool): (s: string)
  {
    if negative then "-" else ""
  }

  /** Without a caught prefix, a text of digits is read as its value if that is in range and refused otherwise. */
  lemma ReadsOrRefuses(s: string, negative: bool)
    requires s != [] && AllDigits(s) && NeverWraps(s)
    ensures TextToInt(Sign(negative) + s) == Concluded(Some(Value(s)), negative)
  {
    AccumulateWithoutWrap(s);
    assert IsDigit(s[0]);
    EitherSign(s, negative);
    hide Accumulate, Value, NeverWraps, TextToInt;
  }

  /** With one, the text is read as if that prefix were the single digit by which it exceeds 2^64, whatever follows. */
  lemma CaughtPrefixIsOneDigit(s: string, k: nat, negative: bool)
    requires k <= |s| && WrapsAt(s, k)
    ensures TextToInt(Sign(negative) + s) ==
            TextToInt(Sign(negative) + ([Digit(Value(s[..k]) - UINT64)] + s[k..]))
  {
    var a, rest := s[..k], s[k..];
    assert a[..k] == a && a + rest == s;
    hide TextToInt, Sign;
    SameFromHere(a, Value(a) - UINT64, rest, negative);
  }

  lemma SameFromHere(a: string, d: nat, rest: string, negative: bool)
    requires WrapsAt(a, |a|) && d < 10 && Value(a) == UINT64 + d
    ensures TextToInt(Sign(negative) + (a + rest)) == TextToInt(Sign(negative) + ([Digit(d)] + rest))
  {
    assert a[..|a|] == a;
    AccumulateAtWrap(a);
    OneDigit(d);
    assert a != [] && IsDigit(a[0]);
    hide *;
    AccumulateGoesOn(a, [Digit(d)], rest);
    EitherSign(a + rest, negative);
    EitherSign([Digit(d)] + rest, negative);
  }

  lemma EitherSign(s: string, negative: bool)
    requires s != [] && IsDigit(s[0])
    ensures TextToInt(Sign(negative) + s) == Concluded(Accumulate(s), negative)
  {
    BySign(s);
    hide TextToInt, Concluded, Accumulate;
    assert Sign(false) + s == s;
  }

  /** A text of digits with each caught prefix replaced by its digit, until none is left. */
  ghost function Reduced(s: string): (r: string)
    decreases |s|
  {
    if k :| 0 <= k <= |s| && WrapsAt(s, k) then
      CaughtIsLong(s, k);
      Reduced([Digit(Value(s[..k]) - UINT64)] + s[k..])
    else s
  }

  lemma CaughtIsLong(s: string, k: nat)
    requires k <= |s| && WrapsAt(s, k)
    ensures k >= 2 && 0 <= Value(s[..k]) - UINT64 < 10
  {}

  /** Every text of digits is read as its reduced form if that is in range, and refused otherwise. */
  lemma {:induction false} ReadsReduced(s: string, negative: bool)
    requires s != [] && AllDigits(s)
    ensures AllDigits(Reduced(s)) && TextToInt(Sign(negative) + s) == Concluded(Some(Value(Reduced(s))), negative)
    ensures NeverWraps(s) ==> Reduced(s) == s
    decreases |s|
  {
    hide TextToInt, Concluded, Value, WrapsAt, Sign;
    if k :| 0 <= k <= |s| && WrapsAt(s, k) && Reduced(s) == ReducedAt(s, k) {
      CaughtIsLong(s, k);
      var t := [Digit(Value(s[..k]) - UINT64)] + s[k..];
      ReadsReduced(t, negative);
      CaughtPrefixIsOneDigit(s, k, negative);
    } else {
      assert NeverWraps(s);
      ReadsOrRefuses(s, negative);
    }
  }

  ghost function ReducedAt(s: string, k: nat): (r: string)
    requires k <= |s| && WrapsAt(s, k)
  {
    CaughtIsLong(s, k);
    Reduced([Digit(Value(s[..k]) - UINT64)] + s[k..])
  }

  lemma {:induction false} PrefixIsSmaller(s: string, k: nat)
    requires k <= |s| && AllDigits(s)
    ensures AllDigits(s[..k]) && Value(s[..k]) <= Value(s)
    decreases |s|
  {
    if k == |s| {
      assert s[..k] == s;
    } else {
      var before := s[..|s| - 1];
      assert before[..k] == s[..k];
      PrefixIsSmaller(before, k);
    }
  }

  /** A text of digits is read as its value or refused as out of range, as it should be, exactly when no prefix is caught or
      its reduced form is out of range too. */
  lemma ReadsOrRefusesIff(s: string, negative: bool)
    requires s != [] && AllDigits(s)
    ensures AllDigits(Reduced(s))
    ensures TextToInt(Sign(negative) + s) == Concluded(Some(Value(s)), negative) <==>
            NeverWraps(s) || Value(Reduced(s)) > INT64_MAX
  {
    ReadsReduced(s, negative);
    if !NeverWraps(s) {
      var k :| 0 <= k <= |s| && WrapsAt(s, k);
      PrefixIsSmaller(s, k);
      assert Value(s) >= UINT64;
    }
    hide Value, TextToInt, Reduced, NeverWraps;
  }

  lemma OneDigit(d: nat)
    requires d < 10
    ensures Accumulate([Digit(d)]) == Some(d)
  {
    var s := [Digit(d)];
    assert s[..0] == [];
    assert Accumulate(s[..0]) == Some(0);
  }

  /** Values of 2^64 and more need not be refused: this text denotes 2^64 and reads as 0. */
  lemma WrappedValueIsAccepted(n: nat)
    requires n == (UINT64 - 1) / 10
    ensures var s := Digits(n) + ['6'];
            AllDigits(s) && Value(s) == UINT64 && TextToInt(s) == Some(0)
  {
    hide *;
    DigitsHaveValue(n);
    SixWraps(Digits(n));
  }

  lemma SixWraps(a: string)
    requires AllDigits(a) && Value(a) == (UINT64 - 1) / 10
    ensures var s := a + ['6']; AllDigits(s) && Value(s) == UINT64 && TextToInt(s) == Some(0)
  {
    SixBehind(a);
    InRange(Value(a), 6);
    assert Value(a + ['6']) == UINT64;
    hide Accumulate, Value, TextToInt;
    AccumulateAtWrap(a + ['6']);
    BySign(a + ['6']);
  }

  lemma SixBehind(a: string)
    requires AllDigits(a)
    ensures var s := a + ['6'];
            s[..|s|] == s && AllDigits(s) && IsDigit(s[0]) && Value(s) == Value(a) * 10 + 6
  {
    var s := a + ['6'];
    assert s[..|s| - 1] == a;
  }

  /** Every 64-bit value above the minimum survives the trip through text. */
  lemma TextRoundTrip(v: int64)
    requires v >= -INT64_MAX
    ensures TextToInt(Text(v)) == Some(v)
  {
    var n := if v < 0 then -v else v;
    DigitsHaveValue(n);
    AccumulateIsExact(Digits(n));
    if v < 0 {
      assert Text(v)[1..] == Digits(n);
    } else {
      assert IsDigit(Text(v)[0]);
    }
  }

  // ----- writing

  /** The digits of n, least significant at the end of a field of `length` characters. */
  lemma {:induction false} DigitsTail(n: nat, k: nat)
    requires k < |Digits(n)|
    ensures |Digits(n)| - k == |Digits(Shifted(n, k))| && Digits(Shifted(n, k)) == Digits(n)[..|Digits(n)| - k]
    ensures Digits(n)[|Digits(n)| - 1 - k] == Digit(Shifted(n, k) % 10)
    ensures Shifted(n, k) < 10 <==> k + 1 == |Digits(n)|
    decreases n
  {
    if k > 0 {
      assert n >= 10;
      DigitsTail(n / 10, k - 1);
    }
  }

  /** n without its last k digits. */
  function Shifted(n: nat, k: nat): (m: nat)
    decreases k
  {
    if k == 0 then n else Shifted(n / 10, k - 1)
  }

  lemma {:induction false} ShiftedNext(n: nat, k: nat)
    ensures Shifted(n, k + 1) == Shifted(n, k) / 10
    decreases k
  {
    if k > 0 {
      ShiftedNext(n / 10, k - 1);
    }
  }

  /** How many characters xiny_utils_intToText needs: for a negative number it wants one to spare. */
  function Room(v: int): (n: nat)
  {
    if v < 0 then |Digits(-v)| + 2 else |Digits(v)|
  }

  method Store(buffer: array<char>, i: nat, c: char)
    requires i < buffer.Length
    modifies buffer
    ensures buffer[..] == old(buffer[..])[i := c]
  {
    buffer[i] := c;
  }

  /** The digit loop of xiny_utils_intToText: it fills the field from its end and stops when it is full. */
  method WriteDigits(value: nat, buffer: array<char>, at: nat, length: nat) returns (index: int, data: nat)
    requires 1 <= length && at + length <= buffer.Length
    modifies buffer
    ensures var digits, b := Digits(value), old(buffer[..]);
            if |digits| <= length then
              data == 0 && index == length - 1 - |digits| && |digits| > 0
              && buffer[..] == b[..at + length - |digits|] + digits + b[at + length..]
            else data > 0 && buffer[..at] == b[..at] && buffer[at + length..] == b[at + length..]
  {
    hide *;
    ghost var digits := Digits(value);
    ghost var b := buffer[..];
    ghost var k := 0;
    index, data := length - 1, value;
    NothingWritten(b, at + length, value);
    while index >= 0 && (index == length - 1 || data > 0)
      invariant 0 <= k <= |digits| && k <= length && index == length - 1 - k && data == Shifted(value, k)
      invariant (k > 0 && data == 0) <==> k == |digits|
      invariant buffer[..] == b[..at + length - k] + digits[|digits| - k..] + b[at + length..]
      decreases |digits| - k
    {
      NextDigit(value, k);
      OneMoreInFront(buffer[..], b, digits, at + length, k);
      Store(buffer, at + index, Digit(data % 10));
      data := data / 10;
      index := index - 1;
      k := k + 1;
    }
    FieldParts(buffer[..], b, digits[|digits| - k..], at, at + length - k, at + length);
    if k == |digits| {
      Complete(buffer[..], b, digits, at + length);
    }
  }

  lemma NothingWritten(b: string, end: nat, value: nat)
    requires end <= |b|
    ensures var digits := Digits(value); |digits| > 0 && b[..end - 0] + digits[|digits| - 0..] + b[end..] == b
    ensures Shifted(value, 0) == value
  {}

  lemma NextDigit(value: nat, k: nat)
    requires k < |Digits(value)|
    ensures Digits(value)[|Digits(value)| - 1 - k] == Digit(Shifted(value, k) % 10)
    ensures Shifted(value, k + 1) == Shifted(value, k) / 10
    ensures Shifted(value, k) / 10 == 0 <==> k + 1 == |Digits(value)|
  {
    hide Digits, Shifted;
    DigitsTail(value, k);
    ShiftedNext(value, k);
  }

  /** Storing the next digit in front of the last k. */
  lemma OneMoreInFront(now: string, b: string, digits: string, end: nat, k: nat)
    requires k < |digits| && k < end <= |b| && now == b[..end - k] + digits[|digits| - k..] + b[end..]
    ensures |now| == |b|
    ensures var n := |digits| - 1 - k;
            now[end - k - 1 := digits[n]] == b[..end - k - 1] + digits[|digits| - (k + 1)..] + b[end..]
  {
    var n := |digits| - 1 - k;
    assert digits[n..] == [digits[n]] + digits[|digits| - k..];
    assert b[..end - k] == b[..end - k - 1] + [b[end - k - 1]];
  }

  /** The digits of a negative number fill the field, so that nothing is left for the sign. */
  predicate Spills(v: int, length: nat)
  {
    v < 0 && length == |Digits(-v)|
  }

  /** xiny_utils_intToText into `length` characters of the buffer from `at` on. Nothing in front of the field is touched
      unless the digits of a negative number fill it: then the sign is written in front of it, and the result is one more
      than the length. The buffer must begin early enough to hold that sign. */
  method IntToText(v: int64, buffer: array<char>, at: nat, length: nat) returns (n: nat)
    requires v >= -INT64_MAX && 1 <= length && at + length <= buffer.Length
    requires Spills(v, length) ==> at >= 1
    modifies buffer
    ensures n > 0 <==> length >= Room(v) || Spills(v, length)
    ensures n > 0 ==> n == |Text(v)|
    ensures n > 0 && !Spills(v, length) ==> n <= length && buffer[at..at + n] == Text(v)
    ensures Spills(v, length) ==> n == length + 1 && buffer[at - 1..at + length] == Text(v)
    ensures if Spills(v, length) then buffer[..at - 1] == old(buffer[..at - 1]) else buffer[..at] == old(buffer[..at])
    ensures buffer[at + length..] == old(buffer[at + length..])
  {
    hide *;
    ghost var b := buffer[..];
    var ok, index := WriteSigned(v, buffer, at, length);
    if !ok {
      return 0;
    }
    n := length - index;
    FieldParts(buffer[..], b, Text(v), if index < 0 then at - 1 else at, at + length - n, at + length);
    if n < length {
      ghost var now := buffer[..];
      MoveDown(buffer, at, index, n);
      MovedParts(buffer[..], now, b, Text(v), at, index, n);
    }
  }

  /** A text between what was in front of it and behind it. */
  lemma FieldParts(now: string, b: string, text: string, at: nat, from: nat, end: nat)
    requires at <= from && from + |text| == end <= |b| && now == b[..from] + text + b[end..]
    ensures |now| == |b| && now[from..end] == text && now[end..] == b[end..] && now[..at] == b[..at]
  {}

  lemma MovedParts(now: string, was: string, b: string, text: string, at: nat, index: nat, n: nat)
    requires n == |text| && at + index + n <= |b| && was == b[..at + index] + text + b[at + index + n..]
    requires |now| == |was| && now[at..at + n] == was[at + index..at + index + n]
    requires now[..at] == was[..at] && now[at + index + n..] == was[at + index + n..]
    ensures now[at..at + n] == text && now[..at] == b[..at] && now[at + index + n..] == b[at + index + n..]
  {}

  /** The sign in front of the digits of a negative number, unless they start at the second place of the field. */
  method PutSign(v: int64, buffer: array<char>, at: nat, length: nat, index0: int, ghost b: string, ghost digits: string)
    returns (ok: bool, index: int)
    requires |digits| > 0 && index0 == length - 1 - |digits| >= -1 && |b| == buffer.Length && at + length <= |b|
    requires v < 0 && index0 == -1 ==> at >= 1
    requires buffer[..] == b[..at + length - |digits|] + digits + b[at + length..]
    modifies buffer
    ensures ok <==> !(v < 0 && index0 == 0)
    ensures !ok ==> buffer[..at] == b[..at] && buffer[at + length..] == b[at + length..]
    ensures ok ==> index == (if v < 0 then index0 else index0 + 1)
    ensures ok ==> buffer[..] == b[..at + index] + (if v < 0 then ['-'] + digits else digits) + b[at + length..]
  {
    ok, index := true, index0;
    if v < 0 {
      if index == 0 {
        FieldParts(buffer[..], b, digits, at, at + 1, at + length);
        ok := false;
        return;
      }
      InFront(buffer[..], b, digits, at + length);
      Store(buffer, at + index, '-');
    } else {
      index := index + 1;
    }
  }

  /** The text at the end of its field, or around its start. */
  method WriteSigned(v: int64, buffer: array<char>, at: nat, length: nat) returns (ok: bool, index: int)
    requires v >= -INT64_MAX && 1 <= length && at + length <= buffer.Length
    requires Spills(v, length) ==> at >= 1
    modifies buffer
    ensures ok <==> length >= Room(v) || Spills(v, length)
    ensures ok ==> -1 <= index < length && length - index == |Text(v)| && (index == -1 <==> Spills(v, length))
    ensures ok ==> buffer[..] == old(buffer[..])[..at + index] + Text(v) + old(buffer[..])[at + length..]
    ensures !ok ==> buffer[..at] == old(buffer[..])[..at] && buffer[at + length..] == old(buffer[..])[at + length..]
  {
    SignedParts(v, length);
    var value := if v < 0 then -v else v;
    hide *;
    ghost var b := buffer[..];
    ghost var digits := Digits(value);
    var data;
    index, data := WriteDigits(value, buffer, at, length);
    if data > 0 {
      ok := false;
    } else {
      ok, index := PutSign(v, buffer, at, length, index, b, digits);
    }
  }

  lemma SignedParts(v: int, length: nat)
    ensures var digits := Digits(if v < 0 then -v else v);
            && |digits| > 0 && Text(v) == (if v < 0 then ['-'] + digits else digits)
            && Room(v) == |digits| + (if v < 0 then 2 else 0)
            && (Spills(v, length) <==> v < 0 && length == |digits|)
  {
    hide Digits;
  }

  lemma Complete(now: string, b: string, digits: string, end: nat)
    requires |digits| <= end <= |b| && now == b[..end - |digits|] + digits[|digits| - |digits|..] + b[end..]
    ensures now == b[..end - |digits|] + digits + b[end..]
  {
    assert digits[0..] == digits;
  }

  lemma InFront(now: string, b: string, digits: string, end: nat)
    requires |digits| < end <= |b| && now == b[..end - |digits|] + digits + b[end..]
    ensures |now| == |b|
    ensures var at := end - |digits| - 1; now[at := '-'] == b[..at] + (['-'] + digits) + b[end..]
  {
    var at := end - |digits| - 1;
    assert b[..at + 1] == b[..at] + [b[at]];
  }

  /** memmove to the front of the field. */
  method MoveDown(buffer: array<char>, at: nat, index: nat, n: nat)
    requires at + index + n <= buffer.Length
    modifies buffer
    ensures buffer[at..at + n] == old(buffer[at + index..at + index + n])
    ensures buffer[..at] == old(buffer[..at]) && buffer[at + index + n..] == old(buffer[at + index + n..])
  {
    var i := 0;
    while i < n
      invariant 0 <= i <= n
      invariant buffer[at..at + i] == old(buffer[at + index..at + index + i])
      invariant forall j :: at + i <= j < buffer.Length && j >= at + index + i ==> buffer[j] == old(buffer[j])
      invariant buffer[..at] == old(buffer[..at])
    {
      buffer[at + i] := buffer[at + index + i];
      i := i + 1;
    }
  }

  /** A non-negative number into the rest of the buffer. */
  method AppendNumber(v: nat, buffer: array<char>, at: nat) returns (n: nat)
    requires v <= INT64_MAX && at < buffer.Length
    modifies buffer
    ensures n == if at + |Digits(v)| <= buffer.Length then |Digits(v)| else 0
    ensures n > 0 ==> buffer[..at + n] == old(buffer[..at]) + Digits(v)
  {
    hide Digits;
    n := IntToText(v, buffer, at, buffer.Length - at);
    if n > 0 {
      assert buffer[..at + n] == buffer[..at] + buffer[at..at + n];
    }
  }

  /** xiny_utils_stringCopy: refused unless the terminating zero fits as well. */
  method StringCopy(buffer: array<char>, at: nat, text: string) returns (n: int)
    requires at <= buffer.Length && forall i :: 0 <= i < |text| ==> text[i] != '\0'
    modifies buffer
    ensures n == if at + |text| < buffer.Length then |text| else -1
    ensures n >= 0 ==> buffer[..at + n] == old(buffer[..at]) + text
    ensures buffer[..at] == old(buffer[..at])
  {
    var i := 0;
    while at + i < buffer.Length && i < |text|
      invariant 0 <= i <= |text| && at + i <= buffer.Length
      invariant buffer[..at + i] == old(buffer[..at]) + text[..i]
    {
      buffer[at + i] := text[i];
      i := i + 1;
    }
    assert buffer[..at] == buffer[..at + i][..at];
    if at + i == buffer.Length {
      return -1;
    }
    buffer[at + i] := '\0';
    assert text[..i] == text;
    return i;
  }
}
