/** Block1 reassembly (section 2.5 of RFC 7959): a receiver that faces any schedule of loss, duplication and reordering. */
module Block1 {
  import opened Bytes

  const MAX_BLOCK1_SIZE := 4096

  datatype Code = Continue231 | NoError | Incomplete408 | TooLarge413

  datatype Message = Message(mid: u16, payload: seq<byte>, size: u16, num: u32, more: bool)

  /** Per-server state; None is the NULL pointer before the first block 0. */
  datatype Transfer = Transfer(buffer: seq<byte>, lastMid: u16)

  /** The returned code and, for NoError, the reassembled payload. */
  datatype Answer = Answer(code: Code, output: seq<byte>)

  function Reply(t: Transfer, m: Message): (a: Answer)
  {
    if m.more then Answer(Continue231, []) else Answer(NoError, t.buffer)
  }

  /** xiny_coap_block1_handler. The offset is computed in 32 bits. */
  function Handle(s: Option<Transfer>, m: Message): (r: (Option<Transfer>, Answer))
  {
    if m.num == 0 then
      var t := Transfer(m.payload, m.mid);
      (Some(t), Reply(t, m))
    else if s.None? then (s, Answer(Incomplete408, []))
    else if s.value.lastMid == m.mid then (s, Reply(s.value, m))
    else if |s.value.buffer| != (m.num as int) * m.size % 0x1_0000_0000 then (s, Answer(Incomplete408, []))
    else if |s.value.buffer| + |m.payload| >= MAX_BLOCK1_SIZE then (s, Answer(TooLarge413, []))
    else
      var t := Transfer(s.value.buffer + m.payload, m.mid);
      (Some(t), Reply(t, m))
  }

  /** The receiver object: the handler updates the buffer and the last message id in place. */
  class Receiver {
    var started: bool
    var buffer: seq<byte>
    var lastMid: u16

    ghost function View(): (s: Option<Transfer>)
      reads this
    {
      if started then Some(Transfer(buffer, lastMid)) else None
    }

    constructor ()
      ensures View() == None
    {
      started, buffer, lastMid := false, [], 0;
    }

    method Receive(m: Message) returns (a: Answer)
      modifies this
      ensures (View(), a) == Handle(old(View()), m)
    {
      if m.num == 0 {
        started, buffer, lastMid := true, m.payload, m.mid;
      } else {
        if !started {
          return Answer(Incomplete408, []);
        }
        if lastMid != m.mid {
          var offset := (m.num as int) * m.size % 0x1_0000_0000;
          if |buffer| != offset {
            return Answer(Incomplete408, []);
          }
          if |buffer| + |m.payload| >= MAX_BLOCK1_SIZE {
            return Answer(TooLarge413, []);
          }
          buffer, lastMid := buffer + m.payload, m.mid;
        }
      }
      a := if m.more then Answer(Continue231, []) else Answer(NoError, buffer);
    }
  }

  // ----- retransmission

  /** Handling any message twice in a row gives the same state and the same answer as once. */
  lemma RetransmissionIsHarmless(s: Option<Transfer>, m: Message)
    ensures var (s1, a1) := Handle(s, m); Handle(s1, m) == (s1, a1)
  {}

  // ----- one body in blocks

  /** Where the blocks of a body of `length` bytes start and end. */
  lemma BlockBounds(length: nat, size: nat, n: nat)
    requires size > 0 && n < (if length == 0 then 1 else (length - 1) / size + 1)
    ensures n * size <= length && (n > 0 ==> n * size < length)
    ensures n + 1 == (if length == 0 then 1 else (length - 1) / size + 1) ==> (n + 1) * size >= length
  {
    if length > 0 {
      var q := (length - 1) / size;
      Multiples(n, q, size);
      DivisionBounds(length - 1, size);
    }
  }

  lemma Multiples(n: int, q: int, size: int)
    requires n <= q && size > 0
    ensures n * size <= q * size && (n + 1) * size == n * size + size
  {}

  lemma DivisionBounds(x: nat, size: nat)
    requires size > 0
    ensures x / size * size <= x < x / size * size + size
  {
    assert x == x / size * size + x % size;
  }

  /** A body cut into blocks of `size` bytes, the last one possibly short. A message id names one block only,
      but a block may be sent under several ids: `block` maps each id to its block number. */
  datatype Sender = Sender(body: seq<byte>, size: u16, block: map<u16, u32>)
  {
    predicate Valid() {
      && size > 0 && |body| <= 0x1_0000_0000
      && forall mid :: mid in block ==> block[mid] < Count()
    }

    /** The number of blocks; an empty body is one empty block. */
    function Count(): (n: int)
      requires size > 0
    {
      if |body| == 0 then 1 else (|body| - 1) / size + 1
    }

    function Prefix(n: nat): (p: seq<byte>)
      requires size > 0
    {
      if n * size <= |body| then body[..n * size] else body
    }

    function Block(n: nat): (p: seq<byte>)
      requires size > 0 && n * size <= |body|
    {
      if (n + 1) * size <= |body| then body[n * size..(n + 1) * size] else body[n * size..]
    }

    lemma BlockFits(n: nat)
      requires size > 0 && n < Count()
      ensures n * size <= |body| && (n > 0 ==> n * size < |body|)
      ensures Prefix(n) + Block(n) == Prefix(n + 1)
      ensures n + 1 == Count() ==> Prefix(n + 1) == body
    {
      BlockBounds(|body|, size, n);
      assert (n + 1) * size == n * size + size;
    }

    predicate Sends(m: Message)
      requires Valid()
    {
      && m.mid in block && m.num == block[m.mid] && m.size == size
      && m.num * size <= |body| && m.payload == Block(m.num)
      && (m.more <==> m.num + 1 < Count())
    }
  }

  function Run(ms: seq<Message>): (s: Option<Transfer>)
  {
    if ms == [] then None else Handle(Run(ms[..|ms| - 1]), ms[|ms| - 1]).0
  }

  predicate FromSender(b: Sender, ms: seq<Message>)
    requires b.Valid()
  {
    forall i :: 0 <= i < |ms| ==> b.Sends(ms[i])
  }

  /** The receiver holds the first n blocks, the last of which came under the recorded id. */
  predicate Holds(b: Sender, t: Transfer, n: int)
    requires b.Valid()
  {
    && 1 <= n <= b.Count() && t.buffer == b.Prefix(n)
    && t.lastMid in b.block && b.block[t.lastMid] == n - 1
    && (n == 1 || |t.buffer| < MAX_BLOCK1_SIZE)
  }

  ghost predicate HoldsSome(b: Sender, s: Option<Transfer>)
    requires b.Valid()
  {
    s.Some? ==> exists n :: Holds(b, s.value, n)
  }

  /** Whether the receiver takes the whole body: a single block is never too large. */
  predicate Accepted(b: Sender)
    requires b.Valid()
  {
    b.Count() == 1 || |b.body| < MAX_BLOCK1_SIZE
  }

  lemma StepIsSafe(b: Sender, s: Option<Transfer>, m: Message)
    requires b.Valid() && b.Sends(m) && HoldsSome(b, s)
    ensures var (s', a) := Handle(s, m);
            && HoldsSome(b, s')
            && (a.code.NoError? ==> a.output == b.body && Accepted(b))
  {
    if m.num == 0 {
      FirstBlockHolds(b, m);
    } else if s.Some? {
      var t := s.value;
      var n :| Holds(b, t, n);
      b.BlockFits(n - 1);
      OffsetIsExact(b, m);
      if t.lastMid != m.mid && |t.buffer| == m.num * b.size && |t.buffer| + |m.payload| < MAX_BLOCK1_SIZE {
        SameLengthSameBlock(b, n, m.num);
        NextBlockHolds(b, t, n, m);
      }
    }
  }

  lemma FirstBlockHolds(b: Sender, m: Message)
    requires b.Valid() && b.Sends(m) && m.num == 0
    ensures Holds(b, Transfer(m.payload, m.mid), 1)
    ensures b.Count() == 1 ==> m.payload == b.body
  {
    b.BlockFits(0);
    assert b.Prefix(0) == [] && [] + b.Block(0) == b.Block(0);
  }

  lemma NextBlockHolds(b: Sender, t: Transfer, n: int, m: Message)
    requires b.Valid() && Holds(b, t, n) && b.Sends(m) && m.num == n
    requires |t.buffer| + |m.payload| < MAX_BLOCK1_SIZE
    ensures Holds(b, Transfer(t.buffer + m.payload, m.mid), n + 1)
    ensures n + 1 == b.Count() ==> t.buffer + m.payload == b.body
  {
    b.BlockFits(n);
  }

  /** The offset of a block of this body does not wrap. */
  lemma OffsetIsExact(b: Sender, m: Message)
    requires b.Valid() && b.Sends(m) && m.num > 0
    ensures m.num * b.size < |b.body| && (m.num as int) * m.size % 0x1_0000_0000 == m.num * b.size
  {
    b.BlockFits(m.num);
    assert 0 <= m.num * b.size < 0x1_0000_0000;
  }

  /** A buffer of n blocks that ends where block k starts has exactly k blocks. */
  lemma SameLengthSameBlock(b: Sender, n: nat, k: nat)
    requires b.Valid() && 1 <= n <= b.Count() && 1 <= k < b.Count()
    requires |b.Prefix(n)| == k * b.size
    ensures n == k
  {
    b.BlockFits(k);
    assert n * b.size == k * b.size;
    assert (n - k) * b.size == 0;
    MultipleInRange(n - k, b.size);
  }

  /** Over any schedule, the buffer is a whole number of leading blocks of the body, or the whole body. */
  lemma {:induction false} BufferIsPrefix(b: Sender, ms: seq<Message>)
    requires b.Valid() && FromSender(b, ms)
    ensures HoldsSome(b, Run(ms))
  {
    if ms != [] {
      BufferIsPrefix(b, ms[..|ms| - 1]);
      StepIsSafe(b, Run(ms[..|ms| - 1]), ms[|ms| - 1]);
    }
  }

  /** Over any schedule, a final result hands out exactly the body, and only a body the receiver can take. */
  lemma FinalIsBody(b: Sender, ms: seq<Message>, m: Message)
    requires b.Valid() && FromSender(b, ms) && b.Sends(m)
    requires Handle(Run(ms), m).1.code.NoError?
    ensures Handle(Run(ms), m).1.output == b.body && Accepted(b)
  {
    BufferIsPrefix(b, ms);
    StepIsSafe(b, Run(ms), m);
  }

  /** The answer to every message of the sender, with n blocks held: 2.31 while more blocks follow and the body with the last one, for a
      first block, a repetition of the last message and the next block if it fits; 4.08 for a block out of order, and 4.13 for
      one too many. Only a first or a next block changes what is held. */
  lemma EveryAnswer(b: Sender, t: Transfer, n: int, m: Message)
    requires b.Valid() && Holds(b, t, n) && b.Sends(m)
    ensures var (s', a) := Handle(Some(t), m);
            var fits := n * b.size + |m.payload| < 4096;
            && s'.Some?
            && (m.num == 0 ==> Holds(b, s'.value, 1) && a.code == if b.Count() > 1 then Continue231 else NoError)
            && (m.num > 0 && m.mid == t.lastMid ==> s'.value == t && a.code == if n < b.Count() then Continue231 else NoError)
            && (m.num > 0 && m.mid != t.lastMid && m.num == n ==>
                  if fits then Holds(b, s'.value, n + 1) && a.code == if n + 1 < b.Count() then Continue231 else NoError
                  else s'.value == t && a.code == TooLarge413)
            && (m.num > 0 && m.mid != t.lastMid && m.num != n ==> s'.value == t && a.code == Incomplete408)
            && (a.code == NoError ==> a.output == b.body) && (a.code != NoError ==> a.output == [])
  {
    b.BlockFits(n - 1);
    if m.num == 0 {
      FirstBlockHolds(b, m);
    } else {
      OffsetIsExact(b, m);
      b.BlockFits(m.num);
      if m.num == n {
        if |t.buffer| + |m.payload| < MAX_BLOCK1_SIZE && m.mid != t.lastMid {
          NextBlockHolds(b, t, n, m);
        }
      } else if |b.Prefix(n)| == m.num * b.size {
        SameLengthSameBlock(b, n, m.num);
      }
    }
  }

  /** Before the first block every other one is refused. */
  lemma NothingHeld(m: Message)
    requires m.num > 0
    ensures Handle(None, m) == (None, Answer(Incomplete408, []))
  {}

  predicate InOrder(ms: seq<Message>)
  {
    forall i :: 0 <= i < |ms| ==> ms[i].num == i
  }

  /** All blocks in order deliver the body exactly when it is one block or shorter than 4096 bytes. */
  lemma InOrderCompletes(b: Sender, ms: seq<Message>)
    requires b.Valid() && FromSender(b, ms) && InOrder(ms) && |ms| == b.Count()
    ensures Handle(Run(ms[..|ms| - 1]), ms[|ms| - 1]).1 == Answer(NoError, b.body) <==> Accepted(b)
  {
    var before, m := ms[..|ms| - 1], ms[|ms| - 1];
    if Accepted(b) {
      InOrderHolds(b, before);
      NextInOrder(b, before, m);
    }
    if Handle(Run(before), m).1.code.NoError? {
      FinalIsBody(b, before, m);
    }
  }

  lemma {:induction false} InOrderHolds(b: Sender, ms: seq<Message>)
    requires b.Valid() && FromSender(b, ms) && InOrder(ms) && |ms| < b.Count() && Accepted(b)
    ensures ms == [] || (Run(ms).Some? && Holds(b, Run(ms).value, |ms|))
  {
    if ms != [] {
      InOrderHolds(b, ms[..|ms| - 1]);
      NextInOrder(b, ms[..|ms| - 1], ms[|ms| - 1]);
    }
  }

  /** The next block in order is taken. */
  lemma NextInOrder(b: Sender, ms: seq<Message>, m: Message)
    requires b.Valid() && FromSender(b, ms) && b.Sends(m) && m.num == |ms| && Accepted(b)
    requires ms == [] || (Run(ms).Some? && Holds(b, Run(ms).value, |ms|))
    ensures var (s, a) := Handle(Run(ms), m);
            && s.Some? && Holds(b, s.value, |ms| + 1)
            && (m.num + 1 == b.Count() ==> a == Answer(NoError, b.body))
  {
    var n := |ms|;
    if n == 0 {
      FirstBlockHolds(b, m);
    } else {
      OffsetIsExact(b, m);
      b.BlockFits(n);
      assert |b.Prefix(n)| == n * b.size && |b.Prefix(n + 1)| <= |b.body|;
      NextBlockHolds(b, Run(ms).value, n, m);
    }
  }

  // ----- more than one body

  /** Whatever was received before, from any number of senders: behind a first block, the blocks of its body and no others
      hand out exactly that body. */
  lemma {:induction false} FreshStart(b: Sender, before: seq<Message>, first: Message, ms: seq<Message>)
    requires b.Valid() && b.Sends(first) && first.num == 0 && FromSender(b, ms)
    ensures HoldsSome(b, Run(before + [first] + ms))
    decreases |ms|
  {
    var all := before + [first] + ms;
    if ms == [] {
      assert all[..|all| - 1] == before && all[|all| - 1] == first;
      FirstBlockHolds(b, first);
    } else {
      var last := ms[|ms| - 1];
      assert all[..|all| - 1] == before + [first] + ms[..|ms| - 1] && all[|all| - 1] == last;
      FreshStart(b, before, first, ms[..|ms| - 1]);
      StepIsSafe(b, Run(all[..|all| - 1]), last);
    }
  }

  lemma FinalAfterFreshStart(b: Sender, before: seq<Message>, first: Message, ms: seq<Message>, m: Message)
    requires b.Valid() && b.Sends(first) && first.num == 0 && FromSender(b, ms) && b.Sends(m)
    requires Handle(Run(before + [first] + ms), m).1.code.NoError?
    ensures Handle(Run(before + [first] + ms), m).1.output == b.body
  {
    FreshStart(b, before, first, ms);
    StepIsSafe(b, Run(before + [first] + ms), m);
  }

  /** The handler takes a late block: it is new, starts where the buffer ends, and fits. */
  predicate TakesLate(t: Transfer, m: Message)
  {
    && m.num > 0 && m.mid != t.lastMid && |t.buffer| == (m.num as int) * m.size % 0x1_0000_0000
    && |t.buffer| + |m.payload| < MAX_BLOCK1_SIZE
  }

  /** A last block of another body a that comes while n blocks of b are held: an answer is final exactly if the block is taken
      or carries the id of the last one. If it is taken, the result is a's body exactly if b begins as a does,
      and b's body exactly if b ends as a does; otherwise it is neither. */
  lemma LateBlock(a: Sender, b: Sender, t: Transfer, n: int, m: Message)
    requires a.Valid() && b.Valid() && Holds(b, t, n) && a.Sends(m) && !m.more && m.num > 0
    ensures var r := Handle(Some(t), m).1;
            && (r.code.NoError? <==> TakesLate(t, m) || m.mid == t.lastMid)
            && (m.mid == t.lastMid ==> r.output == b.Prefix(n))
            && (TakesLate(t, m) ==>
                  && r.output == b.Prefix(n) + a.Block(m.num)
                  && (r.output == a.body <==> b.Prefix(n) == a.Prefix(m.num))
                  && (r.output == b.body <==> b.body[|b.Prefix(n)|..] == a.Block(m.num)))
  {
    a.BlockFits(m.num);
    OffsetIsExact(a, m);
    if TakesLate(t, m) {
      assert b.Prefix(n) == b.body[..|b.Prefix(n)|];
      JoinsEqual(b.Prefix(n), a.Block(m.num), a.Prefix(m.num), a.Block(m.num));
      JoinsEqual(b.Prefix(n), a.Block(m.num), b.Prefix(n), b.body[|b.Prefix(n)|..]);
      assert b.Prefix(n) + b.body[|b.Prefix(n)|..] == b.body;
      assert |a.Prefix(m.num)| == |b.Prefix(n)|;
    }
  }

  lemma JoinsEqual(p: seq<byte>, x: seq<byte>, q: seq<byte>, y: seq<byte>)
    requires |p| == |q|
    ensures p + x == q + y <==> p == q && x == y
  {
    if p + x == q + y {
      assert (p + x)[..|p|] == p && (q + y)[..|p|] == q && (p + x)[|p|..] == x && (q + y)[|p|..] == y;
    }
  }

  /** Two bodies of two one-byte blocks: the late second block of the first, behind the first block of the second, gives a
      result that is neither. */
  lemma MixedBody()
    ensures var a, b := Sender([1, 1], 1, map[10 := 0, 11 := 1]), Sender([2, 2], 1, map[20 := 0, 21 := 1]);
            var first, late := Message(20, [2], 1, 0, true), Message(11, [1], 1, 1, false);
            && a.Valid() && b.Valid() && b.Sends(first) && a.Sends(late)
            && Handle(Run([first]), late).1 == Answer(NoError, [2, 1])
  {
    var first, late := Message(20, [2], 1, 0, true), Message(11, [1], 1, 1, false);
    assert [first][..0] == [];
    assert Run([first]) == Some(Transfer([2], 20));
    assert [2] + [1] == [2, 1];
  }
}
