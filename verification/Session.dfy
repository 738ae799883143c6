/** The client's server sessions: CoAP transactions with retransmission, registration, bootstrap
    and the top-level step. Each operation is a function on the whole client state.

    A transaction carries a `uid`, which stands for the address of its heap block, and every transmission and
    every callback is recorded in `log`; the code has neither, they are how its properties are stated. */
module Session {
  import opened Bytes

  const RESPONSE_TIMEOUT := 2
  const MAX_RETRANSMIT := 4
  const MAX_TRANSMIT_WAIT := 93
  const EXCHANGE_LIFETIME := 247

  const COAP_NO_ERROR := 0x00
  const COAP_IGNORE := 0x01
  const COAP_201_CREATED := 0x41
  const COAP_202_DELETED := 0x42
  const COAP_204_CHANGED := 0x44
  const COAP_400_BAD_REQUEST := 0x80
  const COAP_401_UNAUTHORIZED := 0x81
  const COAP_404_NOT_FOUND := 0x84
  const COAP_406_NOT_ACCEPTABLE := 0x86
  const COAP_500_INTERNAL_SERVER_ERROR := 0xA0
  const COAP_503_SERVICE_UNAVAILABLE := 0xA3

  datatype Status =
    | Deregistered | RegPending | Registered | RegFailed
    | RegUpdatePending | RegUpdateNeeded | RegFullUpdateNeeded | DeregPending
    | BsHoldOff | BsInitiated | BsPending | BsFinishing | BsFinished | BsFailing | BsFailed

  datatype ClientState =
    | Initial | BootstrapRequired | Bootstrapping | RegisterRequired | Registering | Ready

  /** `session` is the connection handle, 0 for NULL; `located` says that a location path is stored. */
  datatype Server = Server(id: nat, shortId: nat, lifetime: nat, registration: int, status: Status,
                           session: nat, located: bool, dirty: bool)

  /** Which reply handler a transaction calls back. */
  datatype Reply = RegisterReply | UpdateReply | DeregisterReply | BootstrapReply

  datatype Transaction = Transaction(uid: nat, mid: u16, peer: nat, token: seq<byte>, ack: bool,
                                     counter: nat, time: int, buffered: bool, reply: Reply, target: nat)

  datatype PacketType = Con | Non | Ack | Rst
  datatype Packet = Packet(kind: PacketType, code: int, mid: u16, token: seq<byte>)

  datatype Output = Transmitted(uid: nat) | CalledBack(uid: nat)

  datatype Client = Client(state: ClientState, bootstrap: seq<Server>, servers: seq<Server>,
                           transactions: seq<Transaction>, nextMid: u16, born: nat, log: seq<Output>)

  /** What one call finds outside the library: the clock, the result of opening a connection to a server,
      which messages can be serialized, whether the payload and query can be printed, the servers that the
      Security object describes, and what the observation scheduler does. */
  datatype Env = Env(clock: int, connect: nat -> nat, encodable: u16 -> bool, printable: bool,
                     discovered: seq<(bool, Server)>, discoverOk: bool, notified: nat, observeWait: int)

  // ----- reply handlers

  /** The reply handler a status waits for. */
  function AwaitedReply(status: Status): (r: Option<Reply>)
  {
    match status
    case RegPending => Some(RegisterReply)
    case RegUpdatePending => Some(UpdateReply)
    case DeregPending => Some(DeregisterReply)
    case BsInitiated => Some(BootstrapReply)
    case _ => None
  }

  /** A server after one of the four reply handlers ran on it; no packet means a timeout. */
  function Answered(s: Server, reply: Reply, packet: Option<Packet>, clock: int): (s': Server)
  {
    var at := if clock >= 0 then clock else s.registration;
    match reply
    case RegisterReply =>
      if !s.status.RegPending? then s
      else if packet.Some? && packet.value.code == COAP_201_CREATED
      then s.(status := Registered, registration := at, located := true)
      else s.(status := RegFailed, registration := at)
    case UpdateReply =>
      if !s.status.RegUpdatePending? then s
      else if packet.Some? && packet.value.code == COAP_204_CHANGED
      then s.(status := Registered, registration := at)
      else s.(status := RegFailed, registration := at)
    case DeregisterReply =>
      if !s.status.DeregPending? then s else s.(status := Deregistered)
    case BootstrapReply =>
      if !s.status.BsInitiated? then s
      else if packet.Some? && !packet.value.kind.Rst? && packet.value.code == COAP_204_CHANGED
      then s.(status := BsPending, registration := clock + EXCHANGE_LIFETIME)
      else s.(status := BsFailing)
  }

  function Notify(ss: seq<Server>, t: Transaction, packet: Option<Packet>, clock: int): (r: seq<Server>)
    ensures |r| == |ss|
  {
    seq(|ss|, i requires 0 <= i < |ss| =>
      if ss[i].id == t.target then Answered(ss[i], t.reply, packet, clock) else ss[i])
  }

  // ----- the transaction list

  /** Insertion by message id, as xiny_lwm2m_list_add does it. */
  function Insert(ts: seq<Transaction>, t: Transaction): (r: seq<Transaction>)
  {
    if ts == [] then [t]
    else if ts[0].mid > t.mid then [t] + ts
    else [ts[0]] + Insert(ts[1..], t)
  }

  function Drop(ts: seq<Transaction>, uid: nat): (r: seq<Transaction>)
  {
    if ts == [] then []
    else if ts[0].uid == uid then Drop(ts[1..], uid)
    else [ts[0]] + Drop(ts[1..], uid)
  }

  function Replace(ts: seq<Transaction>, t: Transaction): (r: seq<Transaction>)
    ensures |r| == |ts|
  {
    seq(|ts|, i requires 0 <= i < |ts| => if ts[i].uid == t.uid then t else ts[i])
  }

  // ----- transaction.c

  /** The end of a transaction: its callback, then its removal. */
  function Finish(c: Client, t: Transaction, packet: Option<Packet>, clock: int): (c': Client)
  {
    c.(servers := Notify(c.servers, t, packet, clock),
       bootstrap := Notify(c.bootstrap, t, packet, clock),
       log := c.log + [CalledBack(t.uid)],
       transactions := Drop(c.transactions, t.uid))
  }

  function Pow2(n: nat): (p: nat)
    ensures p >= 1
  {
    if n == 0 then 1 else 2 * Pow2(n - 1)
  }

  predicate Exhausted(t: Transaction)
  {
    t.counter > MAX_RETRANSMIT + 1
  }

  /** A transaction after one more transmission, and its next deadline. */
  function Resent(t: Transaction, clock: int): (t': Transaction)
  {
    if t.counter == 0 then t.(buffered := true, time := clock + RESPONSE_TIMEOUT, counter := 2)
    else t.(buffered := true, time := t.time + RESPONSE_TIMEOUT * Pow2(t.counter - 1), counter := t.counter + 1)
  }

  function Transmit(c: Client, t: Transaction): (c': Client)
  {
    c.(log := c.log + [Transmitted(t.uid)])
  }

  /** xiny_transaction_send; the flag is its zero return. */
  function Send(c: Client, t: Transaction, env: Env): (r: (Client, bool))
  {
    if !t.buffered && !env.encodable(t.mid) then (c.(transactions := Drop(c.transactions, t.uid)), false)
    else if t.ack || Exhausted(t) then (Finish(c, t, None, env.clock), false)
    else if t.counter == 0 && env.clock < 0 then (Finish(Transmit(c, t), t, None, env.clock), false)
    else (Transmit(c, t).(transactions := Replace(c.transactions, Resent(t, env.clock))), true)
  }

  predicate Acknowledges(p: Packet, from: nat, t: Transaction)
  {
    t.peer == from && !t.ack && (p.kind.Ack? || p.kind.Rst?) && t.mid == p.mid
  }

  /** prv_checkFinished, after the acknowledgement was recorded. */
  predicate Finishes(p: Packet, from: nat, t: Transaction)
  {
    t.peer == from && if t.token == [] then t.ack || Acknowledges(p, from, t) else p.token == t.token
  }

  predicate Concerns(p: Packet, from: nat, t: Transaction)
  {
    Acknowledges(p, from, t) || Finishes(p, from, t)
  }

  /** The first transaction a message concerns, or the length of the list. */
  function FirstConcerned(ts: seq<Transaction>, p: Packet, from: nat): (i: nat)
    ensures i <= |ts|
    ensures i < |ts| ==> Concerns(p, from, ts[i])
    ensures forall k :: 0 <= k < i ==> !Concerns(p, from, ts[k])
  {
    if ts == [] || Concerns(p, from, ts[0]) then 0 else 1 + FirstConcerned(ts[1..], p, from)
  }

  /** What a message leaves of a transaction it concerns: None when it ends it. A 4.01 answer while retries are left
      asks for another transmission; a bare acknowledgement waits for the separate response. */
  function Kept(t: Transaction, p: Packet, from: nat, clock: int): (t': Option<Transaction>)
    requires Concerns(p, from, t)
    ensures t'.Some? ==> exists ack, time :: t'.value == t.(ack := ack, time := time)
  {
    var reset := Acknowledges(p, from, t) && p.kind.Rst?;
    if !reset && Finishes(p, from, t) && p.code == COAP_401_UNAUTHORIZED && MAX_RETRANSMIT > t.counter then
      Some(t.(ack := false, time := t.time + RESPONSE_TIMEOUT))
    else if reset || Finishes(p, from, t) then None
    else Some(t.(ack := true, time := (if clock >= 0 then clock else t.time) + RESPONSE_TIMEOUT * t.counter))
  }

  function Handle(c: Client, t: Transaction, p: Packet, from: nat, clock: int): (c': Client)
    requires Concerns(p, from, t)
  {
    match Kept(t, p, from, clock)
    case Some(t') => c.(transactions := Replace(c.transactions, t'))
    case None => Finish(c, t, Some(p), clock)
  }

  /** xiny_transaction_handleResponse. */
  function HandleResponse(c: Client, p: Packet, from: nat, clock: int): (c': Client)
  {
    var i := FirstConcerned(c.transactions, p, from);
    if i < |c.transactions| then Handle(c, c.transactions[i], p, from, clock) else c
  }

  function Min(a: int, b: int): int { if a < b then a else b }

  function Interval(deadline: int, now: int): int { if deadline > now then deadline - now else 1 }

  /** xiny_transaction_step over the nodes `todo` that the list held when the step reached them. */
  function TransactionStep(c: Client, todo: seq<Transaction>, env: Env, wait: int): (r: (Client, int))
    decreases |todo|
  {
    if todo == [] then (c, wait)
    else
      var t := todo[0];
      if t.time > env.clock then TransactionStep(c, todo[1..], env, Min(wait, Interval(t.time, env.clock)))
      else
        var (c1, sent) := Send(c, t, env);
        var wait1 := if sent then Min(wait, Interval(Resent(t, env.clock).time, env.clock)) else 1;
        TransactionStep(c1, todo[1..], env, wait1)
  }

  // ----- creating requests

  datatype Creation = NotCreated | NotSent | Sent

  function Token(mid: u16, clock: int): (b: seq<byte>)
  {
    [mid % 0x100, mid / 0x100, clock % 0x100, clock / 0x100 % 0x100]
  }

  /** xiny_transaction_new, the list insertion and the first send. The id is used up even without a peer. */
  function Create(c: Client, peer: nat, reply: Reply, target: nat, env: Env): (r: (Client, Creation))
  {
    var c1 := c.(nextMid := (c.nextMid + 1) % 0x1_0000);
    if peer == 0 then (c1, NotCreated)
    else
      var t := Transaction(c.born, c.nextMid, peer, Token(c.nextMid, env.clock), false, 0, 0, false, reply, target);
      var (c2, sent) := Send(c1.(transactions := Insert(c.transactions, t), born := c.born + 1), t, env);
      (c2, if sent then Sent else NotSent)
  }

  function SetServer(c: Client, i: nat, s: Server): (c': Client)
    requires i < |c.servers|
  {
    c.(servers := c.servers[i := s])
  }

  function SetBootstrap(c: Client, i: nat, s: Server): (c': Client)
    requires i < |c.bootstrap|
  {
    c.(bootstrap := c.bootstrap[i := s])
  }

  /** prv_register for the i-th server. */
  function Register(c: Client, i: nat, env: Env): (r: (Client, int))
    requires i < |c.servers|
    ensures |r.0.servers| == |c.servers|
  {
    if !env.printable then (c, COAP_500_INTERNAL_SERVER_ERROR)
    else
      var s := c.servers[i];
      var s1 := if s.session == 0 then s.(session := env.connect(s.id)) else s;
      var c1 := SetServer(c, i, s1);
      if s1.session == 0 then (c1, COAP_503_SERVICE_UNAVAILABLE)
      else
        var (c2, created) := Create(c1, s1.session, RegisterReply, s.id, env);
        if !created.Sent? then (c2, COAP_503_SERVICE_UNAVAILABLE)
        else (SetServer(c2, i, c2.servers[i].(status := RegPending)), COAP_NO_ERROR)
  }

  /** prv_updateRegistration for the i-th server. */
  function Update(c: Client, i: nat, withObjects: bool, env: Env): (c': Client)
    requires i < |c.servers|
    ensures |c'.servers| == |c.servers|
  {
    var s := c.servers[i];
    if s.session == 0 || (withObjects && !env.printable) then c.(nextMid := (c.nextMid + 1) % 0x1_0000)
    else
      var (c1, created) := Create(c, s.session, UpdateReply, s.id, env);
      if created.Sent? then SetServer(c1, i, c1.servers[i].(status := RegUpdatePending)) else c1
  }

  /** xiny_registration_deregister_lwm2m for the i-th server. */
  function Deregister(c: Client, i: nat, env: Env): (c': Client)
    requires i < |c.servers|
    ensures |c'.servers| == |c.servers|
  {
    var s := c.servers[i];
    if s.status in {Deregistered, RegPending, DeregPending, RegFailed} || !s.located then c
    else
      var (c1, created) := Create(c, s.session, DeregisterReply, s.id, env);
      if created.Sent? then SetServer(c1, i, c1.servers[i].(status := DeregPending)) else c1
  }

  /** prv_xiny_requestBootstrap for the i-th bootstrap server. */
  function RequestBootstrap(c: Client, i: nat, env: Env): (c': Client)
    requires i < |c.bootstrap|
    ensures |c'.bootstrap| == |c.bootstrap|
  {
    var s := c.bootstrap[i];
    if !env.printable then SetBootstrap(c, i, s.(status := BsFailing))
    else
      var s1 := if s.session == 0 then s.(session := env.connect(s.id)) else s;
      if s1.session == 0 then SetBootstrap(c, i, s1.(status := BsFailed))
      else
        var (c1, created) := Create(SetBootstrap(c, i, s1), s1.session, BootstrapReply, s.id, env);
        if created.Sent? then SetBootstrap(c1, i, c1.bootstrap[i].(status := BsInitiated)) else c1
  }

  // ----- registration.c

  /** xiny_registration_start_lwm2m from the i-th server on. */
  function RegistrationStart(c: Client, i: nat, env: Env): (r: (Client, int))
    requires i <= |c.servers|
    decreases |c.servers| - i
  {
    if i == |c.servers| then (c, COAP_NO_ERROR)
    else if c.servers[i].status in {Deregistered, RegFailed} then
      var (c1, result) := Register(c, i, env);
      if result != COAP_NO_ERROR then (c1, result) else RegistrationStart(c1, i + 1, env)
    else RegistrationStart(c, i + 1, env)
  }

  /** xiny_registration_getStatus_lwm2m: RegFailed, Registered or RegPending. */
  function RegistrationStatus(ss: seq<Server>): (status: Status)
    ensures status in {RegFailed, Registered, RegPending}
  {
    if exists i :: 0 <= i < |ss| && ss[i].status.RegPending? then RegPending
    else if exists i :: 0 <= i < |ss| && IsRegistered(ss[i].status) then Registered
    else RegFailed
  }

  predicate IsRegistered(status: Status)
  {
    status in {Registered, RegUpdateNeeded, RegFullUpdateNeeded, RegUpdatePending}
  }

  function NextUpdate(s: Server): (time: int)
  {
    s.registration + if MAX_TRANSMIT_WAIT < s.lifetime then s.lifetime - MAX_TRANSMIT_WAIT else s.lifetime / 2
  }

  /** xiny_registration_step_lwm2m from the i-th server on. */
  function RegistrationStep(c: Client, i: nat, env: Env, wait: int): (r: (Client, int))
    requires i <= |c.servers|
    decreases |c.servers| - i
  {
    if i == |c.servers| then (c, wait)
    else
      var s := c.servers[i];
      var interval := NextUpdate(s) - env.clock;
      match s.status
      case Registered =>
        if interval <= 0 then RegistrationStep(Update(c, i, false, env), i + 1, env, wait)
        else RegistrationStep(c, i + 1, env, Min(interval, wait))
      case RegUpdateNeeded => RegistrationStep(Update(c, i, false, env), i + 1, env, wait)
      case RegFullUpdateNeeded => RegistrationStep(Update(c, i, true, env), i + 1, env, wait)
      case RegFailed => RegistrationStep(SetServer(c, i, s.(session := 0)), i + 1, env, wait)
      case _ => RegistrationStep(c, i + 1, env, wait)
  }

  /** The status xiny_lwm2m_update_xiny_registration gives a server it selects. */
  function Marked(status: Status, withObjects: bool): (s: Status)
  {
    if status in {Registered, RegUpdatePending} then if withObjects then RegFullUpdateNeeded else RegUpdateNeeded
    else status
  }

  /** xiny_lwm2m_update_xiny_registration; with a short id only the first server that has it. */
  function UpdateRegistration(ss: seq<Server>, shortId: nat, withObjects: bool): (r: (seq<Server>, int))
    ensures |r.0| == |ss|
  {
    if ss == [] then ([], if shortId != 0 then COAP_404_NOT_FOUND else COAP_NO_ERROR)
    else
      var s := ss[0];
      if shortId == 0 then
        var (rest, code) := UpdateRegistration(ss[1..], shortId, withObjects);
        ([s.(status := Marked(s.status, withObjects))] + rest, code)
      else if s.shortId == shortId then
        if s.status in {RegUpdateNeeded, RegFullUpdateNeeded} then
          ([if withObjects then s.(status := RegFullUpdateNeeded) else s] + ss[1..], COAP_NO_ERROR)
        else if s.status in {Registered, RegUpdatePending} then
          ([s.(status := Marked(s.status, withObjects))] + ss[1..], COAP_NO_ERROR)
        else (ss, COAP_400_BAD_REQUEST)
      else
        var (rest, code) := UpdateRegistration(ss[1..], shortId, withObjects);
        ([s] + rest, code)
  }

  // ----- bootstrap.c

  /** xiny_bootstrap_step from the i-th bootstrap server on. */
  function BootstrapStep(c: Client, i: nat, env: Env, wait: int): (r: (Client, int))
    requires i <= |c.bootstrap|
    decreases |c.bootstrap| - i
  {
    if i == |c.bootstrap| then (c, wait)
    else
      var s := c.bootstrap[i];
      match s.status
      case Deregistered =>
        var s1 := s.(registration := env.clock + s.lifetime, status := BsHoldOff);
        BootstrapStep(SetBootstrap(c, i, s1), i + 1, env, Min(s.lifetime, wait))
      case BsHoldOff =>
        if s.registration <= env.clock then BootstrapStep(RequestBootstrap(c, i, env), i + 1, env, wait)
        else BootstrapStep(c, i + 1, env, Min(s.registration - env.clock, wait))
      case BsPending =>
        if s.registration <= env.clock then
          BootstrapStep(SetBootstrap(c, i, s.(status := BsFailing)), i + 1, env, 0)
        else BootstrapStep(c, i + 1, env, Min(s.registration - env.clock, wait))
      case BsFinishing => BootstrapStep(SetBootstrap(c, i, s.(session := 0, status := BsFinished)), i + 1, env, 0)
      case BsFailing => BootstrapStep(SetBootstrap(c, i, s.(session := 0, status := BsFailed)), i + 1, env, 0)
      case _ => BootstrapStep(c, i + 1, env, wait)
  }

  predicate InProgress(status: Status)
  {
    status in {BsHoldOff, BsInitiated, BsPending, BsFinishing, BsFailing}
  }

  /** xiny_bootstrap_getStatus: BsFailed, BsFinished or BsPending. */
  function BootstrapStatus(ss: seq<Server>): (status: Status)
    ensures status in {BsFailed, BsFinished, BsPending}
  {
    if exists i :: 0 <= i < |ss| && InProgress(ss[i].status) then BsPending
    else if exists i :: 0 <= i < |ss| && ss[i].status.BsFinished? then BsFinished
    else BsFailed
  }

  /** xiny_bootstrap_start. */
  function BootstrapStart(c: Client, env: Env): (c': Client)
  {
    c.(bootstrap := seq(|c.bootstrap|, i requires 0 <= i < |c.bootstrap| =>
         var s := c.bootstrap[i];
         s.(status := Deregistered, session := if s.session == 0 then env.connect(s.id) else s.session)))
  }

  /** prv_checkServerStatus. */
  function CheckServerStatus(s: Server, clock: int): (r: (Server, int))
  {
    match s.status
    case BsHoldOff => (s.(status := BsPending), COAP_NO_ERROR)
    case BsInitiated => (s.(status := BsPending), COAP_NO_ERROR)
    case Deregistered => (s.(registration := clock + EXCHANGE_LIFETIME), COAP_NO_ERROR)
    case BsPending => (s.(registration := clock + EXCHANGE_LIFETIME), COAP_NO_ERROR)
    case _ => (s, COAP_IGNORE)
  }

  function Tag(ss: seq<Server>, ids: set<nat>): (r: seq<Server>)
    ensures |r| == |ss|
  {
    seq(|ss|, i requires 0 <= i < |ss| => if ss[i].id in ids then ss[i].(dirty := true) else ss[i])
  }

  /** The effect of xiny_bootstrap_handleCommand on sessions, given the object operation's result
      and the servers whose Security instance it changed. */
  function BootstrapCommand(c: Client, i: nat, result: int, tagged: set<nat>, clock: int): (c': Client)
    requires i < |c.bootstrap|
  {
    var (s, code) := CheckServerStatus(c.bootstrap[i], clock);
    if code != COAP_NO_ERROR then c
    else
      var accepted := result == COAP_202_DELETED || result == COAP_204_CHANGED;
      var s1 := if accepted then s.(status := BsPending) else s;
      var c1 := c.(bootstrap := Tag(c.bootstrap[i := s1], tagged), servers := Tag(c.servers, tagged));
      if accepted && !s.status.BsPending? then c1.(state := Bootstrapping) else c1
  }

  /** The effect of xiny_bootstrap_handleDeleteAll on sessions. */
  function BootstrapDeleteAll(c: Client, i: nat, tagged: set<nat>, clock: int): (c': Client)
    requires i < |c.bootstrap|
  {
    var (s, code) := CheckServerStatus(c.bootstrap[i], clock);
    if code != COAP_NO_ERROR then c
    else c.(bootstrap := Tag(c.bootstrap[i := s], tagged), servers := Tag(c.servers, tagged))
  }

  /** xiny_bootstrap_handleFinish; `acceptable` is the check of the Security and Server objects. */
  function BootstrapFinish(c: Client, i: nat, acceptable: bool): (r: (Client, int))
    requires i < |c.bootstrap|
  {
    if !c.bootstrap[i].status.BsPending? then (c, COAP_IGNORE)
    else if !acceptable then (c, COAP_406_NOT_ACCEPTABLE)
    else (SetBootstrap(c, i, c.bootstrap[i].(status := BsFinishing)), COAP_204_CHANGED)
  }

  // ----- liblwm2m.c

  function InsertServer(ss: seq<Server>, s: Server): (r: seq<Server>)
  {
    if ss == [] then [s]
    else if ss[0].id > s.id then [s] + ss
    else [ss[0]] + InsertServer(ss[1..], s)
  }

  /** A list without its dirty servers, rebuilt from the front. */
  function Clean(ss: seq<Server>, reset: bool): (r: seq<Server>)
  {
    if ss == [] then []
    else
      var before, s := Clean(ss[..|ss| - 1], reset), ss[|ss| - 1];
      if s.dirty then before else InsertServer(before, if reset then s.(status := Deregistered) else s)
  }

  /** The servers that xiny_object_getServers_lwm2m finds and that are not known yet. */
  function Discover(c: Client, found: seq<(bool, Server)>): (c': Client)
    decreases |found|
  {
    if found == [] then c
    else
      var (isBootstrap, s0) := found[0];
      var s := s0.(status := Deregistered, session := 0, located := false, dirty := false);
      var known := (exists k :: 0 <= k < |c.bootstrap| && c.bootstrap[k].id == s.id)
                   || (exists k :: 0 <= k < |c.servers| && c.servers[k].id == s.id);
      if known then Discover(c, found[1..])
      else if isBootstrap then Discover(c.(bootstrap := InsertServer(c.bootstrap, s)), found[1..])
      else Discover(c.(servers := InsertServer(c.servers, s)), found[1..])
  }

  /** prv_refreshServerList. */
  function RefreshServerList(c: Client, env: Env): (c': Client)
  {
    Discover(c.(bootstrap := Clean(c.bootstrap, true), servers := Clean(c.servers, false)), env.discovered)
  }

  /** How many `goto next_step` a state can still cause. */
  function JumpsLeft(state: ClientState): (n: nat)
    ensures n <= 2
  {
    match state
    case Bootstrapping => 2
    case Initial => 1
    case Registering => 1
    case Ready => 1
    case _ => 0
  }

  datatype Settled = Settled(client: Client, code: int, wait: int, jumps: nat)

  /** The switch of xiny_lwm2m_step with its jumps; a non-zero code is an early return. */
  function Settle(c: Client, env: Env, wait: int): (r: Settled)
    ensures r.jumps <= JumpsLeft(c.state)
    decreases JumpsLeft(c.state)
  {
    match c.state
    case Initial =>
      var c1 := RefreshServerList(c, env);
      if !env.discoverOk then Settled(c1, COAP_503_SERVICE_UNAVAILABLE, wait, 0)
      else Jump(Settle(c1.(state := if c1.servers != [] then RegisterRequired else BootstrapRequired), env, wait))
    case BootstrapRequired =>
      if c.bootstrap == [] then Settled(c, COAP_503_SERVICE_UNAVAILABLE, wait, 0)
      else
        var (c1, wait1) := BootstrapStep(BootstrapStart(c, env).(state := Bootstrapping), 0, env, wait);
        Settled(c1, 0, wait1, 0)
    case Bootstrapping =>
      var status := BootstrapStatus(c.bootstrap);
      if status.BsFinished? then Jump(Settle(c.(state := Initial), env, wait))
      else if status.BsFailed? then Settled(c, COAP_503_SERVICE_UNAVAILABLE, wait, 0)
      else
        var (c1, wait1) := BootstrapStep(c, 0, env, wait);
        Settled(c1, 0, wait1, 0)
    case RegisterRequired =>
      var (c1, result) := RegistrationStart(c, 0, env);
      if result != COAP_NO_ERROR then Settled(c1, result, wait, 0)
      else Settled(c1.(state := Registering), 0, wait, 0)
    case Registering =>
      var status := RegistrationStatus(c.servers);
      if status.Registered? then Settled(c.(state := Ready), 0, wait, 0)
      else if status.RegFailed? then Jump(Settle(c.(state := BootstrapRequired), env, wait))
      else Settled(c, 0, wait, 0)
    case Ready =>
      if RegistrationStatus(c.servers).RegFailed? then Jump(Settle(c.(state := BootstrapRequired), env, wait))
      else Settled(c, 0, wait, 0)
  }

  function Jump(r: Settled): (r': Settled)
  {
    r.(jumps := r.jumps + 1)
  }

  /** xiny_observe_step, as far as sessions see it: it uses up message ids and shortens the wait. */
  function Observe(c: Client, env: Env): (c': Client)
  {
    c.(nextMid := (c.nextMid + env.notified) % 0x1_0000)
  }

  /** xiny_lwm2m_step: the new client, the returned code and the requested wait. */
  function Step(c: Client, env: Env, wait: int): (r: (Client, int, int))
  {
    if env.clock < 0 then (c, COAP_500_INTERNAL_SERVER_ERROR, wait)
    else
      var r := Settle(c, env, wait);
      if r.code != 0 then (r.client, r.code, r.wait)
      else
        var (c2, wait2) := RegistrationStep(Observe(r.client, env), 0, env, Min(r.wait, env.observeWait));
        var (c3, wait3) := TransactionStep(c2, c2.transactions, env, wait2);
        (c3, 0, wait3)
  }

  // ----- runs

  datatype Event =
    | Tick(env: Env, wait: int)
    | Receive(packet: Packet, from: nat, at: int)
    | AskUpdate(shortId: nat, withObjects: bool, env: Env)
    | AskDeregister(i: nat, env: Env)
    | Command(i: nat, result: int, tagged: set<nat>, at: int)
    | DeleteAll(i: nat, tagged: set<nat>, at: int)
    | FinishCommand(i: nat, acceptable: bool)

  function Next(c: Client, e: Event): (c': Client)
  {
    match e
    case Tick(env, wait) => Step(c, env, wait).0
    case Receive(packet, from, at) => HandleResponse(c, packet, from, at)
    case AskUpdate(shortId, withObjects, env) =>
      if c.servers == [] then Discover(c, env.discovered)
      else c.(servers := UpdateRegistration(c.servers, shortId, withObjects).0)
    case AskDeregister(i, env) => if i < |c.servers| then Deregister(c, i, env) else c
    case Command(i, result, tagged, at) => if i < |c.bootstrap| then BootstrapCommand(c, i, result, tagged, at) else c
    case DeleteAll(i, tagged, at) => if i < |c.bootstrap| then BootstrapDeleteAll(c, i, tagged, at) else c
    case FinishCommand(i, acceptable) => if i < |c.bootstrap| then BootstrapFinish(c, i, acceptable).0 else c
  }

  function Run(c: Client, es: seq<Event>): (c': Client)
  {
    if es == [] then c else Next(Run(c, es[..|es| - 1]), es[|es| - 1])
  }

  /** xiny_lwm2m_init: a zeroed context and an arbitrary first message id. */
  function Fresh(mid: u16): (c: Client)
  {
    Client(Initial, [], [], [], mid, 0, [])
  }
}
