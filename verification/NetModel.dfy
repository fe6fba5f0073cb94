/** The socket table as a value, and what every operation of socket.c makes of it. The kernel is an explicit
    argument: each operation is told the answers its system calls get. */
module NetModel {
  import opened Bytes
  import opened Interest

  const INT_MAX := 0x7fff_ffff
  const RBUFFER_SZ := 64
  const RECVMSG_MAXSIZE := 64
  const STDERR_FILENO := 2

  const LS_PROTOCOL_TCP := 0
  const LS_PROTOCOL_UDP := 1
  const LS_PROTOCOL_IPC := 2

  const LS_ERR_EOF := -1
  const LS_ERR_NOSOCK := -3
  const LS_ERR_CREATESOCK := -4
  const LS_ERR_WBUFOVER := -5
  const LS_CONNECTING := -9
  const LS_ERR_STATUS := -12

  datatype Status = Invalid | Listening | Connecting | Connected | HalfClose | Suspend | Bound

  /** One byte on the wire, with the descriptor that travels with it, if any. */
  datatype Item = Item(b: byte, fd: Option<int>)

  /** The part of a queued message that is still to be written, and the descriptor still to be passed (-1: none). */
  datatype Block = Block(data: seq<byte>, fd: int)

  /** The items a message puts on the wire: its descriptor goes with its first byte only. */
  function Tag(data: seq<byte>, fd: int): (items: seq<Item>)
    ensures |items| == |data|
  {
    seq(|data|, i requires 0 <= i < |data| => Item(data[i], if i == 0 && fd >= 0 then Some(fd) else None))
  }

  function Items(queue: seq<Block>): seq<Item> {
    if queue == [] then [] else Tag(queue[0].data, queue[0].fd) + Items(queue[1..])
  }

  /** What `sbuffersz` counts. */
  function Total(queue: seq<Block>): nat {
    if queue == [] then 0 else |queue[0].data| + Total(queue[1..])
  }

  // ---------- kernel answers ----------

  /** Any error number other than EAGAIN and EINTR. */
  type Errno = e: int | 0 < e witness 1

  /** The answer to one write: room for `n` bytes (never more than were offered are taken), or an error. */
  datatype WriteAnswer = Wrote(n: nat) | Again | Intr | Fail(e: Errno)

  /** The answer to one poller call: `e` is the error number when it does not succeed. */
  datatype NpAnswer = NpAnswer(ok: bool, e: Errno)

  datatype AcceptAnswer = NoConnection | Connection(fd: nat, nonblocking: bool)

  /** The answer to one read: bytes at hand (none at all: end of file), with a passed descriptor and the
      message flaw `recvmsg` reports (0: none) on an IPC socket, or an error. */
  datatype ReadAnswer = Got(data: seq<byte>, fd: Option<int>, flaw: int) | ReadAgain | ReadIntr | ReadFail(e: Errno)

  // ---------- state ----------

  /** One slot. The last four fields are history: what reached the kernel and what was submitted on this
      connection, whether `socket_limit` was called on it, and the largest single read. */
  datatype Slot = Slot(
    status: Status, fd: int, protocol: int, mask: Mask, udata: int, queue: seq<Block>,
    rbuffersz: int, slimit: int, rlimit: int,
    wire: seq<Item>, sent: seq<Item>, limited: bool, maxread: nat)

  datatype Why = Asked | SendFailed | Drained | ReadEnded | ConnectFailed | SetupFailed

  /** What a connection had achieved when its slot was released. */
  datatype Closed = Closed(id: nat, why: Why, wire: seq<Item>, sent: seq<Item>)

  /** `free` is the free list from its head; `born` and `freed` are the slots handed out and put on the
      list since the beginning, in order; `np` is the poller's interest map. */
  datatype Net = Net(slots: seq<Slot>, free: seq<nat>, np: map<int, Reg>, err: int,
                     born: seq<nat>, freed: seq<nat>, log: seq<Closed>)

  predicate Live(st: Net, id: int) {
    0 <= id < |st.slots| && st.slots[id].status != Invalid
  }

  function Put(st: Net, id: nat, s: Slot): Net
    requires id < |st.slots|
  {
    st.(slots := st.slots[id := s])
  }

  function FreshSlot(): Slot {
    Slot(Invalid, -1, 0, NONE, -1, [], 0, 0, 0, [], [], false, 0)
  }

  function Ids(max: nat): seq<nat> {
    seq(max, i => i)
  }

  /** `net_create`, for a table of `max` slots. */
  function Init(max: nat): Net {
    Net(seq(max, _ => FreshSlot()), Ids(max), map[], 0, [], Ids(max), [])
  }

  // ---------- slots ----------

  function Protocol(protocol: int): int {
    if protocol < LS_PROTOCOL_TCP || protocol > LS_PROTOCOL_IPC then LS_PROTOCOL_TCP else protocol
  }

  function SendLimit(slimit: int): int {
    if slimit <= 0 then INT_MAX else slimit
  }

  /** `_create_socket`: the head of the free list, with everything reset except `rlimit`. */
  function Create(st: Net, fd: nat, slimit: int, udata: int, protocol: int): (r: (Net, Option<nat>))
    requires FreeInRange(st)
    ensures r.1.Some? ==> r.1.value < |r.0.slots|
  {
    if st.free == [] then (st, None)
    else
      var id := st.free[0];
      var s := st.slots[id].(fd := fd, protocol := Protocol(protocol), status := Suspend, mask := NONE, udata := udata,
                             queue := [], rbuffersz := RBUFFER_SZ, slimit := SendLimit(slimit),
                             wire := [], sent := [], limited := false, maxread := 0);
      (Put(st, id, s).(free := st.free[1..], born := st.born + [id]), Some(id))
  }

  /** `_close_socket`: the slot goes to the tail of the free list; the kernel forgets its interest with the
      descriptor, which is closed unless it is a standard stream. */
  function Close(st: Net, id: nat, why: Why): Net
    requires Live(st, id)
  {
    var s := st.slots[id];
    st.(slots := st.slots[id := s.(fd := -1, status := Invalid, udata := 0, queue := [])],
        free := st.free + [id], freed := st.freed + [id],
        np := if s.fd > STDERR_FILENO then st.np - {s.fd} else st.np,
        log := st.log + [Closed(id, why, s.wire, s.sent)])
  }

  /** `_subscribe`: an entry is added only where there is none and changed or deleted only where there is one. */
  function Subscribe(st: Net, id: nat, mask: Mask, ok: bool): (Net, int)
    requires id < |st.slots|
  {
    var s := st.slots[id];
    if mask == s.mask then (st, 0)
    else if !ok || (s.fd in st.np) == (s.mask == NONE && mask != NONE) then (st, -1)
    else
      (Put(st, id, s.(mask := mask)).(np := if mask == NONE then st.np - {s.fd} else st.np[s.fd := Reg(mask, id)]), 0)
  }

  // ---------- small operations ----------

  /** `socket_close`. */
  function SocketClose(st: Net, id: nat, force: bool): (Net, int)
    requires id < |st.slots|
  {
    if !Live(st, id) then (st.(err := LS_ERR_NOSOCK), 0)
    else if force || st.slots[id].queue == [] then (Close(st, id, Asked), 0)
    else (Put(st, id, st.slots[id].(status := HalfClose)), 1)
  }

  /** `socket_enableread`. */
  function EnableRead(st: Net, id: nat, read: bool, np: NpAnswer): (Net, int)
    requires id < |st.slots|
  {
    if !Live(st, id) then (st.(err := LS_ERR_NOSOCK), 1)
    else Subscribe(st, id, Mask(read, st.slots[id].mask.w), np.ok)
  }

  /** `socket_udata`. */
  function SetUdata(st: Net, id: nat, udata: int): (Net, int)
    requires id < |st.slots|
  {
    if !Live(st, id) then (st.(err := LS_ERR_NOSOCK), 1)
    else (Put(st, id, st.slots[id].(udata := udata)), 0)
  }

  /** `socket_limit`. */
  function SetLimit(st: Net, id: nat, slimit: int, rlimit: int): (Net, int)
    requires id < |st.slots|
  {
    if !Live(st, id) then (st.(err := LS_ERR_NOSOCK), 1)
    else
      var s := st.slots[id].(slimit := SendLimit(slimit), limited := true);
      (Put(st, id, if rlimit <= 0 then s.(rlimit := 0) else s.(rlimit := rlimit, rbuffersz := rlimit)), 0)
  }

  // ---------- setting connections up ----------

  predicate FreeInRange(st: Net) {
    forall k :: 0 <= k < |st.free| ==> st.free[k] < |st.slots|
  }

  /** `socket_bind`; `blocked` is the error that kept the descriptor from becoming non-blocking. */
  function Bind(st: Net, fd: nat, udata: int, protocol: int, blocked: Option<Errno>): (Net, int)
    requires FreeInRange(st)
  {
    var (st1, slot) := Create(st, fd, 0, udata, protocol);
    if slot.None? then (st1.(err := LS_ERR_CREATESOCK), -1)
    else if blocked.Some? then (Close(st1, slot.value, SetupFailed).(err := blocked.value), -1)
    else (Put(st1, slot.value, st1.slots[slot.value].(status := Bound)), slot.value as int)
  }

  /** `socket_listen`, from the listening descriptor on. */
  function Listen(st: Net, fd: nat, udata: int, np: NpAnswer): (Net, int)
    requires FreeInRange(st)
  {
    var (st1, slot) := Create(st.(err := 0), fd, 0, udata, LS_PROTOCOL_TCP);
    if slot.None? then (st1.(err := LS_ERR_CREATESOCK), -1)
    else
      var id := slot.value;
      var (st2, result) := Subscribe(st1, id, Mask(true, false), np.ok);
      if result != 0 then (Close(st2, id, SetupFailed).(err := np.e), -1)
      else (Put(st2, id, st2.slots[id].(status := Listening)), id as int)
  }

  /** `socket_connect`, from the connected or connecting descriptor on. */
  function Connect(st: Net, fd: nat, udata: int, connecting: bool, np: NpAnswer): (Net, int)
    requires FreeInRange(st)
  {
    var (st1, slot) := Create(st.(err := 0), fd, 0, udata, LS_PROTOCOL_TCP);
    if slot.None? then (st1.(err := LS_ERR_CREATESOCK), -1)
    else
      var id := slot.value;
      var st2 := Put(st1, id, st1.slots[id].(status := if connecting then Connecting else Connected));
      if !connecting then (st2, id as int)
      else
        var (st3, result) := Subscribe(st2, id, Mask(true, true), np.ok);
        if result != 0 then (Close(st3, id, SetupFailed).(err := np.e), -1)
        else (st3.(err := LS_CONNECTING), id as int)
  }

  // ---------- sending ----------

  /** How one message leaves `socket_send` or `socket_sendfd`: the slot afterwards, whether it is the first
      in its queue, the error that takes the errout path (0: none), and the return value. */
  datatype Outcome = Outcome(slot: Slot, first: bool, err: int, ret: int)

  /** The common part of `socket_send` and `socket_sendfd`. */
  function Transmit(s: Slot, data: seq<byte>, cfd: int, answer: WriteAnswer): Outcome
    requires data != []
  {
    var s1 := s.(sent := s.sent + Tag(data, cfd));
    if s.queue != [] then
      if Total(s.queue) + |data| > s.slimit then Outcome(s1, false, LS_ERR_WBUFOVER, -1)
      else Outcome(s1.(queue := s.queue + [Block(data, cfd)]), false, 0, 0)
    else if answer.Fail? then Outcome(s1, false, answer.e, -1)
    else
      var n := if answer.Wrote? then Min(answer.n, |data|) else 0;
      var s2 := s1.(wire := s.wire + Tag(data, cfd)[..n]);
      if n == |data| then Outcome(s2, false, 0, n)
      else if |data| - n > s.slimit then Outcome(s2, false, LS_ERR_WBUFOVER, -1)
      else
        Outcome(s2.(queue := [Block(data[n..], if n > 0 then -1 else cfd)]), true, 0, if answer.Wrote? then n else -1)
  }

  function Deliver(st: Net, id: nat, o: Outcome, np: NpAnswer): Net
    requires Live(st, id) && o.slot.status != Invalid
  {
    var st1 := Put(st, id, o.slot);
    if o.err != 0 then Close(st1, id, SendFailed).(err := o.err)
    else if o.first then Subscribe(st1, id, Mask(o.slot.mask.r, true), np.ok).0
    else st1
  }

  /** One message accepted for sending on a live slot. */
  function Dispatch(st: Net, id: nat, data: seq<byte>, cfd: int, answer: WriteAnswer, np: NpAnswer): Net
    requires Live(st, id) && data != []
  {
    Deliver(st, id, Transmit(st.slots[id], data, cfd, answer), np)
  }

  /** `socket_send`. */
  function Send(st: Net, id: nat, data: seq<byte>, answer: WriteAnswer, np: NpAnswer): (Net, int)
    requires id < |st.slots| && data != []
  {
    var s := st.slots[id];
    if !Live(st, id) then (st.(err := LS_ERR_NOSOCK), -1)
    else if s.protocol != LS_PROTOCOL_TCP || s.status == HalfClose then (st.(err := LS_ERR_STATUS), -1)
    else
      (Dispatch(st, id, data, -1, answer, np), Transmit(s, data, -1, answer).ret)
  }

  /** `socket_sendfd`; a half-closed slot is not refused here. */
  function SendFd(st: Net, id: nat, data: seq<byte>, cfd: int, answer: WriteAnswer, np: NpAnswer): (Net, int)
    requires id < |st.slots| && data != []
  {
    var s := st.slots[id];
    if !Live(st, id) then (st.(err := LS_ERR_NOSOCK), -1)
    else if s.protocol != LS_PROTOCOL_IPC then (st.(err := LS_ERR_STATUS), -1)
    else
      var o := Transmit(s, data, cfd, answer);
      (Dispatch(st, id, data, cfd, answer, np), if s.queue == [] && o.slot.queue == [] && o.err == 0 then 0 else o.ret)
  }

  /** The queue after a flush, what it put on the wire, and its error (0: none). */
  datatype Flushed = Flushed(queue: seq<Block>, wire: seq<Item>, err: int)

  /** `_send_buffer_tcp` and `_send_buffer_ipc` on a queue. A script that has run out stands for a kernel that
      answers EAGAIN. */
  function Flush(queue: seq<Block>, script: seq<WriteAnswer>): Flushed
    decreases |script|
  {
    if queue == [] || script == [] then Flushed(queue, [], 0)
    else
      var b := queue[0];
      match script[0]
      case Again => Flushed(queue, [], 0)
      case Intr => Flush(queue, script[1..])
      case Fail(e) => Flushed(queue, [], e)
      case Wrote(n) =>
        if n == 0 && b.data != [] then Flushed(queue, [], 0)
        else if n < |b.data| then Flushed([Block(b.data[n..], -1)] + queue[1..], Tag(b.data, b.fd)[..n], 0)
        else
          var rest := Flush(queue[1..], script[1..]);
          rest.(wire := Tag(b.data, b.fd) + rest.wire)
  }

  /** `_send_buffer`; a protocol other than TCP and IPC writes nothing. */
  function SendBuffer(st: Net, id: nat, script: seq<WriteAnswer>, np: NpAnswer): (Net, int)
    requires Live(st, id)
  {
    var s := st.slots[id];
    if s.queue == [] then (st, 0)
    else if s.protocol != LS_PROTOCOL_TCP && s.protocol != LS_PROTOCOL_IPC then (st, 0)
    else
      var f := Flush(s.queue, script);
      var st1 := Put(st, id, s.(queue := f.queue, wire := s.wire + f.wire));
      if f.err == 0 && f.queue == [] then (Subscribe(st1, id, Mask(s.mask.r, false), np.ok).0, 0)
      else (st1, f.err)
  }

  // ---------- reading ----------

  /** What `socket_read` hands back: its return value, the bytes and the passed descriptor. */
  datatype Received = Received(ret: int, data: seq<byte>, fd: Option<int>)

  const NOTHING := Received(0, [], None)
  const FAILED := Received(-1, [], None)

  /** The adaptive part of `_read`. */
  function AfterRead(s: Slot, n: nat): Slot {
    var size :=
      if s.rlimit != 0 then s.rbuffersz
      else if n == s.rbuffersz then 2 * s.rbuffersz
      else if s.rbuffersz > RBUFFER_SZ && n < 2 * s.rbuffersz then s.rbuffersz / 2
      else s.rbuffersz;
    s.(rbuffersz := size, maxread := if n > s.maxread then n else s.maxread)
  }

  /** The first answer that is not EINTR; a script that has run out stands for EAGAIN. */
  function Settled(script: seq<ReadAnswer>): ReadAnswer {
    if script == [] then ReadAgain
    else if script[0].ReadIntr? then Settled(script[1..])
    else script[0]
  }

  /** `socket_read`, with `_read`, `_read_close` and `_readfd`. */
  function Read(st: Net, id: nat, script: seq<ReadAnswer>): (Net, Received)
    requires id < |st.slots|
  {
    if !Live(st, id) then (st.(err := LS_ERR_NOSOCK), FAILED)
    else
      var s, answer := st.slots[id], Settled(script);
      if s.protocol == LS_PROTOCOL_TCP then
        match answer
        case ReadFail(e) => (Close(st, id, ReadEnded).(err := e), FAILED)
        case Got(data, _, _) =>
          if data == [] then (Close(st, id, ReadEnded).(err := LS_ERR_EOF), FAILED)
          else if s.status == HalfClose then (st.(err := 0), NOTHING)
          else
            var n := if |data| <= s.rbuffersz then |data| else if s.rbuffersz < 0 then 0 else s.rbuffersz;
            (Put(st, id, AfterRead(s, n)), Received(n, data[..n], None))
        case _ => (if s.status == HalfClose then st.(err := 0) else st, NOTHING)
      else if s.protocol == LS_PROTOCOL_IPC then
        match answer
        case ReadFail(e) => (Close(st, id, ReadEnded).(err := e), FAILED)
        case Got(data, fd, flaw) =>
          if data == [] then (Close(st, id, ReadEnded).(err := LS_ERR_EOF), FAILED)
          else if flaw != 0 then (Close(st, id, ReadEnded).(err := flaw), FAILED)
          else
            var n := Min(|data|, RECVMSG_MAXSIZE);
            (st, Received(if fd.Some? then n + 4 else n, data[..n], fd))
        case _ => (st, NOTHING)
      else (st, FAILED)
  }

  // ---------- polling ----------

  datatype Kind =
    LS_EREAD | LS_EACCEPT | LS_ECONNECT | LS_ECONNERR | LS_ESOCKERR | LS_EWRIDONECLOSE | LS_ECONN_THEN_READ

  /** `detail` is the error or the listener's id where the code stores one. */
  datatype Event = Event(kind: Kind, id: nat, udata: int, detail: Option<int>)

  /** One entry of the batch the poller reports, with the answers its handling will meet. */
  datatype Wakeup = Wakeup(id: nat, read: bool, write: bool,
                           accepted: AcceptAnswer, connErr: int, script: seq<WriteAnswer>, np: NpAnswer)

  /** `_accept`. */
  function Accept(st: Net, lis: nat, answer: AcceptAnswer): (Net, Option<nat>)
    requires FreeInRange(st) && lis < |st.slots|
  {
    match answer
    case NoConnection => (st, None)
    case Connection(fd, nonblocking) =>
      var (st1, slot) := Create(st, fd, st.slots[lis].slimit, st.slots[lis].udata, LS_PROTOCOL_TCP);
      if slot.None? then (st1, None)
      else if !nonblocking then (Close(st1, slot.value, SetupFailed), None)
      else (Put(st1, slot.value, st1.slots[slot.value].(status := Connected)), slot)
  }

  /** `_onconnect`; all interest is dropped, whatever is queued. */
  function OnConnect(st: Net, id: nat, connErr: int, np: NpAnswer): Net
    requires Live(st, id)
  {
    if connErr == 0 then Subscribe(Put(st, id, st.slots[id].(status := Connected)), id, NONE, np.ok).0
    else Close(st, id, ConnectFailed)
  }

  /** The default case of the loop in `socket_poll`: flush, then report. */
  function HandleReady(st: Net, w: Wakeup): (Net, Option<Event>)
    requires Live(st, w.id)
  {
    var id, s := w.id, st.slots[w.id];
    var (st1, err) := if w.write then SendBuffer(st, id, w.script, w.np) else (st, 0);
    if err != 0 then
      (Close(st1, id, SendFailed), Some(Event(LS_ESOCKERR, id, s.udata, Some(err))))
    else if w.write && s.status == HalfClose && st1.slots[id].queue == [] then
      (Close(st1, id, Drained), Some(Event(LS_EWRIDONECLOSE, id, s.udata, None)))
    else (st1, if w.read then Some(Event(LS_EREAD, id, s.udata, None)) else None)
  }

  /** One turn of the loop in `socket_poll`. */
  function Handle(st: Net, w: Wakeup): (Net, Option<Event>)
    requires FreeInRange(st) && w.id < |st.slots|
  {
    var id, s := w.id, st.slots[w.id];
    match s.status
    case Invalid => (st, None)
    case Listening =>
      var (st1, slot) := Accept(st, id, w.accepted);
      (st1, if slot.Some? then Some(Event(LS_EACCEPT, slot.value, s.udata, Some(id))) else None)
    case Connecting =>
      var kind := if w.connErr != 0 then LS_ECONNERR else if w.read then LS_ECONN_THEN_READ else LS_ECONNECT;
      (OnConnect(st, id, w.connErr, w.np), Some(Event(kind, id, s.udata, Some(w.connErr))))
    case _ => HandleReady(st, w)
  }

  // ---------- runs ----------

  datatype Op =
    | OpBind(fd: nat, udata: int, protocol: int, blocked: Option<Errno>)
    | OpListen(fd: nat, udata: int, np: NpAnswer)
    | OpConnect(fd: nat, udata: int, connecting: bool, np: NpAnswer)
    | OpSend(id: nat, data: seq<byte>, answer: WriteAnswer, np: NpAnswer)
    | OpSendFd(id: nat, data: seq<byte>, cfd: int, answer: WriteAnswer, np: NpAnswer)
    | OpRead(id: nat, answers: seq<ReadAnswer>)
    | OpClose(id: nat, force: bool)
    | OpEnableRead(id: nat, read: bool, np: NpAnswer)
    | OpUdata(id: nat, udata: int)
    | OpLimit(id: nat, slimit: int, rlimit: int)
    | OpHandle(w: Wakeup)

  /** What the source asserts of its callers: ids within the table and something to send. */
  predicate Legal(max: nat, op: Op) {
    match op
    case OpBind(_, _, _, _) => true
    case OpListen(_, _, _) => true
    case OpConnect(_, _, _, _) => true
    case OpSend(id, data, _, _) => id < max && data != []
    case OpSendFd(id, data, _, _, _) => id < max && data != []
    case OpHandle(w) => w.id < max
    case _ => op.id < max
  }

  function Step(st: Net, op: Op): Net
    requires FreeInRange(st) && Legal(|st.slots|, op)
  {
    match op
    case OpBind(fd, udata, protocol, blocked) => Bind(st, fd, udata, protocol, blocked).0
    case OpListen(fd, udata, np) => Listen(st, fd, udata, np).0
    case OpConnect(fd, udata, connecting, np) => Connect(st, fd, udata, connecting, np).0
    case OpSend(id, data, answer, np) => Send(st, id, data, answer, np).0
    case OpSendFd(id, data, cfd, answer, np) => SendFd(st, id, data, cfd, answer, np).0
    case OpRead(id, answers) => Read(st, id, answers).0
    case OpClose(id, force) => SocketClose(st, id, force).0
    case OpEnableRead(id, read, np) => EnableRead(st, id, read, np).0
    case OpUdata(id, udata) => SetUdata(st, id, udata).0
    case OpLimit(id, slimit, rlimit) => SetLimit(st, id, slimit, rlimit).0
    case OpHandle(w) => Handle(st, w).0
  }
}
