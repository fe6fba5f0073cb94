/** What every operation on the socket table keeps, whatever the kernel answers. */
module NetCore {
  import opened Bytes
  import opened Interest
  import opened NetModel

  // ---------- queues ----------

  lemma {:induction false} TagSplit(data: seq<byte>, fd: int, n: nat)
    requires n <= |data|
    ensures n > 0 ==> Tag(data, fd) == Tag(data, fd)[..n] + Tag(data[n..], -1)
    ensures n == 0 ==> Tag(data[n..], fd) == Tag(data, fd)
  {
    assert n == 0 ==> data[n..] == data;
  }

  lemma {:induction false} ItemsConcat(a: seq<Block>, b: seq<Block>)
    ensures Items(a + b) == Items(a) + Items(b)
    ensures Total(a + b) == Total(a) + Total(b)
  {
    if a == [] {
      assert a + b == b;
    } else {
      assert (a + b)[1..] == a[1..] + b;
      ItemsConcat(a[1..], b);
    }
  }

  lemma {:induction false} ItemsLength(queue: seq<Block>)
    ensures |Items(queue)| == Total(queue)
  {
    if queue != [] {
      ItemsLength(queue[1..]);
    }
  }

  /** Every block still has something to write, and no block of a stream socket carries a descriptor. */
  predicate QueueOk(queue: seq<Block>, tcp: bool) {
    forall k :: 0 <= k < |queue| ==> queue[k].data != [] && (tcp ==> queue[k].fd == -1)
  }

  lemma {:induction false} EmptyTotal(queue: seq<Block>, tcp: bool)
    requires QueueOk(queue, tcp)
    ensures Total(queue) == 0 <==> queue == []
  {
  }

  /** Flushing moves items from the front of the queue to the wire and loses none, on any script; without an
      error it never leaves less on the wire than before. */
  lemma {:induction false} FlushConserves(queue: seq<Block>, script: seq<WriteAnswer>, tcp: bool)
    requires QueueOk(queue, tcp)
    ensures var f := Flush(queue, script);
            && f.wire + Items(f.queue) == Items(queue)
            && QueueOk(f.queue, tcp)
            && Total(f.queue) + |f.wire| == Total(queue)
            && (f.err != 0 ==> f.queue != [])
    decreases |script|
  {
    if queue != [] && script != [] {
      var b := queue[0];
      match script[0]
      case Intr => FlushConserves(queue, script[1..], tcp);
      case Wrote(n) =>
        if 0 < n < |b.data| {
          TagSplit(b.data, b.fd, n);
          var rest := [Block(b.data[n..], -1)] + queue[1..];
          assert rest[1..] == queue[1..];
        } else if n >= |b.data| {
          FlushConserves(queue[1..], script[1..], tcp);
        }
      case _ =>
    }
  }

  // ---------- invariants ----------

  /** `rbuffersz` is 64 doubled some number of times. */
  predicate DoubledFrom64(n: nat) {
    n == RBUFFER_SZ || (n > RBUFFER_SZ && n % 2 == 0 && DoubledFrom64(n / 2))
  }

  predicate ReadSizeOk(size: int, limited: bool, maxread: nat) {
    && 1 <= size
    && (!limited ==> DoubledFrom64(size) && (size <= RBUFFER_SZ || size <= 2 * maxread))
  }

  /** What holds of every live slot between operations. */
  predicate SlotOk(s: Slot) {
    && s.status != Invalid
    && 0 <= s.fd && 0 < s.slimit
    && s.protocol in {LS_PROTOCOL_TCP, LS_PROTOCOL_UDP, LS_PROTOCOL_IPC}
    && QueueOk(s.queue, s.protocol == LS_PROTOCOL_TCP)
    && (s.protocol == LS_PROTOCOL_UDP ==> s.queue == [])
    && (s.status == HalfClose ==> s.queue != [])
    && s.sent == s.wire + Items(s.queue)
    && ReadSizeOk(s.rbuffersz, s.limited, s.maxread)
  }

  /** What holds of every released connection. */
  predicate ClosedOk(c: Closed) {
    c.wire <= c.sent && (c.why == Drained ==> c.wire == c.sent)
  }

  predicate Distinct(ids: seq<nat>) {
    forall i, j :: 0 <= i < j < |ids| ==> ids[i] != ids[j]
  }

  predicate Core(st: Net) {
    && FreeInRange(st) && Distinct(st.free)
    && (forall id {:trigger st.slots[id]} :: 0 <= id < |st.slots| ==>
          if st.slots[id].status == Invalid then id in st.free else id !in st.free && SlotOk(st.slots[id]))
    && st.freed == st.born + st.free
    && (forall k :: 0 <= k < |st.log| ==> ClosedOk(st.log[k]))
  }

  lemma {:induction false} InitCore(max: nat)
    ensures Core(Init(max))
  {
    var st := Init(max);
    forall id | 0 <= id < |st.slots|
      ensures id in st.free
    {
      assert st.free[id] == id;
    }
  }

  lemma {:induction false} PutCore(st: Net, id: nat, s: Slot)
    requires Core(st) && Live(st, id) && SlotOk(s)
    ensures Core(Put(st, id, s)) && Live(Put(st, id, s), id)
  {
  }

  lemma {:induction false} ErrIsFree(st: Net, e: int)
    requires Core(st)
    ensures Core(st.(err := e))
  {
  }

  lemma {:induction false} LiveOk(st: Net, id: nat)
    requires Core(st) && Live(st, id)
    ensures SlotOk(st.slots[id])
  {
  }

  /** Any status but the two that say something about the slot suits it. */
  lemma {:induction false} StatusIsFree(a: Slot, status: Status)
    requires SlotOk(a) && status != Invalid && status != HalfClose
    ensures SlotOk(a.(status := status))
  {
  }

  lemma {:induction false} CloseCore(st: Net, id: nat, s: Slot, why: Why)
    requires Core(st) && Live(st, id) && s.status != Invalid
    requires s.wire <= s.sent && (why == Drained ==> s.wire == s.sent)
    ensures Core(Close(Put(st, id, s), id, why))
  {
    var st' := Close(Put(st, id, s), id, why);
    assert id !in st.free;
    forall k | 0 <= k < |st.free|
      ensures st'.free[k] == st.free[k] != id
    {
      assert st.free[k] in st.free;
    }
    assert st'.free[|st.free|] == id;
    forall j | 0 <= j < |st.slots| && j != id && j in st.free
      ensures j in st'.free
    {
    }
  }

  lemma {:induction false} CloseAsIs(st: Net, id: nat, why: Why)
    requires Core(st) && Live(st, id) && (why == Drained ==> st.slots[id].queue == [])
    ensures Core(Close(st, id, why))
  {
    var s := st.slots[id];
    assert st.slots[id := s] == st.slots;
    assert Put(st, id, s) == st;
    CloseCore(st, id, s, why);
  }

  lemma {:induction false} CreateCore(st: Net, fd: nat, slimit: int, udata: int, protocol: int)
    requires Core(st)
    ensures var (st', slot) := Create(st, fd, slimit, udata, protocol);
            && Core(st')
            && (slot.None? <==> st.free == [])
            && (slot.None? ==> st' == st)
            && (slot.Some? ==> slot.value == st.free[0] && !Live(st, slot.value) && Live(st', slot.value)
                               && st'.slots[slot.value].queue == [] && st'.slots[slot.value].mask == NONE)
  {
    if st.free != [] {
      var (st', slot) := Create(st, fd, slimit, udata, protocol);
      var id := st.free[0];
      assert id in st.free && !Live(st, id);
      TakeFirst(st.free);
      assert st.born + st.free == (st.born + [id]) + st.free[1..] by { assert st.free == [id] + st.free[1..]; }
      assert SlotOk(st'.slots[id]);
    }
  }

  lemma {:induction false} TakeFirst(ids: seq<nat>)
    requires ids != [] && Distinct(ids)
    ensures Distinct(ids[1..])
    ensures forall x :: x in ids[1..] <==> x in ids && x != ids[0]
  {
    forall x | x in ids && x != ids[0]
      ensures x in ids[1..]
    {
      var k :| 0 <= k < |ids| && ids[k] == x;
      assert ids[1..][k - 1] == x;
    }
    forall x | x in ids[1..]
      ensures x != ids[0]
    {
      var k :| 0 <= k < |ids[1..]| && ids[1..][k] == x;
      assert ids[k + 1] == x;
    }
  }

  lemma {:induction false} SubscribeCore(st: Net, id: nat, mask: Mask, ok: bool)
    requires Core(st) && Live(st, id)
    ensures Core(Subscribe(st, id, mask, ok).0) && Live(Subscribe(st, id, mask, ok).0, id)
    ensures var s := Subscribe(st, id, mask, ok).0.slots[id]; s == st.slots[id].(mask := s.mask)
    ensures Subscribe(st, id, mask, ok).0.log == st.log
  {
    PutCore(st, id, st.slots[id].(mask := mask));
  }

  // ---------- every operation keeps Core ----------

  lemma {:induction false} DoubledStep(n: nat)
    requires DoubledFrom64(n)
    ensures RBUFFER_SZ <= n && DoubledFrom64(2 * n)
    ensures RBUFFER_SZ < n ==> DoubledFrom64(n / 2)
  {
    assert (2 * n) / 2 == n && (2 * n) % 2 == 0;
  }

  lemma {:induction false} AfterReadOk(s: Slot, n: nat)
    requires SlotOk(s) && n <= s.rbuffersz
    ensures SlotOk(AfterRead(s, n))
  {
    hide DoubledFrom64, Items, QueueOk;
    if DoubledFrom64(s.rbuffersz) {
      DoubledStep(s.rbuffersz);
    }
  }

  lemma {:induction false} TransmitBehindOk(s: Slot, data: seq<byte>, cfd: int, answer: WriteAnswer)
    requires SlotOk(s) && data != [] && s.queue != []
    requires (s.protocol == LS_PROTOCOL_TCP && cfd == -1) || s.protocol == LS_PROTOCOL_IPC
    ensures var o := Transmit(s, data, cfd, answer);
            && o.slot.wire <= o.slot.sent == s.sent + Tag(data, cfd)
            && (o.err == 0 ==> SlotOk(o.slot))
            && o.slot.status == s.status
  {
    hide Items, Total, Tag, ReadSizeOk;
    var b, items := [Block(data, cfd)], Items(s.queue);
    ItemsConcat(s.queue, b);
    OneBlockItems(data, cfd);
    assert (s.wire + items) + Tag(data, cfd) == s.wire + (items + Tag(data, cfd));
  }

  lemma {:induction false} OneBlockItems(data: seq<byte>, fd: int)
    ensures Items([Block(data, fd)]) == Tag(data, fd)
  {
    assert [Block(data, fd)][1..] == [];
    assert Items([Block(data, fd)]) == Tag(data, fd) + Items([]);
  }

  lemma {:induction false} NoItems()
    ensures Items([]) == []
  {
  }

  /** The block queued after `n` bytes were taken holds exactly the message's other items. */
  lemma {:induction false} RestItems(data: seq<byte>, cfd: int, n: nat)
    requires n < |data|
    ensures Tag(data, cfd)[..n] + Items([Block(data[n..], if n > 0 then -1 else cfd)]) == Tag(data, cfd)
  {
    var rest := [Block(data[n..], if n > 0 then -1 else cfd)];
    TagSplit(data, cfd, n);
    assert rest[1..] == [];
    assert Items(rest) == Tag(rest[0].data, rest[0].fd);
  }

  lemma {:induction false} QueuedOk(s: Slot, data: seq<byte>, cfd: int, n: nat)
    requires SlotOk(s) && s.queue == [] && n < |data|
    requires (s.protocol == LS_PROTOCOL_TCP && cfd == -1) || s.protocol == LS_PROTOCOL_IPC
    ensures SlotOk(s.(sent := s.sent + Tag(data, cfd), wire := s.wire + Tag(data, cfd)[..n],
                      queue := [Block(data[n..], if n > 0 then -1 else cfd)]))
  {
    hide Items, ReadSizeOk;
    NoItems();
    RestItems(data, cfd, n);
    var items, queue := Tag(data, cfd), [Block(data[n..], if n > 0 then -1 else cfd)];
    assert s.wire + items == (s.wire + items[..n]) + Items(queue);
  }

  lemma {:induction false} TransmitFirstOk(s: Slot, data: seq<byte>, cfd: int, answer: WriteAnswer)
    requires SlotOk(s) && data != [] && s.queue == []
    requires (s.protocol == LS_PROTOCOL_TCP && cfd == -1) || s.protocol == LS_PROTOCOL_IPC
    ensures var o := Transmit(s, data, cfd, answer);
            && o.slot.wire <= o.slot.sent == s.sent + Tag(data, cfd)
            && (o.err == 0 ==> SlotOk(o.slot))
            && o.slot.status == s.status
  {
    hide Items, ReadSizeOk;
    NoItems();
    var o, items := Transmit(s, data, cfd, answer), Tag(data, cfd);
    if !answer.Fail? {
      var n := if answer.Wrote? then Min(answer.n, |data|) else 0;
      assert s.wire + items[..n] <= s.wire + items;
      if n == |data| {
        assert items[..n] == items;
      } else {
        QueuedOk(s, data, cfd, n);
      }
    }
  }

  lemma {:induction false} TransmitOk(s: Slot, data: seq<byte>, cfd: int, answer: WriteAnswer)
    requires SlotOk(s) && data != []
    requires (s.protocol == LS_PROTOCOL_TCP && cfd == -1) || s.protocol == LS_PROTOCOL_IPC
    ensures var o := Transmit(s, data, cfd, answer);
            && o.slot.wire <= o.slot.sent == s.sent + Tag(data, cfd)
            && (o.err == 0 ==> SlotOk(o.slot))
            && o.slot.status == s.status
  {
    if s.queue == [] {
      TransmitFirstOk(s, data, cfd, answer);
    } else {
      TransmitBehindOk(s, data, cfd, answer);
    }
  }

  lemma {:induction false} DeliverCore(st: Net, id: nat, o: Outcome, np: NpAnswer)
    requires Core(st) && Live(st, id) && o.slot.status != Invalid
    requires o.slot.wire <= o.slot.sent && (o.err == 0 ==> SlotOk(o.slot))
    ensures Core(Deliver(st, id, o, np))
  {
    if o.err != 0 {
      CloseCore(st, id, o.slot, SendFailed);
    } else {
      PutCore(st, id, o.slot);
      if o.first {
        SubscribeCore(Put(st, id, o.slot), id, Mask(o.slot.mask.r, true), np.ok);
      }
    }
  }

  lemma {:induction false} SendCore(st: Net, id: nat, data: seq<byte>, cfd: int, answer: WriteAnswer, np: NpAnswer)
    requires Core(st) && id < |st.slots| && data != []
    ensures Core(Send(st, id, data, answer, np).0) && Core(SendFd(st, id, data, cfd, answer, np).0)
  {
    if Live(st, id) {
      var s := st.slots[id];
      if s.protocol == LS_PROTOCOL_TCP {
        TransmitOk(s, data, -1, answer);
        DeliverCore(st, id, Transmit(s, data, -1, answer), np);
      } else if s.protocol == LS_PROTOCOL_IPC {
        TransmitOk(s, data, cfd, answer);
        DeliverCore(st, id, Transmit(s, data, cfd, answer), np);
      }
    }
  }

  /** The slot `_send_buffer` leaves, apart from its mask. */
  function FlushedSlot(s: Slot, script: seq<WriteAnswer>): Slot {
    if s.queue == [] || s.protocol == LS_PROTOCOL_UDP then s
    else s.(queue := Flush(s.queue, script).queue, wire := s.wire + Flush(s.queue, script).wire)
  }

  lemma {:induction false} FlushedSlotOk(s: Slot, script: seq<WriteAnswer>)
    requires SlotOk(s)
    ensures SlotOk(FlushedSlot(s, script).(status := Connected))
    ensures FlushedSlot(s, script).sent == s.sent
    ensures Total(FlushedSlot(s, script).queue) <= Total(s.queue)
  {
    FlushConserves(s.queue, script, s.protocol == LS_PROTOCOL_TCP);
    if s.queue != [] && s.protocol != LS_PROTOCOL_UDP {
      var f := Flush(s.queue, script);
      assert s.wire + (f.wire + Items(f.queue)) == (s.wire + f.wire) + Items(f.queue);
    }
  }

  lemma {:induction false} SendBufferEffect(st: Net, id: nat, script: seq<WriteAnswer>, np: NpAnswer)
    requires Core(st) && Live(st, id)
    ensures var (st1, err) := SendBuffer(st, id, script, np);
            && |st1.slots| == |st.slots| && Live(st1, id)
            && st1.slots[id].(mask := st.slots[id].mask) == FlushedSlot(st.slots[id], script)
            && st1.(slots := st.slots, np := st.np) == st
            && (forall j :: 0 <= j < |st.slots| && j != id ==> st1.slots[j] == st.slots[j])
            && (err != 0 ==> st1.slots[id].queue != [])
  {
    assert SlotOk(st.slots[id]);
    FlushConserves(st.slots[id].queue, script, st.slots[id].protocol == LS_PROTOCOL_TCP);
  }

  /** A table whose slot `id` alone differs is as good as the old one when that slot is. */
  lemma {:induction false} SlotReplaced(st: Net, st': Net, id: nat)
    requires Core(st) && Live(st, id) && |st'.slots| == |st.slots|
    requires st'.(slots := st.slots, np := st.np, err := st.err) == st
    requires forall j :: 0 <= j < |st.slots| && j != id ==> st'.slots[j] == st.slots[j]
    requires SlotOk(st'.slots[id])
    ensures Core(st')
  {
  }

  lemma {:induction false} HandleReadyCore(st: Net, w: Wakeup)
    requires Core(st) && Live(st, w.id)
    ensures Core(HandleReady(st, w).0)
  {
    var id, s := w.id, st.slots[w.id];
    if w.write {
      var (st1, err) := SendBuffer(st, id, w.script, w.np);
      SendBufferEffect(st, id, w.script, w.np);
      FlushedSlotOk(s, w.script);
      var s1 := st1.slots[id];
      assert st1.slots == st.slots[id := s1];
      assert SlotOk(s1.(status := Connected));
      if err != 0 || (s.status == HalfClose && s1.queue == []) {
        var why := if err != 0 then SendFailed else Drained;
        assert Close(st1, id, why) == Close(Put(st, id, s1), id, why).(np := Close(st1, id, why).np);
        CloseCore(st, id, s1, why);
      } else {
        SlotReplaced(st, st1, id);
      }
    }
  }

  lemma {:induction false} HandleCore(st: Net, w: Wakeup)
    requires Core(st) && w.id < |st.slots|
    ensures Core(Handle(st, w).0)
  {
    var id, s := w.id, st.slots[w.id];
    match s.status
    case Invalid =>
    case Listening =>
      if w.accepted.Connection? {
        var fd := w.accepted.fd;
        CreateCore(st, fd, s.slimit, s.udata, LS_PROTOCOL_TCP);
        var (st1, slot) := Create(st, fd, s.slimit, s.udata, LS_PROTOCOL_TCP);
        if slot.Some? {
          CloseAsIs(st1, slot.value, SetupFailed);
          PutCore(st1, slot.value, st1.slots[slot.value].(status := Connected));
        }
      }
    case Connecting =>
      PutCore(st, id, s.(status := Connected));
      SubscribeCore(Put(st, id, s.(status := Connected)), id, NONE, w.np.ok);
      CloseAsIs(st, id, ConnectFailed);
    case _ => HandleReadyCore(st, w);
  }

  lemma {:induction false} SetStatusCore(st: Net, id: nat, status: Status)
    requires Core(st) && Live(st, id) && status != Invalid && status != HalfClose
    ensures var st' := Put(st, id, st.slots[id].(status := status)); Core(st') && Live(st', id)
  {
    hide Core, SlotOk;
    LiveOk(st, id);
    StatusIsFree(st.slots[id], status);
    PutCore(st, id, st.slots[id].(status := status));
  }

  /** A set-up that fails behind its slot leaves the table in order, whatever error it notes. */
  lemma {:induction false} GiveUpCore(st: Net, id: nat, e: int)
    requires Core(st) && Live(st, id)
    ensures Core(Close(st, id, SetupFailed).(err := e))
  {
    hide Core, Close;
    CloseAsIs(st, id, SetupFailed);
    ErrIsFree(Close(st, id, SetupFailed), e);
  }

  lemma {:induction false} BindCore(st: Net, fd: nat, udata: int, protocol: int, blocked: Option<Errno>)
    requires Core(st)
    ensures Core(Bind(st, fd, udata, protocol, blocked).0)
  {
    hide SlotOk, ClosedOk, Distinct, Create, Close;
    CreateCore(st, fd, 0, udata, protocol);
    var (st1, slot) := Create(st, fd, 0, udata, protocol);
    if slot.None? {
      ErrIsFree(st1, LS_ERR_CREATESOCK);
    } else if blocked.Some? {
      GiveUpCore(st1, slot.value, blocked.value);
    } else {
      SetStatusCore(st1, slot.value, Bound);
    }
  }

  lemma {:induction false} ListenCore(st: Net, fd: nat, udata: int, np: NpAnswer)
    requires Core(st)
    ensures Core(Listen(st, fd, udata, np).0)
  {
    hide SlotOk, ClosedOk, Distinct, Create, Close, Subscribe;
    ErrIsFree(st, 0);
    CreateCore(st.(err := 0), fd, 0, udata, LS_PROTOCOL_TCP);
    var (st1, slot) := Create(st.(err := 0), fd, 0, udata, LS_PROTOCOL_TCP);
    if slot.None? {
      ErrIsFree(st1, LS_ERR_CREATESOCK);
    } else {
      var id := slot.value;
      SubscribeCore(st1, id, Mask(true, false), np.ok);
      var (st2, result) := Subscribe(st1, id, Mask(true, false), np.ok);
      if result != 0 {
        GiveUpCore(st2, id, np.e);
      } else {
        SetStatusCore(st2, id, Listening);
      }
    }
  }

  lemma {:induction false} ConnectCore(st: Net, fd: nat, udata: int, connecting: bool, np: NpAnswer)
    requires Core(st)
    ensures Core(Connect(st, fd, udata, connecting, np).0)
  {
    hide SlotOk, ClosedOk, Distinct, Create, Close, Subscribe;
    ErrIsFree(st, 0);
    CreateCore(st.(err := 0), fd, 0, udata, LS_PROTOCOL_TCP);
    var (st1, slot) := Create(st.(err := 0), fd, 0, udata, LS_PROTOCOL_TCP);
    if slot.None? {
      ErrIsFree(st1, LS_ERR_CREATESOCK);
    } else {
      var id, status := slot.value, if connecting then Connecting else Connected;
      SetStatusCore(st1, id, status);
      if connecting {
        var st2 := Put(st1, id, st1.slots[id].(status := status));
        SubscribeCore(st2, id, Mask(true, true), np.ok);
        var (st3, result) := Subscribe(st2, id, Mask(true, true), np.ok);
        if result != 0 {
          GiveUpCore(st3, id, np.e);
        } else {
          ErrIsFree(st3, LS_CONNECTING);
        }
      }
    }
  }

  lemma {:induction false} ReadCore(st: Net, id: nat, answers: seq<ReadAnswer>)
    requires Core(st) && Live(st, id)
    ensures Core(Read(st, id, answers).0)
  {
    hide SlotOk, ClosedOk, Distinct, Close, AfterRead, Settled;
    var s, answer := st.slots[id], Settled(answers);
    CloseAsIs(st, id, ReadEnded);
    LiveOk(st, id);
    if answer.Got? && answer.data != [] && s.protocol == LS_PROTOCOL_TCP && s.status != HalfClose {
      ReadSizePositive(s);
      var n := Min(|answer.data|, s.rbuffersz);
      AfterReadOk(s, n);
      PutCore(st, id, AfterRead(s, n));
    }
  }

  /** Without a live slot these operations only note an error. */
  lemma {:induction false} NoSlotNoted(st: Net, op: Op)
    requires op.OpRead? || op.OpClose? || op.OpEnableRead? || op.OpUdata? || op.OpLimit?
    requires op.id < |st.slots| && FreeInRange(st) && !Live(st, op.id)
    ensures Step(st, op) == st.(err := LS_ERR_NOSOCK)
  {
  }

  lemma {:induction false} ReadSizePositive(s: Slot)
    requires SlotOk(s)
    ensures 1 <= s.rbuffersz
  {
  }

  lemma {:induction false} SmallCore(st: Net, op: Op)
    requires Core(st) && Legal(|st.slots|, op)
    requires op.OpRead? || op.OpClose? || op.OpEnableRead? || op.OpUdata? || op.OpLimit?
    ensures Core(Step(st, op))
  {
    hide ClosedOk, Distinct, Items, QueueOk, Close, Subscribe, Read;
    ErrIsFree(st, LS_ERR_NOSOCK);
    if !Live(st, op.id) {
      NoSlotNoted(st, op);
    }
    if Live(st, op.id) {
      var s := st.slots[op.id];
      match op
      case OpRead(id, answers) => ReadCore(st, id, answers);
      case OpClose(id, force) =>
        CloseAsIs(st, id, Asked);
        if s.queue != [] {
          PutCore(st, id, s.(status := HalfClose));
        }
      case OpEnableRead(id, read, np) => SubscribeCore(st, id, Mask(read, s.mask.w), np.ok);
      case OpUdata(id, udata) => PutCore(st, id, s.(udata := udata));
      case OpLimit(id, slimit, rlimit) =>
        var s' := s.(slimit := SendLimit(slimit), limited := true);
        PutCore(st, id, if rlimit <= 0 then s'.(rlimit := 0) else s'.(rlimit := rlimit, rbuffersz := rlimit));
    }
  }

  /** Slot partition, queue shape, conservation, accounting of released connections and the adaptive read
      size are kept by every operation, whatever the kernel answers. */
  lemma {:induction false} StepCore(st: Net, op: Op)
    requires Core(st) && Legal(|st.slots|, op)
    ensures Core(Step(st, op))
  {
    match op
    case OpSend(id, data, answer, np) => SendCore(st, id, data, -1, answer, np);
    case OpSendFd(id, data, cfd, answer, np) => SendCore(st, id, data, cfd, answer, np);
    case OpHandle(w) => HandleCore(st, w);
    case OpBind(fd, udata, protocol, blocked) => BindCore(st, fd, udata, protocol, blocked);
    case OpListen(fd, udata, np) => ListenCore(st, fd, udata, np);
    case OpConnect(fd, udata, connecting, np) => ConnectCore(st, fd, udata, connecting, np);
    case _ => SmallCore(st, op);
  }
}
