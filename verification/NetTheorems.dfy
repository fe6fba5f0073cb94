/** What runs of the socket table guarantee: conservation, descriptor passing, graceful close, drain progress,
    slot partition and reuse, limits and the adaptive read size. */
module NetTheorems {
  import opened Bytes
  import opened Interest
  import opened NetModel
  import opened NetCore
  import opened NetRuns

  // ---------- conservation ----------

  /** Every table a run can reach from a newly created one. */
  ghost predicate Reachable(st: Net) {
    exists max: nat, ops: seq<Op> :: Reaches(max, ops, st)
  }

  predicate Reaches(max: nat, ops: seq<Op>, st: Net) {
    InitCore(max);
    AllLegal(max, ops) && Run(Init(max), ops) == st
  }

  lemma {:induction false} ReachableIsCore(st: Net)
    requires Reachable(st)
    ensures Core(st)
  {
    var max: nat, ops: seq<Op> :| Reaches(max, ops, st);
    InitCore(max);
  }

  /** Stream conservation: what a live connection has put on the wire, followed by what it still queues, is
      everything submitted on it; the counter `sbuffersz` stands for is what is missing on the wire; and a
      released connection's wire is a prefix of what was submitted, all of it if it drained. */
  lemma {:induction false} Conservation(st: Net)
    requires Reachable(st)
    ensures forall id :: Live(st, id) ==>
              && st.slots[id].wire + Items(st.slots[id].queue) == st.slots[id].sent
              && |st.slots[id].wire| + Total(st.slots[id].queue) == |st.slots[id].sent|
              && (st.slots[id].queue == [] <==> st.slots[id].wire == st.slots[id].sent)
    ensures forall c :: c in st.log ==> c.wire <= c.sent && (c.why == Drained ==> c.wire == c.sent)
  {
    ReachableIsCore(st);
    forall id | Live(st, id)
      ensures
        && st.slots[id].wire + Items(st.slots[id].queue) == st.slots[id].sent
        && |st.slots[id].wire| + Total(st.slots[id].queue) == |st.slots[id].sent|
        && (st.slots[id].queue == [] <==> st.slots[id].wire == st.slots[id].sent)
    {
      var s := st.slots[id];
      assert SlotOk(s);
      ItemsLength(s.queue);
      EmptyTotal(s.queue, s.protocol == LS_PROTOCOL_TCP);
      assert s.queue == [] ==> s.wire + Items(s.queue) == s.wire;
    }
  }

  /** The descriptors that have crossed, in order. */
  function Passed(items: seq<Item>): seq<int> {
    if items == [] then [] else (if items[0].fd.Some? then [items[0].fd.value] else []) + Passed(items[1..])
  }

  function Payload(items: seq<Item>): seq<byte> {
    if items == [] then [] else [items[0].b] + Payload(items[1..])
  }

  lemma {:induction false} PassedConcat(a: seq<Item>, b: seq<Item>)
    ensures Passed(a + b) == Passed(a) + Passed(b)
  {
    if a == [] {
      assert a + b == b;
    } else {
      assert (a + b)[1..] == a[1..] + b && (a + b)[0] == a[0];
      PassedConcat(a[1..], b);
      var first := (if a[0].fd.Some? then [a[0].fd.value] else []);
      assert Passed(a + b) == first + Passed(a[1..] + b);
      assert first + (Passed(a[1..]) + Passed(b)) == (first + Passed(a[1..])) + Passed(b);
    }
  }

  lemma {:induction false} PayloadConcat(a: seq<Item>, b: seq<Item>)
    ensures Payload(a + b) == Payload(a) + Payload(b)
  {
    if a == [] {
      assert a + b == b;
    } else {
      assert (a + b)[1..] == a[1..] + b && (a + b)[0] == a[0];
      PayloadConcat(a[1..], b);
      var first := [a[0].b];
      assert Payload(a + b) == first + Payload(a[1..] + b);
      assert first + (Payload(a[1..]) + Payload(b)) == (first + Payload(a[1..])) + Payload(b);
    }
  }

  lemma {:induction false} UntaggedBytes(data: seq<byte>, items: seq<Item>)
    requires |items| == |data| && forall i :: 0 <= i < |data| ==> items[i] == Item(data[i], None)
    ensures Passed(items) == [] && Payload(items) == data
  {
    if data != [] {
      UntaggedBytes(data[1..], items[1..]);
    }
  }

  /** A message carries its bytes and passes its descriptor once, with the first byte. */
  lemma {:induction false} TagPassesOnce(data: seq<byte>, fd: int)
    requires data != []
    ensures Payload(Tag(data, fd)) == data
    ensures Passed(Tag(data, fd)) == if fd >= 0 then [fd] else []
    ensures fd >= 0 ==> Tag(data, fd)[0].fd == Some(fd) && forall i :: 0 < i < |data| ==> Tag(data, fd)[i].fd == None
  {
    UntaggedBytes(data[1..], Tag(data, fd)[1..]);
  }

  /** Exactly once: what has crossed, followed by what the queue still holds, is what was submitted, in bytes
      and in descriptors alike; so a descriptor is never passed twice and is lost only with the connection. */
  lemma {:induction false} DescriptorsPassOnce(st: Net, id: nat)
    requires Reachable(st) && Live(st, id)
    ensures var s := st.slots[id];
            && Passed(s.wire) + Passed(Items(s.queue)) == Passed(s.sent)
            && Payload(s.wire) + Payload(Items(s.queue)) == Payload(s.sent)
  {
    Conservation(st);
    PassedConcat(st.slots[id].wire, Items(st.slots[id].queue));
    PayloadConcat(st.slots[id].wire, Items(st.slots[id].queue));
  }

  // ---------- graceful close and drain ----------

  /** Graceful close: from the moment a stream connection is half-closed nothing more is accepted on it in any
      run, it stays half-closed with something to write for as long as it lives, and if it ends as drained
      then everything submitted before the close has reached the wire. */
  lemma {:induction false} GracefulClose(st: Net, ops: seq<Op>, id: nat)
    requires Core(st) && AllLegal(|st.slots|, ops) && Live(st, id)
    requires st.slots[id].status == HalfClose && st.slots[id].protocol == LS_PROTOCOL_TCP
    ensures var r, s := Run(st, ops), st.slots[id];
            && st.log <= r.log
            && match FirstEnd(r.log[|st.log|..], id)
               case None =>
                 && Live(r, id) && r.slots[id].status == HalfClose && r.slots[id].queue != []
                 && r.slots[id].sent == s.sent
               case Some(c) => c.wire <= c.sent == s.sent && (c.why == Drained ==> c.wire == s.sent)
  {
    RunEvolves(st, ops, id);
    HalfClosedSubmitsNothing(st, ops, id);
    var r, s := Run(st, ops), st.slots[id];
    assert s.sent + [] == s.sent;
    FirstEndIsLogged(r.log[|st.log|..], id);
  }

  lemma {:induction false} FirstEndIsLogged(log: seq<Closed>, id: nat)
    ensures FirstEnd(log, id).Some? ==> FirstEnd(log, id).value in log
  {
    if log != [] && log[0].id != id {
      FirstEndIsLogged(log[1..], id);
    }
  }

  lemma {:induction false} HalfClosedSubmitsNothing(st: Net, ops: seq<Op>, id: nat)
    requires Core(st) && AllLegal(|st.slots|, ops) && Live(st, id)
    requires st.slots[id].status == HalfClose && st.slots[id].protocol == LS_PROTOCOL_TCP
    ensures Submitted(st, ops, id) == []
    decreases ops
  {
    if ops != [] {
      var st1 := Step(st, ops[0]);
      StepCore(st, ops[0]);
      StepFrame(st, ops[0]);
      StepEvolves(st, ops[0], id);
      if Live(st1, id) {
        HalfClosedSubmitsNothing(st1, ops[1..], id);
      }
    }
  }

  /** The kernel's first answer that is not EINTR takes at least one byte. */
  predicate TakesSome(script: seq<WriteAnswer>) {
    script != [] && (match script[0]
                     case Wrote(n) => 0 < n
                     case Intr => TakesSome(script[1..])
                     case _ => false)
  }

  /** The writable events for slot `id` in which the kernel takes something. */
  function Productive(ops: seq<Op>, id: nat): nat {
    if ops == [] then 0
    else
      Productive(ops[1..], id) +
      if ops[0].OpHandle? && ops[0].w.id == id && ops[0].w.write && TakesSome(ops[0].w.script) then 1 else 0
  }

  lemma {:induction false} FlushProgress(queue: seq<Block>, script: seq<WriteAnswer>, tcp: bool)
    requires QueueOk(queue, tcp) && queue != [] && TakesSome(script)
    ensures |Flush(queue, script).wire| > 0
    decreases |script|
  {
    if script[0].Intr? {
      FlushProgress(queue, script[1..], tcp);
    }
  }

  /** One productive event moves a half-closed connection on by at least one byte, or ends it. */
  lemma {:induction false} HandleProgress(st: Net, w: Wakeup)
    requires Core(st) && Live(st, w.id) && st.slots[w.id].status == HalfClose
    requires w.write && TakesSome(w.script)
    ensures var st' := Handle(st, w).0;
            Live(st', w.id) ==> |st'.slots[w.id].wire| > |st.slots[w.id].wire|
  {
    var s := st.slots[w.id];
    assert SlotOk(s);
    SendBufferEffect(st, w.id, w.script, w.np);
    FlushProgress(s.queue, w.script, s.protocol == LS_PROTOCOL_TCP);
  }

  /** Drain progress: while a half-closed connection lives through a run, the wire gains at least one byte
      for every productive event, and still lacks at least one of those submitted. */
  lemma {:induction false} DrainProgress(st: Net, ops: seq<Op>, id: nat)
    requires Core(st) && AllLegal(|st.slots|, ops) && Live(st, id) && st.slots[id].status == HalfClose
    ensures var r := Run(st, ops);
            st.log <= r.log && (FirstEnd(r.log[|st.log|..], id).None? ==>
              && Live(r, id)
              && |st.slots[id].wire| + Productive(ops, id) <= |r.slots[id].wire| < |r.slots[id].sent|)
    decreases ops
  {
    RunHistory(st, ops);
    var s := st.slots[id];
    if ops == [] {
      assert SlotOk(s);
      ItemsLength(s.queue);
      EmptyTotal(s.queue, s.protocol == LS_PROTOCOL_TCP);
    } else {
      var st1, r := Step(st, ops[0]), Run(st, ops);
      StepCore(st, ops[0]);
      StepFrame(st, ops[0]);
      StepEvolves(st, ops[0], id);
      RunHistory(st1, ops[1..]);
      if Live(st1, id) {
        if ops[0].OpHandle? && ops[0].w.id == id && ops[0].w.write && TakesSome(ops[0].w.script) {
          HandleProgress(st, ops[0].w);
        }
        DrainProgress(st1, ops[1..], id);
        SkipRecord(st.log, st1.log, r.log, id);
      } else {
        assert r.log[|st.log|..][0] == st1.log[|st.log|];
      }
    }
  }

  /** A half-closed stream connection is released after at most as many productive events as it has bytes queued. */
  lemma {:induction false} DrainIsBounded(st: Net, ops: seq<Op>, id: nat)
    requires Core(st) && AllLegal(|st.slots|, ops) && Live(st, id)
    requires st.slots[id].status == HalfClose && st.slots[id].protocol == LS_PROTOCOL_TCP
    requires Productive(ops, id) >= Total(st.slots[id].queue)
    ensures st.log <= Run(st, ops).log && FirstEnd(Run(st, ops).log[|st.log|..], id).Some?
  {
    RunHistory(st, ops);
    GracefulClose(st, ops, id);
    DrainProgress(st, ops, id);
    var s := st.slots[id];
    assert SlotOk(s);
    ItemsLength(s.queue);
  }

  // ---------- slots ----------

  function SetOf(ids: seq<nat>): set<nat> {
    set id | id in ids
  }

  lemma {:induction false} DistinctSize(ids: seq<nat>)
    requires Distinct(ids)
    ensures |SetOf(ids)| == |ids|
  {
    if ids != [] {
      TakeFirst(ids);
      DistinctSize(ids[1..]);
      assert SetOf(ids) == SetOf(ids[1..]) + {ids[0]};
    }
  }

  lemma {:induction false} SetsPartition(live: set<nat>, free: seq<nat>, n: nat)
    requires Distinct(free)
    requires forall id: nat :: id in live <==> id < n && id !in free
    requires forall k :: 0 <= k < |free| ==> free[k] < n
    ensures |live| + |free| == n
  {
    DistinctSize(free);
    DistinctSize(Ids(n));
    forall id: nat | id < n
      ensures id in Ids(n)
    {
      assert Ids(n)[id] == id;
    }
    assert forall id :: id in Ids(n) ==> id < n;
    assert SetOf(Ids(n)) == live + SetOf(free);
  }

  function LiveIds(st: Net): set<nat> {
    set id: nat | id < |st.slots| && Live(st, id) :: id
  }

  /** The free list holds exactly the slots that are not live, so live and free slots add up to the table. */
  lemma {:induction false} SlotPartition(st: Net)
    requires Core(st)
    ensures forall id :: 0 <= id < |st.slots| ==> (id in st.free <==> !Live(st, id))
    ensures |LiveIds(st)| + |st.free| == |st.slots|
  {
    hide SlotOk, ClosedOk;
    forall id: nat
      ensures id in LiveIds(st) <==> id < |st.slots| && id !in st.free
    {
      assert id in LiveIds(st) <==> id < |st.slots| && Live(st, id);
      if id < |st.slots| {
        assert st.slots[id].status == Invalid <==> id in st.free;
      }
    }
    SetsPartition(LiveIds(st), st.free, |st.slots|);
  }

  /** A slot can be set up exactly when some slot is not live. */
  lemma {:induction false} CreateFailsWhenFull(st: Net, fd: nat, slimit: int, udata: int, protocol: int)
    requires Core(st)
    ensures Create(st, fd, slimit, udata, protocol).1.None? <==> forall id :: 0 <= id < |st.slots| ==> Live(st, id)
  {
    SlotPartition(st);
    if st.free != [] {
      assert st.free[0] in st.free;
    }
  }

  /** FIFO reuse: in any run, whatever else happens in between, the next slots handed out are those waiting on
      the free list now, in its order. */
  lemma {:induction false} SlotsAreReusedInOrder(st: Net, ops: seq<Op>, j: nat)
    requires Core(st) && AllLegal(|st.slots|, ops)
    requires j < |st.free| && |st.born| + j < |Run(st, ops).born|
    ensures st.born <= Run(st, ops).born && Run(st, ops).born[|st.born| + j] == st.free[j]
  {
    hide SlotOk, ClosedOk, Distinct, Run;
    RunHistory(st, ops);
    var r := Run(st, ops);
    assert r.born[|st.born| + j] == r.freed[|st.born| + j] == st.freed[|st.born| + j] == st.free[j];
  }

  /** The slot is at the tail of the free list and none was handed out. */
  predicate PutLast(st: Net, st': Net, id: nat) {
    st'.born == st.born && st'.free == st.free + [id]
  }

  lemma {:induction false} SendEndsLast(st: Net, op: Op)
    requires Core(st) && Legal(|st.slots|, op) && (op.OpSend? || op.OpSendFd?)
    requires Live(st, op.id) && !Live(Step(st, op), op.id)
    ensures PutLast(st, Step(st, op), op.id)
  {
    hide SlotOk, ClosedOk, Distinct, Tag, Total, Items;
    var s := st.slots[op.id];
    match op
    case OpSend(id, data, answer, _) => assert Transmit(s, data, -1, answer).slot.status == s.status;
    case OpSendFd(id, data, cfd, answer, _) => assert Transmit(s, data, cfd, answer).slot.status == s.status;
  }

  lemma {:induction false} HandleEndsLast(st: Net, w: Wakeup)
    requires Core(st) && Live(st, w.id) && !Live(Handle(st, w).0, w.id)
    requires st.slots[w.id].status != Listening
    ensures PutLast(st, Handle(st, w).0, w.id)
  {
    hide SlotOk, ClosedOk, Distinct, SendBuffer, Subscribe;
    var s := st.slots[w.id];
    if s.status == Connecting {
      assert w.connErr != 0 by { ConnectedStays(st, w.id, w.np); }
    } else {
      SendBufferEffect(st, w.id, w.script, w.np);
    }
  }

  lemma {:induction false} ConnectedStays(st: Net, id: nat, np: NpAnswer)
    requires Live(st, id)
    ensures Live(OnConnect(st, id, 0, np), id)
  {
  }

  lemma {:induction false} OtherEndsLast(st: Net, op: Op)
    requires op.OpRead? || op.OpClose? || op.OpEnableRead? || op.OpUdata? || op.OpLimit?
    requires Core(st) && Legal(|st.slots|, op) && Live(st, op.id) && !Live(Step(st, op), op.id)
    ensures PutLast(st, Step(st, op), op.id)
  {
    hide SlotOk, ClosedOk, Distinct, Settled, Total, Items;
  }

  /** An operation that ends a connection puts its slot at the tail of the free list and hands out none. */
  lemma {:induction false} EndedSlotIsLast(st: Net, op: Op, id: nat)
    requires Core(st) && Legal(|st.slots|, op) && Live(st, id) && !Live(Step(st, op), id)
    ensures PutLast(st, Step(st, op), id)
  {
    hide SlotOk, ClosedOk, Distinct, Step, PutLast;
    StepFrame(st, op);
    if st.free != [] {
      FreeIsNotLive(st, id);
    }
    assert Target(st, op) == id;
    match op
    case OpHandle(w) => HandleStepEndsLast(st, w);
    case OpSend(_, _, _, _) => SendEndsLast(st, op);
    case OpSendFd(_, _, _, _, _) => SendEndsLast(st, op);
    case OpBind(_, _, _, _) => SetupFrame(st, op);
    case OpListen(_, _, _) => SetupFrame(st, op);
    case OpConnect(_, _, _, _) => SetupFrame(st, op);
    case _ => OtherEndsLast(st, op);
  }

  lemma {:induction false} HandleStepEndsLast(st: Net, w: Wakeup)
    requires Core(st) && Live(st, w.id) && !Live(Step(st, OpHandle(w)), w.id)
    ensures PutLast(st, Step(st, OpHandle(w)), w.id)
  {
    hide SlotOk, ClosedOk, Distinct, Handle;
    if st.slots[w.id].status == Listening {
      ListenerStays(st, w);
    } else {
      HandleEndsLast(st, w);
    }
  }

  lemma {:induction false} ListenerStays(st: Net, w: Wakeup)
    requires Core(st) && Live(st, w.id) && st.slots[w.id].status == Listening
    ensures Live(Handle(st, w).0, w.id) && Handle(st, w).0.slots[w.id] == st.slots[w.id]
  {
    hide SlotOk, ClosedOk, Distinct;
    if st.free != [] {
      FreeIsNotLive(st, w.id);
    }
  }

  /** However a slot is released, it is handed out again only after every slot that was free before it, in any
      run that follows. */
  lemma {:induction false} ClosedSlotWaitsItsTurn(st: Net, ops: seq<Op>, id: nat, j: nat)
    requires Core(st) && AllLegal(|st.slots|, ops) && ops != []
    requires Live(st, id) && !Live(Step(st, ops[0]), id)
    requires |st.born| + j < |Run(st, ops).born|
    ensures var born := Run(st, ops).born;
            && (j < |st.free| ==> born[|st.born| + j] == st.free[j] != id)
            && (j == |st.free| ==> born[|st.born| + j] == id)
  {
    hide SlotOk, ClosedOk, Step;
    EndedSlotIsLast(st, ops[0], id);
    StepCore(st, ops[0]);
    StepFrame(st, ops[0]);
    if j <= |st.free| {
      SlotsAreReusedInOrder(Step(st, ops[0]), ops[1..], j);
      if j < |st.free| {
        assert st.free[j] in st.free;
      }
    }
  }

  /** Nothing written, submitted or queued, the initial read size, a final status, and no write interest unless a
      connect is pending. */
  predicate Blank(s: Slot) {
    && s.queue == [] && s.wire == [] && s.sent == [] && s.rbuffersz == RBUFFER_SZ && !s.limited
    && s.status in {Bound, Listening, Connecting, Connected} && (s.mask.w ==> s.status == Connecting)
  }

  lemma {:induction false} SetupIsBlank(st: Net, op: Op)
    requires Core(st) && (op.OpBind? || op.OpListen? || op.OpConnect?) && st.free != []
    ensures st.free[0] < |Step(st, op).slots|
    ensures Live(Step(st, op), st.free[0]) ==> Blank(Step(st, op).slots[st.free[0]])
  {
    hide SlotOk, ClosedOk, Distinct;
    assert st.free[0] in st.free;
  }

  lemma {:induction false} AcceptIsBlank(st: Net, w: Wakeup)
    requires Core(st) && w.id < |st.slots| && st.slots[w.id].status == Listening && st.free != []
    ensures st.free[0] < |Handle(st, w).0.slots|
    ensures w.accepted.Connection? && Live(Handle(st, w).0, st.free[0]) ==> Blank(Handle(st, w).0.slots[st.free[0]])
  {
    hide SlotOk, ClosedOk, Distinct;
    assert st.free[0] in st.free;
  }

  /** Operations on one slot bring no slot to life. */
  lemma {:induction false} StaysFree(st: Net, op: Op)
    requires !op.OpBind? && !op.OpListen? && !op.OpConnect?
    requires Core(st) && Legal(|st.slots|, op) && Target(st, op) < |st.slots| && !Live(st, Target(st, op))
    requires op.OpHandle? ==> op.w.id == Target(st, op)
    ensures !Live(Step(st, op), Target(st, op))
  {
    hide SlotOk, ClosedOk, Distinct, Transmit, Settled;
  }

  /** A slot that becomes live was the head of the free list and starts blank. */
  lemma {:induction false} NewSlotIsBlank(st: Net, op: Op, id: nat)
    requires Core(st) && Legal(|st.slots|, op) && !Live(st, id) && Live(Step(st, op), id)
    ensures st.free != [] && id == st.free[0] && Blank(Step(st, op).slots[id])
  {
    hide SlotOk, ClosedOk, Distinct, Blank, Step;
    StepFrame(st, op);
    assert Target(st, op) == id;
    if op.OpBind? || op.OpListen? || op.OpConnect? {
      SetupFrame(st, op);
      if st.free != [] {
        SetupIsBlank(st, op);
      }
    } else if op.OpHandle? && op.w.id != id {
      StepIsHandle(st, op.w);
      AcceptIsBlank(st, op.w);
    } else {
      StaysFree(st, op);
    }
  }

  lemma {:induction false} StepIsHandle(st: Net, w: Wakeup)
    requires FreeInRange(st) && w.id < |st.slots|
    ensures Step(st, OpHandle(w)) == Handle(st, w).0
  {
  }

  // ---------- limits ----------

  predicate WithinLimit(s: Slot) {
    Total(s.queue) <= s.slimit
  }

  lemma {:induction false} TransmitLimit(s: Slot, data: seq<byte>, cfd: int, answer: WriteAnswer)
    requires data != [] && WithinLimit(s)
    ensures var o := Transmit(s, data, cfd, answer);
            o.err == 0 ==> WithinLimit(o.slot)
  {
    ItemsConcat(s.queue, [Block(data, cfd)]);
  }

  lemma {:induction false} SendLimited(st: Net, op: Op)
    requires Core(st) && Legal(|st.slots|, op) && (op.OpSend? || op.OpSendFd?)
    requires Live(st, op.id) && Live(Step(st, op), op.id) && WithinLimit(st.slots[op.id])
    ensures WithinLimit(Step(st, op).slots[op.id])
  {
    hide SlotOk, Items, Flush, ClosedOk, Distinct, QueueOk, ReadSizeOk, Tag, DoubledFrom64;
    match op
    case OpSend(id, data, answer, _) => TransmitLimit(st.slots[id], data, -1, answer);
    case OpSendFd(id, data, cfd, answer, _) => TransmitLimit(st.slots[id], data, cfd, answer);
  }

  lemma {:induction false} HandleLimited(st: Net, w: Wakeup)
    requires Core(st) && Live(st, w.id) && Live(Step(st, OpHandle(w)), w.id) && WithinLimit(st.slots[w.id])
    ensures WithinLimit(Step(st, OpHandle(w)).slots[w.id])
  {
    hide SlotOk, ClosedOk, Distinct, Handle, WithinLimit;
    if st.slots[w.id].status == Listening {
      ListenerStays(st, w);
    } else {
      HandleKeepsLimit(st, w);
    }
  }

  lemma {:induction false} HandleKeepsLimit(st: Net, w: Wakeup)
    requires Core(st) && Live(st, w.id) && Live(Handle(st, w).0, w.id) && WithinLimit(st.slots[w.id])
    requires st.slots[w.id].status != Listening
    ensures WithinLimit(Handle(st, w).0.slots[w.id])
  {
    hide SlotOk, ClosedOk, Distinct, Flush, Total, SendBuffer;
    LiveOk(st, w.id);
    if st.slots[w.id].status != Connecting {
      SendBufferEffect(st, w.id, w.script, w.np);
      FlushedSlotOk(st.slots[w.id], w.script);
    }
  }

  lemma {:induction false} SmallLimited(st: Net, op: Op)
    requires Core(st) && Legal(|st.slots|, op)
    requires op.OpRead? || op.OpClose? || op.OpEnableRead? || op.OpUdata?
    requires Live(st, op.id) && Live(Step(st, op), op.id) && WithinLimit(st.slots[op.id])
    ensures WithinLimit(Step(st, op).slots[op.id])
  {
    hide Total, Settled, SlotOk, Items, Flush, ClosedOk, Distinct, QueueOk, ReadSizeOk, Tag, DoubledFrom64;
  }

  lemma {:induction false} NewSlotLimited(st: Net, op: Op, id: nat)
    requires Core(st) && Legal(|st.slots|, op) && !Live(st, id) && Live(Step(st, op), id)
    ensures WithinLimit(Step(st, op).slots[id])
  {
    hide ClosedOk, Distinct, Step, Items, QueueOk;
    NewSlotIsBlank(st, op, id);
    StepCore(st, op);
    LiveOk(Step(st, op), id);
  }

  lemma {:induction false} LimitSet(st: Net, op: Op)
    requires Core(st) && Legal(|st.slots|, op) && op.OpLimit? && Live(st, op.id)
    ensures Live(Step(st, op), op.id)
    ensures WithinLimit(Step(st, op).slots[op.id]) <==> Total(st.slots[op.id].queue) <= SendLimit(op.slimit)
  {
    hide Total, SlotOk, ClosedOk, Distinct;
  }

  lemma {:induction false} LimitSetsUpNothing(st: Net, op: Op)
    requires Core(st) && Legal(|st.slots|, op) && op.OpLimit? && !Live(st, op.id)
    ensures !Live(Step(st, op), op.id)
  {
    hide SlotOk, ClosedOk, Distinct;
  }

  /** A slot that queues no more than its limit allows goes on so through every operation except exactly one: setting
      its limit below what it has queued already. */
  lemma {:induction false} LimitIsKept(st: Net, op: Op, id: nat)
    requires Core(st) && Legal(|st.slots|, op) && Live(Step(st, op), id)
    requires Live(st, id) ==> WithinLimit(st.slots[id])
    ensures WithinLimit(Step(st, op).slots[id]) <==>
            (op.OpLimit? && op.id == id ==> Total(st.slots[id].queue) <= SendLimit(op.slimit))
  {
    hide SlotOk, ClosedOk, Distinct, WithinLimit, Step, Total;
    if op.OpLimit? && op.id == id {
      if Live(st, id) {
        LimitSet(st, op);
      } else {
        LimitSetsUpNothing(st, op);
      }
      return;
    }
    StepFrame(st, op);
    if st.free != [] && Live(st, id) {
      FreeIsNotLive(st, id);
    }
    if Target(st, op) != id {
    } else if !Live(st, id) {
      NewSlotLimited(st, op, id);
    } else if op.OpSend? || op.OpSendFd? {
      SendLimited(st, op);
    } else if op.OpHandle? {
      HandleLimited(st, op.w);
    } else if op.OpBind? || op.OpListen? || op.OpConnect? {
      SetupFrame(st, op);
    } else {
      SmallLimited(st, op);
    }
  }

  /** Adaptive read size: until `socket_limit` is called on a connection its read size is 64 doubled some
      number of times, and at most the larger of 64 and twice the largest single read. */
  lemma {:induction false} ReadSizeAdapts(st: Net, id: nat)
    requires Reachable(st) && Live(st, id) && !st.slots[id].limited
    ensures var s := st.slots[id];
            && DoubledFrom64(s.rbuffersz)
            && (s.rbuffersz <= RBUFFER_SZ || s.rbuffersz <= 2 * s.maxread)
  {
    ReachableIsCore(st);
    assert SlotOk(st.slots[id]);
  }

  /** A slot taken over from a connection whose read limit had been set keeps that limit: a first full read
      enlarges the read size exactly when the slot's previous use had left no limit. */
  lemma {:induction false} ReadLimitOutlivesConnection(st: Net, fd: nat, slimit: int, udata: int, protocol: int)
    requires Core(st) && st.free != []
    ensures var (st', slot) := Create(st, fd, slimit, udata, protocol);
            && slot.Some? && slot.value < |st'.slots|
            && var s := st'.slots[slot.value];
            && s.rbuffersz == RBUFFER_SZ
            && (AfterRead(s, RBUFFER_SZ).rbuffersz == 2 * RBUFFER_SZ <==> st.slots[st.free[0]].rlimit == 0)
  {
  }

  /** It happens: a slot whose read limit was set, closed and taken again; a full first read on the new connection
      does not enlarge its read size, though no limit was set on it. */
  lemma {:induction false} ReadLimitOutlives()
    ensures var st1 := Bind(Init(1), 5, 0, LS_PROTOCOL_TCP, None).0;
            && |st1.slots| == 1
            && var st2 := SocketClose(SetLimit(st1, 0, 0, 100).0, 0, true).0;
            && FreeInRange(st2) && |st2.slots| == 1
            && var st3 := Bind(st2, 6, 0, LS_PROTOCOL_TCP, None).0;
            && |st3.slots| == 1
            && var st4 := Read(st3, 0, [Got(seq(RBUFFER_SZ, _ => 0), None, 0)]).0;
            && Live(st4, 0) && st4.slots[0].fd == 6 && !st4.slots[0].limited
            && st4.slots[0].maxread == RBUFFER_SZ && st4.slots[0].rbuffersz == RBUFFER_SZ
  {
    var st1 := Bind(Init(1), 5, 0, LS_PROTOCOL_TCP, None).0;
    var st2 := SocketClose(SetLimit(st1, 0, 0, 100).0, 0, true).0;
    assert st1.slots[0].status == Bound && st1.free == [] && st2.free == [0] && st2.slots[0].rlimit == 100;
    var st3 := Bind(st2, 6, 0, LS_PROTOCOL_TCP, None).0;
    var s := st3.slots[0];
    assert s.rlimit == 100 && s.rbuffersz == RBUFFER_SZ && s.protocol == LS_PROTOCOL_TCP;
    assert |seq<byte>(RBUFFER_SZ, _ => 0)| == RBUFFER_SZ;
  }

  // ---------- where the code departs from what it says of itself ----------

  /** `socket_send` promises the size sent, or -1 for an error. It keeps the promise exactly when it does not
      meet EAGAIN or EINTR on an empty queue with room within the limit: then it returns -1 for a message it
      has queued. */
  lemma {:induction false} ReturnMeansErrorExactly(s: Slot, data: seq<byte>, cfd: int, answer: WriteAnswer)
    requires data != []
    ensures var o := Transmit(s, data, cfd, answer);
            (o.ret == -1 <==> o.err != 0) <==>
            !(s.queue == [] && (answer.Again? || answer.Intr?) && |data| <= s.slimit)
  {
  }

  /** It happens: a message sent on a new connection when the kernel answers EAGAIN is queued, -1 is returned, and the
      next writable event delivers the message. */
  lemma {:induction false} QueuedReturnsError()
    ensures var ok := NpAnswer(true, 1);
            var st1 := Connect(Init(1), 5, 0, false, ok).0;
            && |st1.slots| == 1
            && var (st2, ret) := Send(st1, 0, [7], Again, ok);
            && ret == -1 && st2.err == st1.err && FreeInRange(st2) && |st2.slots| == 1
            && var st3 := Handle(st2, Wakeup(0, false, true, NoConnection, 0, [Wrote(1)], ok)).0;
            && Live(st3, 0) && st3.slots[0].queue == [] && st3.slots[0].wire == Tag([7], -1)
  {
    var ok := NpAnswer(true, 1);
    var st1 := Connect(Init(1), 5, 0, false, ok).0;
    assert st1.slots[0].status == Connected && st1.slots[0].queue == [] && st1.slots[0].wire == [] && st1.free == [];
    var st2 := Send(st1, 0, [7], Again, ok).0;
    assert [7 as byte][0..] == [7];
    assert st2.slots[0].queue == [Block([7], -1)] && st2.slots[0].wire == [] && st2.slots[0].status == Connected;
    DeliverLast(st2, Wakeup(0, false, true, NoConnection, 0, [Wrote(1)], ok), [7]);
  }

  lemma {:induction false} DeliverLast(st: Net, w: Wakeup, data: seq<byte>)
    requires Live(st, w.id) && FreeInRange(st) && st.slots[w.id].status == Connected
    requires st.slots[w.id].protocol == LS_PROTOCOL_TCP && st.slots[w.id].queue == [Block(data, -1)] && data != []
    requires w.write && w.script == [Wrote(|data|)] && w.np.ok
    ensures Live(Handle(st, w).0, w.id)
    ensures var s := Handle(st, w).0.slots[w.id]; s.queue == [] && s.wire == st.slots[w.id].wire + Tag(data, -1)
  {
    hide Tag;
    var s := st.slots[w.id];
    assert Flush(s.queue[1..], w.script[1..]) == Flushed([], [], 0);
    assert Flush(s.queue, w.script) == Flushed([], Tag(data, -1) + [], 0);
    assert s.wire + (Tag(data, -1) + []) == s.wire + Tag(data, -1);
  }

  /** A half-closed slot refuses every message exactly when it is not an IPC slot: `socket_sendfd` does not
      look at the status. */
  lemma {:induction false} HalfClosedRefusesExactly(st: Net, id: nat)
    requires Core(st) && Live(st, id) && st.slots[id].status == HalfClose
    ensures (forall op :: Legal(|st.slots|, op) ==> Accepted(st, op, id) == []) <==>
            st.slots[id].protocol != LS_PROTOCOL_IPC
  {
    if st.slots[id].protocol == LS_PROTOCOL_IPC {
      var op := OpSendFd(id, [0], -1, Again, NpAnswer(true, 1));
      assert Legal(|st.slots|, op) && |Accepted(st, op, id)| == 1;
    }
  }

  /** It happens: an IPC slot that was closed while it had output queued takes one more message. */
  lemma {:induction false} HalfClosedAccepts()
    ensures var ok := NpAnswer(true, 1);
            var st1 := Bind(Init(1), 5, 0, LS_PROTOCOL_IPC, None).0;
            && |st1.slots| == 1
            && var st2 := SocketClose(SendFd(st1, 0, [7], -1, Again, ok).0, 0, false).0;
            && Live(st2, 0) && st2.slots[0].status == HalfClose
            && var (st3, ret) := SendFd(st2, 0, [8], -1, Again, ok);
            && ret == 0 && Live(st3, 0) && st3.slots[0].status == HalfClose
            && st3.slots[0].sent == Tag([7], -1) + Tag([8], -1)
  {
    var ok := NpAnswer(true, 1);
    var st1 := Bind(Init(1), 5, 0, LS_PROTOCOL_IPC, None).0;
    assert st1.slots[0].status == Bound && st1.slots[0].queue == [] && st1.slots[0].sent == [];
    var st2 := SendFd(st1, 0, [7], -1, Again, ok).0;
    assert [7 as byte][0..] == [7] && [] + Tag([7], -1) == Tag([7], -1);
    assert st2.slots[0].queue == [Block([7], -1)] && st2.slots[0].sent == Tag([7], -1) && Live(st2, 0);
    assert Total([Block([7], -1)]) == 1 by { assert [Block([7 as byte], -1)][1..] == []; }
  }

  // ---------- setting up ----------

  /** The status a successful set-up leaves. */
  function StatusAfter(op: Op): Status {
    match op
    case OpBind(_, _, _, _) => Bound
    case OpListen(_, _, _) => Listening
    case OpConnect(_, _, connecting, _) => if connecting then Connecting else Connected
    case _ => Suspend
  }

  function SetupResult(st: Net, op: Op): int
    requires Core(st)
  {
    match op
    case OpBind(fd, udata, protocol, blocked) => Bind(st, fd, udata, protocol, blocked).1
    case OpListen(fd, udata, np) => Listen(st, fd, udata, np).1
    case OpConnect(fd, udata, connecting, np) => Connect(st, fd, udata, connecting, np).1
    case _ => -1
  }

  /** The interest it registers: a listener waits to accept, a pending connect for its end, others for nothing. */
  function InterestAfter(op: Op): Mask {
    match op
    case OpListen(_, _, _) => Mask(true, false)
    case OpConnect(_, _, connecting, _) => if connecting then Mask(true, true) else Mask(false, false)
    case _ => Mask(false, false)
  }

  /** The kernel's answers that undo a set-up: a descriptor that cannot be made non-blocking, or interest that cannot
      be registered. */
  predicate SetupRefused(st: Net, op: Op) {
    match op
    case OpBind(_, _, _, blocked) => blocked.Some?
    case OpListen(fd, _, np) => !np.ok || fd in st.np
    case OpConnect(fd, _, connecting, np) => connecting && (!np.ok || fd in st.np)
    case _ => false
  }

  /** The slot it leaves: the given descriptor and owner, the protocol asked for if there is one of that number and a
      stream otherwise, no limit on sending, nothing queued. */
  predicate SetUpAs(s: Slot, op: Op)
    requires op.OpBind? || op.OpListen? || op.OpConnect?
  {
    && s.status == StatusAfter(op) && s.fd == op.fd && s.udata == op.udata && s.mask == InterestAfter(op)
    && s.protocol == (if op.OpBind? && 0 <= op.protocol <= 2 then op.protocol else 0)
    && s.slimit == 2147483647 && Blank(s)
  }

  /** The error a set-up notes. */
  function SetupError(st: Net, op: Op): int {
    if st.free == [] then LS_ERR_CREATESOCK
    else
      match op
      case OpBind(_, _, _, blocked) => if blocked.Some? then blocked.value else st.err
      case OpListen(_, _, np) => if SetupRefused(st, op) then np.e else 0
      case OpConnect(_, _, connecting, np) =>
        if SetupRefused(st, op) then np.e else if connecting then LS_CONNECTING else 0
      case _ => st.err
  }

  /** What a set-up makes of the slot it takes. */
  lemma {:induction false} SetupTarget(st: Net, op: Op)
    requires Core(st) && (op.OpBind? || op.OpListen? || op.OpConnect?) && st.free != []
    ensures var st', ret, id := Step(st, op), SetupResult(st, op), st.free[0];
            && id < |st'.slots| && st'.err == SetupError(st, op)
            && ret == (if SetupRefused(st, op) then -1 else id)
            && (ret == -1 ==> !Live(st', id))
            && (ret != -1 ==> Live(st', id) && SetUpAs(st'.slots[id], op)
                              && (InterestAfter(op) != Mask(false, false) ==>
                                    op.fd in st'.np && st'.np[op.fd] == Reg(InterestAfter(op), id)))
  {
    hide SlotOk, ClosedOk, Distinct;
    assert st.free[0] in st.free;
    match op
    case OpBind(_, _, _, _) =>
    case OpListen(fd, udata, np) =>
      CreateCore(st.(err := 0), fd, 0, udata, LS_PROTOCOL_TCP);
      SubscribeCore(Create(st.(err := 0), fd, 0, udata, LS_PROTOCOL_TCP).0, st.free[0], Mask(true, false), np.ok);
    case OpConnect(_, _, _, _) =>
  }

  /** Setting up is all or nothing: -1 is returned exactly when no slot is free or the kernel refuses, and the live
      slots are those of before; or the id returned names the former head of the free list, now live as asked for and
      registered with its interest. */
  lemma {:induction false} SetupIsAllOrNothing(st: Net, op: Op)
    requires Core(st) && (op.OpBind? || op.OpListen? || op.OpConnect?)
    ensures var st', ret := Step(st, op), SetupResult(st, op);
            && |st'.slots| == |st.slots| && st'.err == SetupError(st, op)
            && (ret == -1 <==> st.free == [] || SetupRefused(st, op))
            && (ret != -1 ==> ret == st.free[0] && Live(st', ret) && SetUpAs(st'.slots[ret], op)
                              && (InterestAfter(op) != Mask(false, false) ==>
                                    op.fd in st'.np && st'.np[op.fd] == Reg(InterestAfter(op), ret)))
            && (ret == -1 ==> forall id: nat {:trigger Live(st', id)} :: Live(st', id) <==> Live(st, id))
            && (forall id: nat {:trigger Live(st, id)} :: Live(st, id) ==>
                  Live(st', id) && st'.slots[id] == st.slots[id])
  {
    hide SlotOk, ClosedOk, Distinct, SetUpAs;
    SetupFrame(st, op);
    if st.free == [] {
      SetupFindsNone(st, op);
    } else {
      SetupTarget(st, op);
      SetupSparesOthers(st, op);
    }
  }

  lemma {:induction false} SetupFindsNone(st: Net, op: Op)
    requires Core(st) && (op.OpBind? || op.OpListen? || op.OpConnect?) && st.free == []
    ensures SetupResult(st, op) == -1 && Step(st, op).err == LS_ERR_CREATESOCK && Step(st, op).slots == st.slots
  {
  }

  lemma {:induction false} SetupSparesOthers(st: Net, op: Op)
    requires Core(st) && (op.OpBind? || op.OpListen? || op.OpConnect?) && st.free != []
    ensures !Live(st, st.free[0])
    ensures forall id: nat {:trigger Live(Step(st, op), id)} {:trigger Live(st, id)} :: id != st.free[0] ==>
              (Live(Step(st, op), id) <==> Live(st, id)) && (Live(st, id) ==> Step(st, op).slots[id] == st.slots[id])
  {
    hide SlotOk, ClosedOk, Distinct, Step;
    SetupFrame(st, op);
    assert st.free[0] in st.free;
  }
}
