/** Whole runs of the socket table: what becomes of one connection, of the free list and of the limits under
    any sequence of operations and kernel answers. */
module NetRuns {
  import opened Bytes
  import opened NetModel
  import opened NetCore

  // ---------- one step, seen from one connection ----------

  /** The items an operation submits on the connection in slot `id`; refusals submit nothing. */
  function Accepted(st: Net, op: Op, id: nat): seq<Item>
    requires Live(st, id)
  {
    var s := st.slots[id];
    if op.OpSend? && op.id == id && s.protocol == LS_PROTOCOL_TCP && s.status != HalfClose then Tag(op.data, -1)
    else if op.OpSendFd? && op.id == id && s.protocol == LS_PROTOCOL_IPC then Tag(op.data, op.cfd)
    else []
  }

  /** The same connection, further on. */
  predicate Continues(s: Slot, t: Slot, submitted: seq<Item>) {
    && t.status != Invalid && t.fd == s.fd && t.protocol == s.protocol
    && s.wire <= t.wire && t.sent == s.sent + submitted
    && (s.status == HalfClose ==> t.status == HalfClose)
  }

  /** The connection's final record. */
  predicate Ended(s: Slot, c: Closed, id: nat, submitted: seq<Item>) {
    c.id == id && s.wire <= c.wire && c.sent == s.sent + submitted
  }

  /** Slot `id` goes on or ends, and the log says which. */
  predicate Evolved(st: Net, st': Net, id: nat, submitted: seq<Item>)
    requires Live(st, id)
  {
    && |st'.slots| == |st.slots|
    && st.log <= st'.log && |st'.log| <= |st.log| + 1
    && if Live(st', id) then
         && Continues(st.slots[id], st'.slots[id], submitted)
         && (st.log < st'.log ==> st'.log[|st.log|].id != id)
       else
         st.log < st'.log && Ended(st.slots[id], st'.log[|st.log|], id, submitted)
  }

  /** Nothing but slot `t` changed, and no connection but the one in `t` ended. */
  predicate OnlySlot(st: Net, st': Net, t: nat) {
    && |st'.slots| == |st.slots|
    && (forall j {:trigger st'.slots[j]} :: 0 <= j < |st.slots| && j != t ==> st'.slots[j] == st.slots[j])
    && st.log <= st'.log && |st'.log| <= |st.log| + 1
    && (st.log < st'.log ==> st'.log[|st.log|].id == t)
    && st.born <= st'.born && st.freed <= st'.freed
  }

  /** The slot an operation may change: its own, or the head of the free list when it sets one up. */
  function Target(st: Net, op: Op): nat
    requires Core(st) && Legal(|st.slots|, op)
  {
    match op
    case OpBind(_, _, _, _) => if st.free == [] then 0 else st.free[0]
    case OpListen(_, _, _) => if st.free == [] then 0 else st.free[0]
    case OpConnect(_, _, _, _) => if st.free == [] then 0 else st.free[0]
    case OpHandle(w) =>
      if st.slots[w.id].status == Listening && w.accepted.Connection? && st.free != [] then st.free[0] else w.id
    case _ => op.id
  }

  lemma {:induction false} SetupFrame(st: Net, op: Op)
    requires Core(st) && (op.OpBind? || op.OpListen? || op.OpConnect?)
    ensures OnlySlot(st, Step(st, op), Target(st, op))
    ensures st.free == [] ==> Step(st, op).slots == st.slots && Step(st, op).log == st.log
  {
    hide SlotOk, Items, Total, Flush, ClosedOk, Distinct, QueueOk, ReadSizeOk, Tag, DoubledFrom64;
  }

  lemma {:induction false} HandleFrame(st: Net, w: Wakeup)
    requires Core(st) && w.id < |st.slots|
    ensures OnlySlot(st, Handle(st, w).0, Target(st, OpHandle(w)))
  {
    hide SlotOk, Items, Total, Flush, ClosedOk, Distinct, QueueOk, ReadSizeOk, Tag, DoubledFrom64;
    if Live(st, w.id) && st.slots[w.id].status != Listening && st.slots[w.id].status != Connecting {
      SendBufferEffect(st, w.id, w.script, w.np);
    }
  }

  lemma {:induction false} DeliverFrame(st: Net, id: nat, o: Outcome, np: NpAnswer)
    requires Live(st, id) && o.slot.status != Invalid
    ensures OnlySlot(st, Deliver(st, id, o, np), id)
  {
  }

  lemma {:induction false} SendFrame(st: Net, op: Op)
    requires Core(st) && Legal(|st.slots|, op) && (op.OpSend? || op.OpSendFd?)
    ensures OnlySlot(st, Step(st, op), op.id)
  {
    hide SlotOk, ClosedOk, Distinct, Deliver, Tag, Total;
    if Live(st, op.id) {
      var s := st.slots[op.id];
      match op
      case OpSend(id, data, answer, np) => DeliverFrame(st, id, Transmit(s, data, -1, answer), np);
      case OpSendFd(id, data, cfd, answer, np) => DeliverFrame(st, id, Transmit(s, data, cfd, answer), np);
    }
  }

  lemma {:induction false} SmallFrame(st: Net, op: Op)
    requires Core(st) && Legal(|st.slots|, op)
    requires op.OpClose? || op.OpEnableRead? || op.OpUdata? || op.OpLimit?
    ensures OnlySlot(st, Step(st, op), op.id)
  {
    hide SlotOk, Items, Total, Flush, ClosedOk, Distinct, QueueOk, ReadSizeOk, Tag, DoubledFrom64;
  }

  lemma {:induction false} ReadFrame(st: Net, id: nat, answers: seq<ReadAnswer>)
    requires Core(st) && id < |st.slots|
    ensures OnlySlot(st, Read(st, id, answers).0, id)
  {
    hide SlotOk, Items, Total, Flush, ClosedOk, Distinct, QueueOk, ReadSizeOk, Tag, DoubledFrom64, Settled, AfterRead;
  }

  lemma {:induction false} StepFrame(st: Net, op: Op)
    requires Core(st) && Legal(|st.slots|, op)
    ensures OnlySlot(st, Step(st, op), Target(st, op))
  {
    match op
    case OpBind(_, _, _, _) => SetupFrame(st, op);
    case OpListen(_, _, _) => SetupFrame(st, op);
    case OpConnect(_, _, _, _) => SetupFrame(st, op);
    case OpHandle(w) => HandleFrame(st, w);
    case OpRead(id, answers) => ReadFrame(st, id, answers);
    case OpSend(_, _, _, _) => SendFrame(st, op);
    case OpSendFd(_, _, _, _, _) => SendFrame(st, op);
    case _ => SmallFrame(st, op);
  }

  lemma {:induction false} FreeIsNotLive(st: Net, id: nat)
    requires Core(st) && Live(st, id) && st.free != []
    ensures st.free[0] != id
  {
    assert st.free[0] in st.free;
  }

  lemma {:induction false} TransmitEvolves(st: Net, id: nat, data: seq<byte>, cfd: int,
      answer: WriteAnswer, np: NpAnswer)
    requires Core(st) && Live(st, id) && data != []
    requires var s := st.slots[id]; (s.protocol == LS_PROTOCOL_TCP && cfd == -1) || s.protocol == LS_PROTOCOL_IPC
    ensures Evolved(st, Deliver(st, id, Transmit(st.slots[id], data, cfd, answer), np), id, Tag(data, cfd))
  {
    hide Core, Tag, Transmit;
    TransmitContinues(st.slots[id], data, cfd, answer);
  }

  /** A send leaves its slot the same connection, with the message submitted on it. */
  lemma {:induction false} TransmitContinues(s: Slot, data: seq<byte>, cfd: int, answer: WriteAnswer)
    requires s.status != Invalid && data != []
    ensures Continues(s, Transmit(s, data, cfd, answer).slot, Tag(data, cfd))
    ensures Transmit(s, data, cfd, answer).slot.mask == s.mask
  {
    hide Total, Tag;
  }

  lemma {:induction false} SendEvolves(st: Net, op: Op)
    requires Core(st) && Legal(|st.slots|, op) && (op.OpSend? || op.OpSendFd?) && Live(st, op.id)
    ensures Evolved(st, Step(st, op), op.id, Accepted(st, op, op.id))
  {
    var s := st.slots[op.id];
    match op
    case OpSend(id, data, answer, np) =>
      if s.protocol == LS_PROTOCOL_TCP {
        TransmitEvolves(st, id, data, -1, answer, np);
      }
    case OpSendFd(id, data, cfd, answer, np) =>
      if s.protocol == LS_PROTOCOL_IPC {
        TransmitEvolves(st, id, data, cfd, answer, np);
      }
  }

  lemma {:induction false} HandleEvolves(st: Net, w: Wakeup)
    requires Core(st) && Live(st, w.id)
    ensures Evolved(st, Handle(st, w).0, w.id, [])
  {
    hide SlotOk, Items, Total, Flush, ClosedOk, Distinct, QueueOk, ReadSizeOk, Tag, DoubledFrom64;
    var id, s := w.id, st.slots[w.id];
    assert s.sent + [] == s.sent;
    if s.status == Listening {
      if st.free != [] {
        FreeIsNotLive(st, id);
      }
      HandleFrame(st, w);
    } else if s.status != Connecting {
      SendBufferEffect(st, id, w.script, w.np);
    }
  }

  lemma {:induction false} SmallEvolves(st: Net, op: Op)
    requires Core(st) && Legal(|st.slots|, op)
    requires op.OpClose? || op.OpEnableRead? || op.OpUdata? || op.OpLimit?
    requires Live(st, op.id)
    ensures Evolved(st, Step(st, op), op.id, [])
  {
    hide SlotOk, Items, Total, Flush, ClosedOk, Distinct, QueueOk, ReadSizeOk, Tag, DoubledFrom64;
    assert st.slots[op.id].sent + [] == st.slots[op.id].sent;
  }

  lemma {:induction false} ReadEvolves(st: Net, id: nat, answers: seq<ReadAnswer>)
    requires Core(st) && Live(st, id)
    ensures Evolved(st, Read(st, id, answers).0, id, [])
  {
    hide SlotOk, Items, Total, Flush, ClosedOk, Distinct, QueueOk, ReadSizeOk, Tag, DoubledFrom64, Settled;
    assert st.slots[id].sent + [] == st.slots[id].sent;
  }

  /** Every operation moves every live connection on, submitting exactly what it accepts, or ends it and says so. */
  lemma {:induction false} StepEvolves(st: Net, op: Op, id: nat)
    requires Core(st) && Legal(|st.slots|, op) && Live(st, id)
    ensures Evolved(st, Step(st, op), id, Accepted(st, op, id))
  {
    var t := Target(st, op);
    if st.free != [] {
      FreeIsNotLive(st, id);
    }
    if t != id {
      StepFrame(st, op);
      assert st.slots[id].sent + [] == st.slots[id].sent;
    } else {
      match op
      case OpSend(_, _, _, _) => SendEvolves(st, op);
      case OpSendFd(_, _, _, _, _) => SendEvolves(st, op);
      case OpHandle(w) => HandleEvolves(st, w);
      case OpRead(_, answers) => ReadEvolves(st, id, answers);
      case OpBind(_, _, _, _) =>
        SetupFrame(st, op);
        assert st.slots[id].sent + [] == st.slots[id].sent;
      case OpListen(_, _, _) =>
        SetupFrame(st, op);
        assert st.slots[id].sent + [] == st.slots[id].sent;
      case OpConnect(_, _, _, _) =>
        SetupFrame(st, op);
        assert st.slots[id].sent + [] == st.slots[id].sent;
      case _ => SmallEvolves(st, op);
    }
  }

  // ---------- runs ----------

  predicate AllLegal(max: nat, ops: seq<Op>) {
    forall k :: 0 <= k < |ops| ==> Legal(max, ops[k])
  }

  function Run(st: Net, ops: seq<Op>): (r: Net)
    requires Core(st) && AllLegal(|st.slots|, ops)
    ensures Core(r) && |r.slots| == |st.slots|
    decreases ops
  {
    if ops == [] then st
    else
      StepCore(st, ops[0]);
      StepFrame(st, ops[0]);
      Run(Step(st, ops[0]), ops[1..])
  }

  /** What a run submits on the connection now in slot `id`, up to that connection's end. */
  function Submitted(st: Net, ops: seq<Op>, id: nat): seq<Item>
    requires Core(st) && AllLegal(|st.slots|, ops) && Live(st, id)
    decreases ops
  {
    if ops == [] then []
    else
      StepCore(st, ops[0]);
      StepFrame(st, ops[0]);
      var st1 := Step(st, ops[0]);
      Accepted(st, ops[0], id) + if Live(st1, id) then Submitted(st1, ops[1..], id) else []
  }

  /** The first record in a stretch of the log that is about slot `id`. */
  function FirstEnd(log: seq<Closed>, id: nat): Option<Closed> {
    if log == [] then None
    else if log[0].id == id then Some(log[0])
    else FirstEnd(log[1..], id)
  }

  /** Histories only grow. */
  lemma {:induction false} RunHistory(st: Net, ops: seq<Op>)
    requires Core(st) && AllLegal(|st.slots|, ops)
    ensures var r := Run(st, ops); st.log <= r.log && st.born <= r.born && st.freed <= r.freed
    decreases ops
  {
    if ops != [] {
      StepCore(st, ops[0]);
      StepFrame(st, ops[0]);
      RunHistory(Step(st, ops[0]), ops[1..]);
    }
  }

  /** What a run from `st` to `r` made of the connection in slot `id`: it is still there, further on, or the
      first record about the slot is its end. */
  predicate Fate(st: Net, r: Net, id: nat, submitted: seq<Item>)
    requires Live(st, id)
  {
    && |r.slots| == |st.slots| && st.log <= r.log
    && match FirstEnd(r.log[|st.log|..], id)
       case None => Live(r, id) && Continues(st.slots[id], r.slots[id], submitted)
       case Some(c) => Ended(st.slots[id], c, id, submitted)
  }

  lemma {:induction false} FateStep(st: Net, st1: Net, r: Net, id: nat, a: seq<Item>, b: seq<Item>)
    requires Live(st, id) && Live(st1, id) && Evolved(st, st1, id, a) && Fate(st1, r, id, b)
    ensures Fate(st, r, id, a + b)
  {
    var s := st.slots[id];
    SkipRecord(st.log, st1.log, r.log, id);
    assert (s.sent + a) + b == s.sent + (a + b);
  }

  lemma {:induction false} FateEnd(st: Net, st1: Net, r: Net, id: nat, a: seq<Item>)
    requires Live(st, id) && !Live(st1, id) && Evolved(st, st1, id, a) && st1.log <= r.log && |r.slots| == |st.slots|
    ensures Fate(st, r, id, a + [])
  {
    assert r.log[|st.log|..][0] == st1.log[|st.log|];
    assert a + [] == a;
  }

  /** The fate of every connection in every run: whether it goes on or ends, what was submitted since is
      exactly what the accepted sends carried, in order, and what had reached the wire is still there. */
  lemma {:induction false} RunEvolves(st: Net, ops: seq<Op>, id: nat)
    requires Core(st) && AllLegal(|st.slots|, ops) && Live(st, id)
    ensures Fate(st, Run(st, ops), id, Submitted(st, ops, id))
    decreases ops
  {
    hide SlotOk, ClosedOk, Distinct, Step, Accepted, Evolved, Fate;
    if ops == [] {
      FateStays(st, id);
    } else {
      var st1 := Step(st, ops[0]);
      StepCore(st, ops[0]);
      StepFrame(st, ops[0]);
      StepEvolves(st, ops[0], id);
      RunHistory(st1, ops[1..]);
      if Live(st1, id) {
        RunEvolves(st1, ops[1..], id);
        FateStep(st, st1, Run(st, ops), id, Accepted(st, ops[0], id), Submitted(st1, ops[1..], id));
      } else {
        FateEnd(st, st1, Run(st, ops), id, Accepted(st, ops[0], id));
      }
    }
  }

  lemma {:induction false} FateStays(st: Net, id: nat)
    requires Live(st, id)
    ensures Fate(st, st, id, [])
  {
    assert st.log[|st.log|..] == [];
    assert st.slots[id].sent + [] == st.slots[id].sent;
  }

  lemma {:induction false} SkipRecord(log0: seq<Closed>, log1: seq<Closed>, log2: seq<Closed>, id: nat)
    requires log0 <= log1 <= log2 && |log1| <= |log0| + 1
    requires log0 < log1 ==> log1[|log0|].id != id
    ensures FirstEnd(log2[|log0|..], id) == FirstEnd(log2[|log1|..], id)
  {
    if log0 < log1 {
      assert log2[|log0|..][0] == log1[|log0|];
      assert log2[|log0|..][1..] == log2[|log1|..];
    }
  }
}
