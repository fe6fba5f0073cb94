/** The poller's view of the socket table: registered interest follows the slots' masks, and write interest
    follows the queues. */
module NetInterest {
  import opened Bytes
  import opened Interest
  import opened NetModel
  import opened NetCore
  import opened NetRuns
  import opened NetTheorems

  // ---------- masks and registrations ----------

  /** A slot's mask is its registered interest, and none is registered for a mask of zero. */
  ghost predicate SlotRegistered(st: Net, id: nat)
    requires Live(st, id)
  {
    var s := st.slots[id];
    if s.mask == NONE then s.fd !in st.np else s.fd in st.np && st.np[s.fd] == Reg(s.mask, id)
  }

  /** Masks and registrations agree, every registration belongs to a live slot, and live slots have
      different descriptors. */
  ghost predicate Registered(st: Net) {
    && (forall id: nat {:trigger SlotRegistered(st, id)} :: Live(st, id) ==> SlotRegistered(st, id))
    && (forall fd :: fd in st.np ==> Live(st, st.np[fd].owner) && st.slots[st.np[fd].owner].fd == fd)
    && (forall i: nat, j: nat :: Live(st, i) && Live(st, j) && i != j ==> st.slots[i].fd != st.slots[j].fd)
  }

  /** The descriptor an operation brings in, if any. */
  function NewFd(st: Net, op: Op): Option<nat>
    requires Legal(|st.slots|, op)
  {
    match op
    case OpBind(fd, _, _, _) => Some(fd)
    case OpListen(fd, _, _) => Some(fd)
    case OpConnect(fd, _, _, _) => Some(fd)
    case OpHandle(w) =>
      if st.slots[w.id].status == Listening && w.accepted.Connection? then Some(w.accepted.fd) else None
    case _ => None
  }

  /** A descriptor the kernel or the caller can bring in: not open in a live slot. */
  ghost predicate Unused(st: Net, fd: nat) {
    forall id: nat :: Live(st, id) ==> st.slots[id].fd != fd
  }

  ghost predicate KernelFair(st: Net, op: Op)
    requires Legal(|st.slots|, op)
  {
    NewFd(st, op).Some? ==> Unused(st, NewFd(st, op).value)
  }

  lemma {:induction false} PutAgrees(st: Net, id: nat, s: Slot)
    requires Registered(st) && Live(st, id)
    requires s.status != Invalid && s.fd == st.slots[id].fd && s.mask == st.slots[id].mask
    ensures Registered(Put(st, id, s))
  {
    var st' := Put(st, id, s);
    forall j: nat | Live(st', j)
      ensures SlotRegistered(st', j)
    {
      assert SlotRegistered(st, j);
    }
  }

  lemma {:induction false} SubscribeAgrees(st: Net, id: nat, mask: Mask, ok: bool)
    requires Registered(st) && Live(st, id)
    ensures Registered(Subscribe(st, id, mask, ok).0) && Live(Subscribe(st, id, mask, ok).0, id)
    ensures ok ==> Subscribe(st, id, mask, ok).0.slots[id] == st.slots[id].(mask := mask)
    ensures var s := Subscribe(st, id, mask, ok).0.slots[id]; s == st.slots[id].(mask := s.mask)
    ensures !ok && st.slots[id].mask != mask ==> Subscribe(st, id, mask, ok) == (st, -1)
    ensures Subscribe(st, id, mask, ok).1 == 0 ==> Subscribe(st, id, mask, ok).0.slots[id].mask == mask
    ensures Subscribe(st, id, mask, ok).1 != 0 ==> Subscribe(st, id, mask, ok).0 == st
  {
    var st' := Subscribe(st, id, mask, ok).0;
    assert SlotRegistered(st, id);
    assert st'.slots[id].status != Invalid;
    forall j: nat | Live(st', j)
      ensures SlotRegistered(st', j)
    {
      assert SlotRegistered(st, j);
    }
  }

  /** A slot the poller forgets when it is released: its descriptor is closed then, or nothing is registered for it. */
  predicate CanForget(s: Slot) {
    s.fd > STDERR_FILENO || s.mask == NONE
  }

  /** The interest a slot still has when the operation releases it: a drained slot has dropped write interest first,
      if the poller let it. */
  function MaskAtRelease(s: Slot, op: Op): Mask {
    if op.OpHandle? && s.status != Connecting && op.w.np.ok && Flush(s.queue, op.w.script).err == 0
    then Mask(s.mask.r, false) else s.mask
  }

  /** If the operation releases a slot on a standard stream, no interest is left on it. */
  predicate StreamsKept(st: Net, op: Op)
    requires Core(st) && Legal(|st.slots|, op)
  {
    var id := Target(st, op);
    Live(st, id) && !Live(Step(st, op), id) ==> CanForget(st.slots[id].(mask := MaskAtRelease(st.slots[id], op)))
  }

  /** Releasing a slot leaves masks and registrations in agreement exactly when its descriptor is closed, or
      was not registered: a standard stream is not closed, and its registration outlives the slot. */
  lemma {:induction false} CloseAgreesExactly(st: Net, id: nat, why: Why)
    requires Registered(st) && Live(st, id)
    ensures Registered(Close(st, id, why)) <==> CanForget(st.slots[id])
  {
    var st' := Close(st, id, why);
    var fd := st.slots[id].fd;
    assert SlotRegistered(st, id);
    forall j: nat | Live(st', j)
      ensures SlotRegistered(st', j)
    {
      assert SlotRegistered(st, j);
    }
    if fd <= STDERR_FILENO && st.slots[id].mask != NONE {
      assert fd in st'.np && st'.np[fd].owner == id && !Live(st', id);
    }
  }

  /** It happens: a listener on descriptor 0 is closed, and descriptor 0 stays registered for a slot that is free. */
  lemma {:induction false} StandardStreamStaysRegistered()
    ensures var st1 := Listen(Init(1), 0, 0, NpAnswer(true, 1)).0;
            && |st1.slots| == 1
            && var st2 := SocketClose(st1, 0, true).0;
            !Live(st2, 0) && 0 in st2.np && st2.np[0].owner == 0 && !Registered(st2)
  {
    var st1 := Listen(Init(1), 0, 0, NpAnswer(true, 1)).0;
    assert st1.slots[0].status == Listening && st1.slots[0].fd == 0 && 0 in st1.np && st1.np[0].owner == 0;
    var st2 := SocketClose(st1, 0, true).0;
    assert 0 in st2.np && !Live(st2, st2.np[0].owner);
  }

  /** The same whatever error is noted. */
  lemma {:induction false} CloseNoted(st: Net, id: nat, why: Why, e: int)
    requires Registered(st) && Live(st, id)
    ensures Registered(Close(st, id, why)) <==> CanForget(st.slots[id])
    ensures Registered(Close(st, id, why).(err := e)) <==> CanForget(st.slots[id])
  {
    hide Registered, Close;
    CloseAgreesExactly(st, id, why);
    SameRegistration(Close(st, id, why), Close(st, id, why).(err := e));
  }

  lemma {:induction false} CreateAgrees(st: Net, fd: nat, slimit: int, udata: int, protocol: int)
    requires Core(st) && Registered(st) && Unused(st, fd)
    ensures var (st', slot) := Create(st, fd, slimit, udata, protocol);
            && Registered(st')
            && (slot.Some? ==> Live(st', slot.value) && st'.slots[slot.value].mask == NONE
                               && st'.slots[slot.value].queue == [])
  {
    if st.free != [] {
      var (st', slot) := Create(st, fd, slimit, udata, protocol);
      var id := st.free[0];
      assert id in st.free && !Live(st, id);
      forall j: nat | Live(st', j)
        ensures SlotRegistered(st', j)
      {
        if j != id {
          assert SlotRegistered(st, j);
        }
      }
    }
  }

  lemma {:induction false} DeliverAgrees(st: Net, id: nat, o: Outcome, np: NpAnswer)
    requires Registered(st) && Live(st, id) && o.slot.status != Invalid
    requires o.slot.fd == st.slots[id].fd && o.slot.mask == st.slots[id].mask
    ensures Live(Deliver(st, id, o, np), id) <==> o.err == 0
    ensures Registered(Deliver(st, id, o, np)) <==> (o.err != 0 ==> CanForget(st.slots[id]))
  {
    hide Registered, Subscribe;
    PutAgrees(st, id, o.slot);
    var st1 := Put(st, id, o.slot);
    CloseNoted(st1, id, SendFailed, o.err);
    SubscribeAgrees(st1, id, Mask(o.slot.mask.r, true), np.ok);
  }

  lemma {:induction false} SameRegistration(st: Net, st': Net)
    requires st'.slots == st.slots && st'.np == st.np
    ensures Registered(st) <==> Registered(st')
  {
    if Registered(st) {
      TakesRegistration(st, st');
    }
    if Registered(st') {
      TakesRegistration(st', st);
    }
  }

  lemma {:induction false} TakesRegistration(st: Net, st': Net)
    requires Registered(st) && st'.slots == st.slots && st'.np == st.np
    ensures Registered(st')
  {
    forall j: nat | Live(st', j)
      ensures SlotRegistered(st', j)
    {
      assert SlotRegistered(st, j);
    }
  }

  lemma {:induction false} SendBufferAgrees(st: Net, id: nat, script: seq<WriteAnswer>, np: NpAnswer)
    requires Registered(st) && Live(st, id)
    ensures Registered(SendBuffer(st, id, script, np).0) && Live(SendBuffer(st, id, script, np).0, id)
    ensures var (st1, err) := SendBuffer(st, id, script, np);
            var s, s1, f := st.slots[id], st1.slots[id], Flush(st.slots[id].queue, script);
            && s1.fd == s.fd && s1.status == s.status
            && (err != 0 ==> f.err != 0 && s1.mask == s.mask)
            && (err == 0 && s.queue != [] && s1.queue == [] ==>
                  f.err == 0 && s1.mask == if np.ok then Mask(s.mask.r, false) else s.mask)
  {
    hide Registered, Subscribe;
    var s := st.slots[id];
    var f := Flush(s.queue, script);
    var s1 := s.(queue := f.queue, wire := s.wire + f.wire);
    PutAgrees(st, id, s1);
    SubscribeAgrees(Put(st, id, s1), id, Mask(s.mask.r, false), np.ok);
  }

  lemma {:induction false} AcceptAgrees(st: Net, w: Wakeup)
    requires Core(st) && Registered(st) && Live(st, w.id) && st.slots[w.id].status == Listening
    requires KernelFair(st, OpHandle(w))
    ensures Registered(Handle(st, w).0)
  {
    hide SlotOk, ClosedOk, Distinct, Registered, Subscribe, Create, Unused;
    var s := st.slots[w.id];
    if w.accepted.Connection? {
      CreateAgrees(st, w.accepted.fd, s.slimit, s.udata, LS_PROTOCOL_TCP);
      var (st1, slot) := Create(st, w.accepted.fd, s.slimit, s.udata, LS_PROTOCOL_TCP);
      if slot.Some? {
        CloseAgreesExactly(st1, slot.value, SetupFailed);
        PutAgrees(st1, slot.value, st1.slots[slot.value].(status := Connected));
      }
    }
  }

  lemma {:induction false} OnConnectAgrees(st: Net, w: Wakeup)
    requires Registered(st) && Live(st, w.id) && st.slots[w.id].status == Connecting
    ensures var st' := OnConnect(st, w.id, w.connErr, w.np);
            && (Live(st', w.id) <==> w.connErr == 0)
            && (Registered(st') <==> (w.connErr != 0 ==> CanForget(st.slots[w.id])))
  {
    hide Registered, Subscribe;
    var id, s := w.id, st.slots[w.id];
    PutAgrees(st, id, s.(status := Connected));
    SubscribeAgrees(Put(st, id, s.(status := Connected)), id, NONE, w.np.ok);
    CloseAgreesExactly(st, id, ConnectFailed);
  }

  lemma {:induction false} ReadyAgrees(st: Net, w: Wakeup)
    requires Core(st) && Registered(st) && Live(st, w.id) && st.slots[w.id].status != Connecting
    ensures var st', s := HandleReady(st, w).0, st.slots[w.id];
            Registered(st') <==> (!Live(st', w.id) ==> CanForget(s.(mask := MaskAtRelease(s, OpHandle(w)))))
  {
    hide SlotOk, ClosedOk, Distinct, Registered, SendBuffer, Flush;
    if w.write {
      if st.slots[w.id].status == HalfClose {
        HalfClosedQueues(st, w.id);
      }
      var st1 := SendBuffer(st, w.id, w.script, w.np).0;
      SendBufferAgrees(st, w.id, w.script, w.np);
      CloseAgreesExactly(st1, w.id, SendFailed);
      CloseAgreesExactly(st1, w.id, Drained);
    }
  }

  lemma {:induction false} HalfClosedQueues(st: Net, id: nat)
    requires Core(st) && Live(st, id) && st.slots[id].status == HalfClose
    ensures st.slots[id].queue != []
  {
    assert SlotOk(st.slots[id]);
  }

  lemma {:induction false} HandleAgrees(st: Net, w: Wakeup)
    requires Core(st) && Registered(st) && w.id < |st.slots| && KernelFair(st, OpHandle(w))
    ensures Registered(Step(st, OpHandle(w))) <==> StreamsKept(st, OpHandle(w))
  {
    hide SlotOk, ClosedOk, Distinct, Registered, HandleReady, OnConnect, Accept, KernelFair, Flush;
    match st.slots[w.id].status
    case Invalid =>
    case Listening =>
      AcceptAgrees(st, w);
      StepIsHandle(st, w);
      ListenerStays(st, w);
      if st.free != [] {
        assert st.free[0] in st.free;
      }
    case Connecting => OnConnectAgrees(st, w);
    case _ => ReadyAgrees(st, w);
  }

  lemma {:induction false} BindAgrees(st: Net, fd: nat, udata: int, protocol: int, blocked: Option<Errno>)
    requires Core(st) && Registered(st) && Unused(st, fd)
    ensures Registered(Bind(st, fd, udata, protocol, blocked).0)
  {
    hide Registered, Create, Subscribe;
    CreateAgrees(st, fd, 0, udata, protocol);
    var (st1, slot) := Create(st, fd, 0, udata, protocol);
    SameRegistration(st1, st1.(err := LS_ERR_CREATESOCK));
    if slot.Some? {
      CloseNoted(st1, slot.value, SetupFailed, if blocked.Some? then blocked.value else 0);
      PutAgrees(st1, slot.value, st1.slots[slot.value].(status := Bound));
    }
  }

  lemma {:induction false} ListenAgrees(st: Net, fd: nat, udata: int, np: NpAnswer)
    requires Core(st) && Registered(st) && Unused(st, fd)
    ensures Registered(Listen(st, fd, udata, np).0)
  {
    hide Registered, Create, Subscribe;
    SameRegistration(st, st.(err := 0));
    CreateAgrees(st.(err := 0), fd, 0, udata, LS_PROTOCOL_TCP);
    var (st1, slot) := Create(st.(err := 0), fd, 0, udata, LS_PROTOCOL_TCP);
    SameRegistration(st1, st1.(err := LS_ERR_CREATESOCK));
    if slot.Some? {
      var id := slot.value;
      SubscribeAgrees(st1, id, Mask(true, false), np.ok);
      var st2 := Subscribe(st1, id, Mask(true, false), np.ok).0;
      CloseNoted(st2, id, SetupFailed, np.e);
      PutAgrees(st2, id, st2.slots[id].(status := Listening));
    }
  }

  lemma {:induction false} ConnectAgrees(st: Net, fd: nat, udata: int, connecting: bool, np: NpAnswer)
    requires Core(st) && Registered(st) && Unused(st, fd)
    ensures Registered(Connect(st, fd, udata, connecting, np).0)
  {
    hide Registered, Create, Subscribe;
    SameRegistration(st, st.(err := 0));
    CreateAgrees(st.(err := 0), fd, 0, udata, LS_PROTOCOL_TCP);
    var (st1, slot) := Create(st.(err := 0), fd, 0, udata, LS_PROTOCOL_TCP);
    SameRegistration(st1, st1.(err := LS_ERR_CREATESOCK));
    if slot.Some? {
      var id := slot.value;
      var s := st1.slots[id].(status := if connecting then Connecting else Connected);
      PutAgrees(st1, id, s);
      SubscribeAgrees(Put(st1, id, s), id, Mask(true, true), np.ok);
      var st3 := Subscribe(Put(st1, id, s), id, Mask(true, true), np.ok).0;
      SameRegistration(st3, st3.(err := LS_CONNECTING));
      CloseNoted(st3, id, SetupFailed, np.e);
    }
  }

  lemma {:induction false} SmallAgrees(st: Net, op: Op)
    requires op.OpClose? || op.OpEnableRead? || op.OpUdata? || op.OpLimit?
    requires Core(st) && Registered(st) && Legal(|st.slots|, op) && Live(st, op.id)
    ensures Registered(Step(st, op)) <==> (!Live(Step(st, op), op.id) ==> CanForget(st.slots[op.id]))
  {
    hide SlotOk, ClosedOk, Distinct, Registered, Subscribe;
    var s := st.slots[op.id];
    match op
    case OpClose(id, force) =>
      CloseAgreesExactly(st, id, Asked);
      PutAgrees(st, id, s.(status := HalfClose));
    case OpEnableRead(id, read, np) => SubscribeAgrees(st, id, Mask(read, s.mask.w), np.ok);
    case OpUdata(id, udata) => PutAgrees(st, id, s.(udata := udata));
    case OpLimit(id, slimit, rlimit) =>
      var s' := s.(slimit := SendLimit(slimit), limited := true);
      PutAgrees(st, id, if rlimit <= 0 then s'.(rlimit := 0) else s'.(rlimit := rlimit, rbuffersz := rlimit));
  }

  lemma {:induction false} ReadAgrees(st: Net, id: nat, answers: seq<ReadAnswer>)
    requires Registered(st) && Live(st, id)
    ensures var st' := Read(st, id, answers).0;
            Registered(st') <==> (!Live(st', id) ==> CanForget(st.slots[id]))
  {
    hide Registered, Settled, AfterRead;
    var st' := Read(st, id, answers).0;
    var st1 := Close(st, id, ReadEnded);
    CloseAgreesExactly(st, id, ReadEnded);
    AfterReadKeeps(st.slots[id]);
    if Live(st', id) {
      PutAgrees(st, id, st'.slots[id]);
      assert Put(st, id, st'.slots[id]).slots == st'.slots;
      SameRegistration(Put(st, id, st'.slots[id]), st');
    } else {
      SameRegistration(st1, st');
    }
  }

  lemma {:induction false} AfterReadKeeps(s: Slot)
    ensures forall n: nat ::
              AfterRead(s, n).status == s.status && AfterRead(s, n).fd == s.fd && AfterRead(s, n).mask == s.mask
  {
  }

  lemma {:induction false} SendAgrees(st: Net, op: Op)
    requires Core(st) && Registered(st) && Legal(|st.slots|, op) && (op.OpSend? || op.OpSendFd?) && Live(st, op.id)
    ensures Registered(Step(st, op)) <==> (!Live(Step(st, op), op.id) ==> CanForget(st.slots[op.id]))
  {
    hide SlotOk, ClosedOk, Distinct, Registered, Deliver;
    var s := st.slots[op.id];
    SameRegistration(st, st.(err := LS_ERR_STATUS));
    match op
    case OpSend(id, data, answer, np) => DeliverAgrees(st, id, Transmit(s, data, -1, answer), np);
    case OpSendFd(id, data, cfd, answer, np) => DeliverAgrees(st, id, Transmit(s, data, cfd, answer), np);
  }

  /** A set-up releases no slot that was live. */
  lemma {:induction false} SetupKeepsStreams(st: Net, op: Op)
    requires Core(st) && (op.OpBind? || op.OpListen? || op.OpConnect?)
    ensures StreamsKept(st, op)
  {
    hide SlotOk, ClosedOk, Distinct, Step;
    SetupFrame(st, op);
    if st.free != [] {
      assert st.free[0] in st.free;
    }
  }

  lemma {:induction false} SetupAgrees(st: Net, op: Op)
    requires (op.OpBind? || op.OpListen? || op.OpConnect?) && Core(st) && Registered(st) && KernelFair(st, op)
    ensures Registered(Step(st, op))
  {
    match op
    case OpBind(fd, udata, protocol, blocked) => BindAgrees(st, fd, udata, protocol, blocked);
    case OpListen(fd, udata, np) => ListenAgrees(st, fd, udata, np);
    case OpConnect(fd, udata, connecting, np) => ConnectAgrees(st, fd, udata, connecting, np);
  }

  /** Whatever the poller answers, after an operation every slot's mask is its registered interest, and there is no
      other registration, if and only if the operation releases no slot on a standard stream that has interest left. */
  lemma {:induction false} StepAgrees(st: Net, op: Op)
    requires Core(st) && Registered(st) && Legal(|st.slots|, op) && KernelFair(st, op)
    ensures Registered(Step(st, op)) <==> StreamsKept(st, op)
  {
    hide SlotOk, ClosedOk, Distinct, Registered, KernelFair, Read;
    match op
    case OpBind(_, _, _, _) => SetupAgrees(st, op); SetupKeepsStreams(st, op);
    case OpListen(_, _, _) => SetupAgrees(st, op); SetupKeepsStreams(st, op);
    case OpConnect(_, _, _, _) => SetupAgrees(st, op); SetupKeepsStreams(st, op);
    case OpHandle(w) => HandleAgrees(st, w);
    case _ => OwnAgrees(st, op);
  }

  lemma {:induction false} OwnAgrees(st: Net, op: Op)
    requires Core(st) && Registered(st) && Legal(|st.slots|, op)
    requires !op.OpBind? && !op.OpListen? && !op.OpConnect? && !op.OpHandle?
    ensures Registered(Step(st, op)) <==> StreamsKept(st, op)
  {
    hide SlotOk, ClosedOk, Distinct, Registered, Step;
    if !Live(st, op.id) {
      NoSlotIsNoted(st, op);
      SameRegistration(st, st.(err := LS_ERR_NOSOCK));
    } else if op.OpSend? || op.OpSendFd? {
      SendAgrees(st, op);
    } else if op.OpRead? {
      StepIsRead(st, op.id, op.answers);
      ReadAgrees(st, op.id, op.answers);
    } else {
      SmallAgrees(st, op);
    }
  }

  lemma {:induction false} NoSlotIsNoted(st: Net, op: Op)
    requires FreeInRange(st) && Legal(|st.slots|, op)
    requires !op.OpBind? && !op.OpListen? && !op.OpConnect? && !op.OpHandle? && !Live(st, op.id)
    ensures Step(st, op) == st.(err := LS_ERR_NOSOCK)
  {
  }

  lemma {:induction false} StepIsRead(st: Net, id: nat, answers: seq<ReadAnswer>)
    requires FreeInRange(st) && id < |st.slots|
    ensures Step(st, OpRead(id, answers)) == Read(st, id, answers).0
  {
  }

  /** Every operation of the run is given an unused descriptor; the poller may fail as it likes. */
  ghost predicate FairRun(st: Net, ops: seq<Op>)
    requires Core(st) && AllLegal(|st.slots|, ops)
    decreases ops
  {
    ops == [] ||
    (StepCore(st, ops[0]);
     StepFrame(st, ops[0]);
     KernelFair(st, ops[0]) && FairRun(Step(st, ops[0]), ops[1..]))
  }

  /** No operation of the run releases a slot on a standard stream that has interest left. */
  ghost predicate KeptRun(st: Net, ops: seq<Op>)
    requires Core(st) && AllLegal(|st.slots|, ops)
    decreases ops
  {
    ops == [] ||
    (StepCore(st, ops[0]);
     StepFrame(st, ops[0]);
     StreamsKept(st, ops[0]) && KeptRun(Step(st, ops[0]), ops[1..]))
  }

  ghost predicate RegisteredAfter(st: Net, ops: seq<Op>, k: nat)
    requires Core(st) && AllLegal(|st.slots|, ops) && k <= |ops|
  {
    Registered(Run(st, ops[..k]))
  }

  /** A run's prefixes, from its first operation on. */
  lemma {:induction false} RunPrefix(st: Net, ops: seq<Op>, k: nat)
    requires Core(st) && AllLegal(|st.slots|, ops) && k <= |ops|
    ensures k == 0 ==> Run(st, ops[..k]) == st
    ensures k > 0 ==> var st1 := Step(st, ops[0]);
                      && Core(st1) && AllLegal(|st1.slots|, ops[1..])
                      && Run(st, ops[..k]) == Run(st1, ops[1..][..k - 1])
  {
    hide SlotOk, ClosedOk, Distinct, Step;
    if k > 0 {
      StepCore(st, ops[0]);
      StepFrame(st, ops[0]);
      assert ops[..k][0] == ops[0] && ops[..k][1..] == ops[1..][..k - 1];
    }
  }

  /** Masks and registrations agree at every point of a run if and only if no operation of it releases a slot on a
      standard stream that has interest left. */
  lemma {:induction false} RunAgreesExactly(st: Net, ops: seq<Op>)
    requires Core(st) && Registered(st) && AllLegal(|st.slots|, ops) && FairRun(st, ops)
    ensures KeptRun(st, ops) <==> forall k: nat :: k <= |ops| ==> RegisteredAfter(st, ops, k)
    decreases ops
  {
    hide SlotOk, ClosedOk, Distinct, Registered, KernelFair, StreamsKept, Step;
    RunPrefix(st, ops, 0);
    assert RegisteredAfter(st, ops, 0);
    if ops != [] {
      var st1 := Step(st, ops[0]);
      StepCore(st, ops[0]);
      StepFrame(st, ops[0]);
      StepAgrees(st, ops[0]);
      RunPrefix(st, ops, 1);
      assert RegisteredAfter(st, ops, 1) <==> Registered(st1);
      if Registered(st1) {
        RunAgreesExactly(st1, ops[1..]);
        forall k: nat | k <= |ops| - 1
          ensures RegisteredAfter(st, ops, k + 1) <==> RegisteredAfter(st1, ops[1..], k)
        {
          RunPrefix(st, ops, k + 1);
        }
        assert forall k: nat :: 0 < k <= |ops| ==>
                 (RegisteredAfter(st, ops, k) <==> RegisteredAfter(st1, ops[1..], k - 1));
      }
    }
  }

  lemma {:induction false} RunAgrees(st: Net, ops: seq<Op>)
    requires Core(st) && Registered(st) && AllLegal(|st.slots|, ops) && FairRun(st, ops) && KeptRun(st, ops)
    ensures Registered(Run(st, ops))
  {
    hide Core, Registered, FairRun, KeptRun, Run;
    RunAgreesExactly(st, ops);
    assert ops[..|ops|] == ops;
    assert RegisteredAfter(st, ops, |ops|);
  }

  /** A run from a new table that is fair, and keeps standard streams in order, ends in `st`. */
  ghost predicate FairlyReaches(max: nat, ops: seq<Op>, st: Net) {
    InitCore(max);
    AllLegal(max, ops) && FairRun(Init(max), ops) && KeptRun(Init(max), ops) && Run(Init(max), ops) == st
  }

  /** In every table such a run reaches, whether or not its poller calls succeeded, each live slot's mask is its
      registered interest, and there is no other registration. */
  lemma {:induction false} MasksAreRegistered(max: nat, ops: seq<Op>, st: Net)
    requires FairlyReaches(max, ops, st)
    ensures Core(st) && Registered(st)
    ensures forall id: nat {:trigger Live(st, id)} :: Live(st, id) ==>
              var s := st.slots[id];
              if s.mask == NONE then s.fd !in st.np else s.fd in st.np && st.np[s.fd] == Reg(s.mask, id)
    ensures forall fd :: fd in st.np ==> Live(st, st.np[fd].owner) && st.slots[st.np[fd].owner].fd == fd
  {
    hide Core, FairRun, KeptRun, Run, AllLegal;
    InitCore(max);
    assert forall j: nat :: !Live(Init(max), j);
    RunAgrees(Init(max), ops);
    forall id: nat | Live(st, id)
      ensures SlotRegistered(st, id)
    {
    }
  }

  // ---------- write interest and queues ----------

  /** Past connecting, a slot has write interest exactly while it has something queued. */
  predicate SlotWired(s: Slot) {
    s.status != Connecting ==> (s.mask.w <==> s.queue != [])
  }

  ghost predicate Wired(st: Net) {
    forall id: nat :: Live(st, id) ==> SlotWired(st.slots[id])
  }

  /** A message leaves a first block behind: nothing was queued, the kernel did not refuse, did not take it all, and
      what is left is within the limit. */
  predicate LeavesRest(s: Slot, data: seq<byte>, answer: WriteAnswer) {
    && s.queue == [] && !answer.Fail?
    && var n := if answer.Wrote? then answer.n else 0;
    n < |data| && |data| - n <= s.slimit
  }

  /** A flush writes all that is queued. */
  predicate Drains(queue: seq<Block>, script: seq<WriteAnswer>) {
    queue != [] && Flush(queue, script).err == 0 && Flush(queue, script).queue == []
  }

  /** What puts write interest and a queue out of step: a first block queued while the poller refuses; a drained
      flush while it refuses, unless that ends the connection; a finished connect whose dropped interest, or kept one
      if the poller refuses, does not fit what was queued meanwhile; and a graceful close of a pending connect that
      has output queued but no write interest. */
  predicate Strands(st: Net, op: Op)
    requires Legal(|st.slots|, op)
  {
    match op
    case OpSend(id, data, answer, np) =>
      var s := st.slots[id];
      && s.status !in {Invalid, HalfClose, Connecting} && s.protocol == LS_PROTOCOL_TCP
      && !np.ok && LeavesRest(s, data, answer)
    case OpSendFd(id, data, _, answer, np) =>
      var s := st.slots[id];
      && s.status !in {Invalid, Connecting} && s.protocol == LS_PROTOCOL_IPC
      && !np.ok && LeavesRest(s, data, answer)
    case OpClose(id, force) =>
      var s := st.slots[id];
      s.status == Connecting && !force && s.queue != [] && !s.mask.w
    case OpHandle(w) =>
      var s := st.slots[w.id];
      if s.status == Connecting then w.connErr == 0 && ((!w.np.ok && s.mask.w) != (s.queue != []))
      else
        && s.status !in {Invalid, Listening, HalfClose} && s.protocol != LS_PROTOCOL_UDP
        && w.write && !w.np.ok && Drains(s.queue, w.script)
    case _ => false
  }

  /** A finished connect leaves write interest in step with the queue exactly when nothing was sent while
      it was pending: it drops all interest, queued output included. */
  lemma {:induction false} ConnectStrandsExactly(st: Net, id: nat, np: NpAnswer)
    requires Registered(st) && Live(st, id) && st.slots[id].status == Connecting && np.ok
    ensures var s' := OnConnect(st, id, 0, np).slots[id];
            && s'.status == Connected && s'.mask == NONE && s'.queue == st.slots[id].queue
            && (SlotWired(s') <==> st.slots[id].queue == [])
  {
    PutAgrees(st, id, st.slots[id].(status := Connected));
    SubscribeAgrees(Put(st, id, st.slots[id].(status := Connected)), id, NONE, true);
  }

  /** It happens: connect, send one byte before the connection is up, and the connection comes up with that
      byte queued and its descriptor unknown to the poller. */
  lemma {:induction false} SendBeforeConnectStrands()
    ensures var ok := NpAnswer(true, 1);
            var st1 := Connect(Init(1), 5, 0, true, ok).0;
            && FreeInRange(st1) && |st1.slots| == 1
            && var st2 := Send(st1, 0, [7], Again, ok).0;
            && FreeInRange(st2) && |st2.slots| == 1
            && var st3 := Handle(st2, Wakeup(0, false, true, NoConnection, 0, [], ok)).0;
            Live(st3, 0) && st3.slots[0].status == Connected && st3.slots[0].queue != [] && 5 !in st3.np
  {
    var ok := NpAnswer(true, 1);
    var st1 := Connect(Init(1), 5, 0, true, ok).0;
    assert st1.slots[0].status == Connecting && st1.slots[0].queue == [] && st1.free == [];
    assert st1.slots[0].mask == Mask(true, true) && 5 in st1.np;
    var st2 := Send(st1, 0, [7], Again, ok).0;
    assert st2.slots[0].status == Connecting && |st2.slots[0].queue| == 1;
  }

  /** It happens without a connect, too: one byte is queued on a connected slot while the poller refuses, and the
      descriptor is unknown to it. */
  lemma {:induction false} RefusedInterestStrands()
    ensures var st1 := Connect(Init(1), 5, 0, false, NpAnswer(true, 1)).0;
            && |st1.slots| == 1
            && var st2 := Send(st1, 0, [7], Again, NpAnswer(false, 1)).0;
            Live(st2, 0) && st2.slots[0].status == Connected && st2.slots[0].queue != [] && 5 !in st2.np
  {
    var st1 := Connect(Init(1), 5, 0, false, NpAnswer(true, 1)).0;
    assert st1.slots[0].status == Connected && st1.slots[0].queue == [] && st1.slots[0].mask == NONE && 5 !in st1.np;
  }

  /** The slot `id` is gone, or in step exactly unless the operation is one of those. */
  predicate WiredUnless(st': Net, id: nat, stranded: bool) {
    if Live(st', id) then SlotWired(st'.slots[id]) <==> !stranded else !stranded
  }

  lemma {:induction false} SendWired(st: Net, id: nat, data: seq<byte>, cfd: int, answer: WriteAnswer, np: NpAnswer)
    requires Registered(st) && Live(st, id) && SlotWired(st.slots[id]) && data != []
    ensures var s := st.slots[id];
            WiredUnless(Deliver(st, id, Transmit(s, data, cfd, answer), np), id,
                        s.status != Connecting && !np.ok && LeavesRest(s, data, answer))
  {
    hide Registered, Tag, Subscribe;
    var o := Transmit(st.slots[id], data, cfd, answer);
    PutAgrees(st, id, o.slot);
    SubscribeAgrees(Put(st, id, o.slot), id, Mask(o.slot.mask.r, true), np.ok);
  }

  lemma {:induction false} ReadyWired(st: Net, w: Wakeup)
    requires Core(st) && Registered(st) && Live(st, w.id) && SlotWired(st.slots[w.id])
    requires st.slots[w.id].status !in {Listening, Connecting}
    ensures WiredUnless(HandleReady(st, w).0, w.id, Strands(st, OpHandle(w)))
  {
    hide Registered, Subscribe, Flush;
    LiveOk(st, w.id);
    if w.write {
      var s := st.slots[w.id];
      var f := Flush(s.queue, w.script);
      var s1 := s.(queue := f.queue, wire := s.wire + f.wire);
      FlushConserves(s.queue, w.script, false);
      PutAgrees(st, w.id, s1);
      SubscribeAgrees(Put(st, w.id, s1), w.id, Mask(s.mask.r, false), w.np.ok);
    }
  }

  lemma {:induction false} OnConnectWired(st: Net, w: Wakeup)
    requires Registered(st) && Live(st, w.id) && st.slots[w.id].status == Connecting
    ensures WiredUnless(OnConnect(st, w.id, w.connErr, w.np), w.id, Strands(st, OpHandle(w)))
  {
    hide Registered, Subscribe;
    var id, s := w.id, st.slots[w.id];
    PutAgrees(st, id, s.(status := Connected));
    SubscribeAgrees(Put(st, id, s.(status := Connected)), id, NONE, w.np.ok);
  }

  lemma {:induction false} HandleWired(st: Net, w: Wakeup)
    requires Core(st) && Registered(st) && Live(st, w.id) && SlotWired(st.slots[w.id])
    ensures WiredUnless(Step(st, OpHandle(w)), w.id, Strands(st, OpHandle(w)))
  {
    hide SlotOk, ClosedOk, Distinct, Registered, HandleReady, OnConnect, Accept, SlotWired;
    if st.slots[w.id].status == Listening {
      ListenerStays(st, w);
    } else if st.slots[w.id].status == Connecting {
      OnConnectWired(st, w);
    } else {
      ReadyWired(st, w);
    }
  }

  lemma {:induction false} NewSlotWired(st: Net, op: Op, id: nat)
    requires Core(st) && Legal(|st.slots|, op) && !Live(st, id) && Live(Step(st, op), id)
    ensures SlotWired(Step(st, op).slots[id])
  {
    hide Core, Step;
    NewSlotIsBlank(st, op, id);
  }

  lemma {:induction false} OwnSlotWired(st: Net, op: Op)
    requires op.OpSend? || op.OpSendFd? || op.OpRead? || op.OpClose? || op.OpEnableRead? || op.OpUdata? || op.OpLimit?
    requires Core(st) && Registered(st) && Legal(|st.slots|, op) && Live(st, op.id) && SlotWired(st.slots[op.id])
    ensures WiredUnless(Step(st, op), op.id, Strands(st, op))
  {
    hide SlotOk, ClosedOk, Distinct, Transmit, Deliver, Registered, Settled, LeavesRest;
    match op
    case OpSend(id, data, answer, np) => SendWired(st, id, data, -1, answer, np);
    case OpSendFd(id, data, cfd, answer, np) => SendWired(st, id, data, cfd, answer, np);
    case _ =>
  }

  /** Only an operation on a live slot strands anything, and then that slot is the one it changes. */
  lemma {:induction false} StrandsOwn(st: Net, op: Op)
    requires Core(st) && Legal(|st.slots|, op) && Strands(st, op)
    ensures Live(st, Target(st, op)) && !op.OpBind? && !op.OpListen? && !op.OpConnect?
    ensures Target(st, op) == if op.OpHandle? then op.w.id else op.id
  {
    hide SlotOk, ClosedOk, Distinct, LeavesRest, Drains;
  }

  /** What happens to the slot an operation may change. */
  lemma {:induction false} TargetWired(st: Net, op: Op)
    requires Core(st) && Registered(st) && Wired(st) && Legal(|st.slots|, op)
    ensures WiredUnless(Step(st, op), Target(st, op), Strands(st, op))
  {
    hide SlotOk, ClosedOk, Distinct, Registered, SlotWired, Strands, Step;
    var id := Target(st, op);
    if Strands(st, op) {
      StrandsOwn(st, op);
    }
    if !Live(st, id) {
      if Live(Step(st, op), id) {
        NewSlotWired(st, op, id);
      }
    } else if op.OpBind? || op.OpListen? || op.OpConnect? {
      SetupFrame(st, op);
      if st.free != [] {
        FreeIsNotLive(st, id);
      }
    } else if op.OpHandle? {
      if st.free != [] {
        FreeIsNotLive(st, id);
      }
      HandleWired(st, op.w);
    } else {
      OwnSlotWired(st, op);
    }
  }

  /** Write interest follows the queues through an operation if and only if it is none of those that strand output. */
  lemma {:induction false} StepWired(st: Net, op: Op)
    requires Core(st) && Registered(st) && Wired(st) && Legal(|st.slots|, op)
    ensures Wired(Step(st, op)) <==> !Strands(st, op)
  {
    hide SlotOk, ClosedOk, Distinct, Registered, SlotWired, Strands, Step;
    StepFrame(st, op);
    TargetWired(st, op);
    var t := Target(st, op);
    if Strands(st, op) {
      StrandsOwn(st, op);
      StrandedStays(st, op);
      assert Live(Step(st, op), t) && !SlotWired(Step(st, op).slots[t]);
    } else {
      forall id: nat | Live(Step(st, op), id)
        ensures SlotWired(Step(st, op).slots[id])
      {
        assert Live(st, id) ==> SlotWired(st.slots[id]);
        assert t != id ==> Step(st, op).slots[id] == st.slots[id];
      }
    }
  }

  /** The stranded slot lives. */
  lemma {:induction false} StrandedStays(st: Net, op: Op)
    requires Core(st) && Registered(st) && Wired(st) && Legal(|st.slots|, op) && Strands(st, op)
    ensures Live(Step(st, op), Target(st, op))
  {
    hide SlotOk, ClosedOk, Distinct, Registered, SlotWired, Strands, Step;
    TargetWired(st, op);
  }

  // ---------- runs ----------

  /** No operation of the run strands output, or releases a slot on a standard stream that has interest left. */
  ghost predicate CalmRun(st: Net, ops: seq<Op>)
    requires Core(st) && AllLegal(|st.slots|, ops)
    decreases ops
  {
    ops == [] ||
    (StepCore(st, ops[0]);
     StepFrame(st, ops[0]);
     StreamsKept(st, ops[0]) && !Strands(st, ops[0]) && CalmRun(Step(st, ops[0]), ops[1..]))
  }

  /** After `k` operations registrations follow masks and write interest follows the queues. */
  ghost predicate InStepAfter(st: Net, ops: seq<Op>, k: nat)
    requires Core(st) && AllLegal(|st.slots|, ops) && k <= |ops|
  {
    Registered(Run(st, ops[..k])) && Wired(Run(st, ops[..k]))
  }

  /** Registrations follow masks and write interest follows the queues, at every point of a run, if and only if no
      operation of it strands output or leaves a standard stream registered. */
  lemma {:induction false} RunWiredExactly(st: Net, ops: seq<Op>)
    requires Core(st) && Registered(st) && Wired(st) && AllLegal(|st.slots|, ops) && FairRun(st, ops)
    ensures CalmRun(st, ops) <==> forall k: nat :: k <= |ops| ==> InStepAfter(st, ops, k)
    decreases ops
  {
    hide SlotOk, ClosedOk, Distinct, Registered, Wired, KernelFair, StreamsKept, Strands, Step;
    RunPrefix(st, ops, 0);
    assert InStepAfter(st, ops, 0);
    if ops != [] {
      var st1 := Step(st, ops[0]);
      StepCore(st, ops[0]);
      StepFrame(st, ops[0]);
      StepAgrees(st, ops[0]);
      StepWired(st, ops[0]);
      RunPrefix(st, ops, 1);
      assert InStepAfter(st, ops, 1) <==> Registered(st1) && Wired(st1);
      if Registered(st1) && Wired(st1) {
        RunWiredExactly(st1, ops[1..]);
        forall k: nat | k <= |ops| - 1
          ensures InStepAfter(st, ops, k + 1) <==> InStepAfter(st1, ops[1..], k)
        {
          RunPrefix(st, ops, k + 1);
        }
        assert forall k: nat :: 0 < k <= |ops| ==> (InStepAfter(st, ops, k) <==> InStepAfter(st1, ops[1..], k - 1));
      }
    }
  }

  /** A run from a new table that is fair and calm throughout ends in `st`. */
  ghost predicate CalmlyReaches(max: nat, ops: seq<Op>, st: Net) {
    InitCore(max);
    AllLegal(max, ops) && FairRun(Init(max), ops) && CalmRun(Init(max), ops) && Run(Init(max), ops) == st
  }

  /** No stranded output: in every table such a run reaches, a slot that is not still connecting has write
      interest registered with the poller exactly when it has something queued. */
  lemma {:induction false} NoStrandedOutput(max: nat, ops: seq<Op>, st: Net, id: nat)
    requires CalmlyReaches(max, ops, st) && Live(st, id) && st.slots[id].status != Connecting
    ensures var s := st.slots[id];
            s.queue != [] <==> s.fd in st.np && st.np[s.fd].owner == id && st.np[s.fd].mask.w
  {
    hide Core, FairRun, CalmRun, Run, AllLegal;
    InitCore(max);
    assert forall j: nat :: !Live(Init(max), j);
    RunWiredExactly(Init(max), ops);
    assert ops[..|ops|] == ops;
    assert InStepAfter(Init(max), ops, |ops|);
    assert SlotRegistered(st, id) && SlotWired(st.slots[id]);
  }

  // ---------- a plain way to stay calm ----------

  /** The poller call an operation makes succeeds, and nothing is sent before its connection is up. */
  predicate Quiet(st: Net, op: Op)
    requires Legal(|st.slots|, op)
  {
    match op
    case OpSend(id, _, _, np) => np.ok && st.slots[id].status != Connecting
    case OpSendFd(id, _, _, _, np) => np.ok && st.slots[id].status != Connecting
    case OpHandle(w) => w.np.ok
    case _ => true
  }

  /** Nothing is queued while a connect is pending. */
  ghost predicate Patient(st: Net) {
    forall id: nat :: Live(st, id) ==> SlotPatient(st.slots[id])
  }

  predicate SlotPatient(s: Slot) {
    s.status == Connecting ==> s.queue == []
  }

  /** A quiet operation strands nothing where nothing is queued on a pending connect. */
  lemma {:induction false} QuietIsCalm(st: Net, op: Op)
    requires Core(st) && Legal(|st.slots|, op) && Patient(st) && Quiet(st, op)
    ensures !Strands(st, op)
  {
    hide Core, LeavesRest, Drains;
    if op.OpHandle? && Live(st, op.w.id) {
      assert SlotPatient(st.slots[op.w.id]);
    } else if op.OpClose? && Live(st, op.id) {
      assert SlotPatient(st.slots[op.id]);
    }
  }

  lemma {:induction false} OwnSlotPatient(st: Net, op: Op)
    requires op.OpSend? || op.OpSendFd? || op.OpRead? || op.OpClose? || op.OpEnableRead? || op.OpUdata? || op.OpLimit?
    requires Core(st) && Legal(|st.slots|, op) && Live(st, op.id) && SlotPatient(st.slots[op.id]) && Quiet(st, op)
    ensures Live(Step(st, op), op.id) ==> SlotPatient(Step(st, op).slots[op.id])
  {
    hide SlotOk, ClosedOk, Distinct, Registered, Settled, Transmit;
    match op
    case OpSend(id, data, answer, np) => TransmitKeepsStatus(st.slots[id], data, -1, answer);
    case OpSendFd(id, data, cfd, answer, np) => TransmitKeepsStatus(st.slots[id], data, cfd, answer);
    case _ =>
  }

  lemma {:induction false} TransmitKeepsStatus(s: Slot, data: seq<byte>, cfd: int, answer: WriteAnswer)
    requires data != []
    ensures Transmit(s, data, cfd, answer).slot.status == s.status
  {
  }

  lemma {:induction false} HandlePatient(st: Net, w: Wakeup)
    requires Core(st) && Live(st, w.id) && SlotPatient(st.slots[w.id])
    ensures Live(Handle(st, w).0, w.id) ==> SlotPatient(Handle(st, w).0.slots[w.id])
  {
    hide SlotOk, ClosedOk, Distinct, SendBuffer;
    if st.slots[w.id].status == Listening {
      ListenerStays(st, w);
    } else if st.slots[w.id].status != Connecting {
      SendBufferEffect(st, w.id, w.script, w.np);
    }
  }

  lemma {:induction false} StepPatient(st: Net, op: Op)
    requires Core(st) && Legal(|st.slots|, op) && Patient(st) && Quiet(st, op)
    ensures Patient(Step(st, op))
  {
    hide SlotOk, ClosedOk, Distinct, Step, Handle;
    StepFrame(st, op);
    forall id: nat | Live(Step(st, op), id)
      ensures SlotPatient(Step(st, op).slots[id])
    {
      assert Live(st, id) ==> SlotPatient(st.slots[id]);
      if st.free != [] && Live(st, id) {
        FreeIsNotLive(st, id);
      }
      if Target(st, op) != id {
        assert Step(st, op).slots[id] == st.slots[id];
      } else if !Live(st, id) {
        NewSlotIsBlank(st, op, id);
      } else if op.OpHandle? {
        StepIsHandle(st, op.w);
        HandlePatient(st, op.w);
      } else if op.OpBind? || op.OpListen? || op.OpConnect? {
        SetupFrame(st, op);
      } else {
        OwnSlotPatient(st, op);
      }
    }
  }

  ghost predicate QuietRun(st: Net, ops: seq<Op>)
    requires Core(st) && AllLegal(|st.slots|, ops)
    decreases ops
  {
    ops == [] ||
    (StepCore(st, ops[0]);
     StepFrame(st, ops[0]);
     Quiet(st, ops[0]) && QuietRun(Step(st, ops[0]), ops[1..]))
  }

  /** With successful poller calls and no send before the connection is up, a run is calm as far as output goes. */
  lemma {:induction false} QuietRunIsCalm(st: Net, ops: seq<Op>)
    requires Core(st) && AllLegal(|st.slots|, ops) && Patient(st) && QuietRun(st, ops) && KeptRun(st, ops)
    ensures CalmRun(st, ops)
    decreases ops
  {
    hide SlotOk, ClosedOk, Distinct, Patient, Quiet, Strands, StreamsKept, Step;
    if ops != [] {
      StepCore(st, ops[0]);
      StepFrame(st, ops[0]);
      QuietIsCalm(st, ops[0]);
      StepPatient(st, ops[0]);
      QuietRunIsCalm(Step(st, ops[0]), ops[1..]);
    }
  }

  /** A fair run from a new table, quiet throughout, ends in `st`. */
  ghost predicate QuietlyReaches(max: nat, ops: seq<Op>, st: Net) {
    InitCore(max);
    FairlyReaches(max, ops, st) && QuietRun(Init(max), ops)
  }

  /** Such runs reach their tables calmly, and so strand nothing. */
  lemma {:induction false} QuietlyIsCalmly(max: nat, ops: seq<Op>, st: Net)
    requires QuietlyReaches(max, ops, st)
    ensures CalmlyReaches(max, ops, st)
  {
    InitCore(max);
    assert forall j: nat :: !Live(Init(max), j);
    QuietRunIsCalm(Init(max), ops);
  }
}
