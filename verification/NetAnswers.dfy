/** What each call on the socket table answers and leaves behind, said by what the kernel answered and by the slot
    before: return values, errors, data, interest, limits and records. */
module NetAnswers {
  import opened Bytes
  import opened Interest
  import opened NetModel
  import opened NetCore
  import opened NetRuns
  import opened NetTheorems
  import opened NetInterest

  // ---------- calls that name no live slot ----------

  /** A call on a free slot changes nothing but the noted error, and says so by its return value. */
  lemma {:induction false} NoSlotAnswers(st: Net, id: nat, data: seq<byte>, cfd: int, answer: WriteAnswer, np: NpAnswer,
      script: seq<ReadAnswer>, flag: bool, a: int, b: int)
    requires id < |st.slots| && !Live(st, id) && data != []
    ensures var noted := st.(err := LS_ERR_NOSOCK);
            && Send(st, id, data, answer, np) == (noted, -1)
            && SendFd(st, id, data, cfd, answer, np) == (noted, -1)
            && Read(st, id, script) == (noted, Received(-1, [], None))
            && SocketClose(st, id, flag) == (noted, 0)
            && EnableRead(st, id, flag, np) == (noted, 1)
            && SetUdata(st, id, a) == (noted, 1)
            && SetLimit(st, id, a, b) == (noted, 1)
  {
  }

  // ---------- reading ----------

  /** The first answer that is not EINTR stands at position `k`, or the script holds none and ends there. */
  predicate FirstAnswer(script: seq<ReadAnswer>, k: nat) {
    && k <= |script| && (forall i :: 0 <= i < k ==> script[i].ReadIntr?)
    && (k < |script| ==> !script[k].ReadIntr?)
  }

  lemma {:induction false} SettledIsFirst(script: seq<ReadAnswer>, k: nat)
    requires FirstAnswer(script, k)
    ensures Settled(script) == if k < |script| then script[k] else ReadAgain
    decreases k
  {
    if k > 0 {
      assert script[0].ReadIntr?;
      SettledIsFirst(script[1..], k - 1);
    }
  }

  /** The connection in slot `id` has ended in that way, with what it had on the wire and had been given. */
  predicate EndedAs(st: Net, st': Net, id: nat, why: Why)
    requires Live(st, id)
  {
    !Live(st', id) && st'.log == st.log + [Closed(id, why, st.slots[id].wire, st.slots[id].sent)]
  }

  /** The read size after `n` bytes: a fixed limit stays; otherwise a full read doubles it, and one that is not full
      halves it down to the initial size. */
  predicate Adapted(s: Slot, n: nat, size: int) {
    if s.rlimit != 0 then size == s.rbuffersz
    else if n == s.rbuffersz then size == s.rbuffersz + s.rbuffersz
    else if s.rbuffersz <= RBUFFER_SZ then size == s.rbuffersz
    else 2 * size <= s.rbuffersz <= 2 * size + 1
  }

  /** The read takes those bytes: nothing is lost of what fits, and only the read size and its history change. */
  predicate StreamRead(st: Net, st': Net, id: nat, data: seq<byte>, r: Received)
    requires Live(st, id)
  {
    var s := st.slots[id];
    && r.ret == |r.data| == Min(|data|, s.rbuffersz) && r.data <= data && r.fd == None
    && Live(st', id) && Adapted(s, |r.data|, st'.slots[id].rbuffersz)
    && st' == Put(st, id, s.(rbuffersz := st'.slots[id].rbuffersz, maxread := st'.slots[id].maxread))
  }

  /** `recvmsg` on an IPC socket: the bytes, and the descriptor with four more bytes for it. */
  predicate MessageRead(st: Net, st': Net, data: seq<byte>, fd: Option<int>, r: Received) {
    && |r.data| == Min(|data|, 64) && r.data <= data && r.fd == fd
    && r.ret == |r.data| + (if fd.Some? then 4 else 0) && st' == st
  }

  /** Nothing came: the slot is as it was. */
  predicate NothingRead(st: Net, st': Net, r: Received) {
    r.ret == 0 && r.data == [] && r.fd == None && st'.(err := st.err) == st
  }

  /** The peer is gone, or the message was flawed. */
  predicate ReadEnds(st: Net, st': Net, id: nat, e: int, r: Received)
    requires Live(st, id)
  {
    EndedAs(st, st', id, ReadEnded) && st'.err == e && r.ret == -1 && r.data == [] && r.fd == None
  }

  /** `socket_read` by the first answer of the kernel that is not EINTR. */
  lemma {:induction false} ReadAnswers(st: Net, id: nat, script: seq<ReadAnswer>, k: nat)
    requires Core(st) && Live(st, id) && FirstAnswer(script, k)
    ensures var s, (st', r) := st.slots[id], Read(st, id, script);
            var answer := if k < |script| then script[k] else ReadAgain;
            if s.protocol == LS_PROTOCOL_UDP then st' == st && r.ret == -1
            else
              match answer
              case ReadFail(e) => ReadEnds(st, st', id, e, r)
              case Got(data, fd, flaw) =>
                if data == [] then ReadEnds(st, st', id, LS_ERR_EOF, r)
                else if s.protocol == LS_PROTOCOL_IPC then
                  if flaw != 0 then ReadEnds(st, st', id, flaw, r) else MessageRead(st, st', data, fd, r)
                else if s.status == HalfClose then NothingRead(st, st', r) && st'.err == 0
                else StreamRead(st, st', id, data, r)
              case _ =>
                && NothingRead(st, st', r)
                && st'.err == if s.protocol == LS_PROTOCOL_TCP && s.status == HalfClose then 0 else st.err
  {
    hide ClosedOk, Distinct, Items, QueueOk, DoubledFrom64, Settled;
    SettledIsFirst(script, k);
    LiveOk(st, id);
  }

  // ---------- sending ----------

  /** How much of a message the kernel takes at once: only an empty queue lets it be asked. */
  function TakenAtOnce(s: Slot, data: seq<byte>, answer: WriteAnswer): (n: nat)
    ensures n <= |data|
  {
    if s.queue == [] && answer.Wrote? then Min(answer.n, |data|) else 0
  }

  /** What one accepted message leaves: the kernel has its first bytes; the rest, together with what waited before, is
      kept if it is within the limit, and ends the connection if it is not, as does an error. */
  predicate SendOutcome(st: Net, st': Net, id: nat, data: seq<byte>, cfd: int, answer: WriteAnswer)
    requires Live(st, id)
  {
    var s, n := st.slots[id], TakenAtOnce(st.slots[id], data, answer);
    var left, failed := |s.sent| + |data| - |s.wire| - n, s.queue == [] && answer.Fail?;
    var wire, sent := s.wire + Tag(data, cfd)[..n], s.sent + Tag(data, cfd);
    if failed || left > s.slimit then
      && !Live(st', id) && st'.log == st.log + [Closed(id, SendFailed, wire, sent)]
      && st'.err == if failed then answer.e else LS_ERR_WBUFOVER
    else
      && Live(st', id) && st'.log == st.log && st'.err == st.err
      && st'.slots[id].wire == wire && st'.slots[id].sent == sent
      && st'.slots[id].(wire := s.wire, sent := s.sent, queue := s.queue, mask := s.mask) == s
      && wire + Items(st'.slots[id].queue) == sent && Total(st'.slots[id].queue) == left
  }

  /** The return value of an accepted message: -1 if the connection ended or nothing could be written at once, 0 behind
      earlier output, otherwise what the kernel took; `whole` stands for a message it took whole. */
  predicate SendReturns(st: Net, st': Net, id: nat, data: seq<byte>, answer: WriteAnswer, whole: int, ret: int)
    requires Live(st, id)
  {
    ret == if !Live(st', id) then -1
           else if st.slots[id].queue != [] then 0
           else if !answer.Wrote? then -1
           else if answer.n >= |data| then whole
           else answer.n
  }

  lemma {:induction false} QueuedIsMissing(s: Slot)
    requires SlotOk(s)
    ensures Total(s.queue) == |s.sent| - |s.wire| && (Total(s.queue) == 0 <==> s.queue == [])
  {
    ItemsLength(s.queue);
    EmptyTotal(s.queue, s.protocol == LS_PROTOCOL_TCP);
  }

  /** The same of the slot alone. */
  lemma {:induction false} MessageKept(s: Slot, data: seq<byte>, cfd: int, answer: WriteAnswer)
    requires SlotOk(s) && data != []
    requires (s.protocol == LS_PROTOCOL_TCP && cfd == -1) || s.protocol == LS_PROTOCOL_IPC
    ensures var o, n := Transmit(s, data, cfd, answer), TakenAtOnce(s, data, answer);
            var left, failed := |s.sent| + |data| - |s.wire| - n, s.queue == [] && answer.Fail?;
            && (o.err == if failed then answer.e else if left > s.slimit then LS_ERR_WBUFOVER else 0)
            && o.slot.wire == s.wire + Tag(data, cfd)[..n] && o.slot.sent == s.sent + Tag(data, cfd)
            && o.slot.(wire := s.wire, sent := s.sent, queue := s.queue) == s
            && (o.err == 0 ==> o.slot.wire + Items(o.slot.queue) == o.slot.sent && Total(o.slot.queue) == left)
            && (o.err != 0 ==> o.slot.queue == s.queue)
            && o.ret == if o.err != 0 then -1 else if s.queue != [] then 0 else if !answer.Wrote? then -1 else n
  {
    TransmitOk(s, data, cfd, answer);
    QueuedIsMissing(s);
    var o := Transmit(s, data, cfd, answer);
    KeepsOthers(s, data, cfd, answer);
    if o.err == 0 {
      QueuedIsMissing(o.slot);
      assert o.slot.sent == o.slot.wire + Items(o.slot.queue);
    }
  }

  lemma {:induction false} KeepsOthers(s: Slot, data: seq<byte>, cfd: int, answer: WriteAnswer)
    requires data != [] && 0 < s.slimit
    ensures var o, n := Transmit(s, data, cfd, answer), TakenAtOnce(s, data, answer);
            var left := Total(s.queue) + |data| - n;
            && o.slot.wire == s.wire + Tag(data, cfd)[..n] && o.slot.sent == s.sent + Tag(data, cfd)
            && o.slot.(wire := s.wire, sent := s.sent, queue := s.queue) == s
            && (o.err == if s.queue == [] && answer.Fail? then answer.e
                         else if left > s.slimit then LS_ERR_WBUFOVER else 0)
            && (o.err != 0 ==> o.slot.queue == s.queue)
            && o.ret == if o.err != 0 then -1 else if s.queue != [] then 0 else if !answer.Wrote? then -1 else n
  {
    hide Tag;
    assert s.wire + Tag(data, cfd)[..0] == s.wire;
  }

  lemma {:induction false} MessageAnswers(st: Net, id: nat, data: seq<byte>, cfd: int, answer: WriteAnswer,
      np: NpAnswer)
    requires Core(st) && Live(st, id) && data != []
    requires var s := st.slots[id]; (s.protocol == LS_PROTOCOL_TCP && cfd == -1) || s.protocol == LS_PROTOCOL_IPC
    ensures SendOutcome(st, Dispatch(st, id, data, cfd, answer, np), id, data, cfd, answer)
    ensures SendReturns(st, Dispatch(st, id, data, cfd, answer, np), id, data, answer, |data|,
                        Transmit(st.slots[id], data, cfd, answer).ret)
  {
    hide SlotOk, Core, Tag, Items, Total, Transmit;
    assert SlotOk(st.slots[id]) by { LiveOk(st, id); }
    MessageKept(st.slots[id], data, cfd, answer);
  }

  /** `socket_send`: refused on any but an open stream slot; otherwise as above, the message counting as submitted, a
      descriptor never passed. */
  lemma {:induction false} SendAnswers(st: Net, id: nat, data: seq<byte>, answer: WriteAnswer, np: NpAnswer)
    requires Core(st) && Live(st, id) && data != []
    ensures var s, (st', ret) := st.slots[id], Send(st, id, data, answer, np);
            if s.protocol == LS_PROTOCOL_TCP && s.status != HalfClose then
              SendOutcome(st, st', id, data, -1, answer) && SendReturns(st, st', id, data, answer, |data|, ret)
            else st' == st.(err := LS_ERR_STATUS) && ret == -1
  {
    hide SlotOk, Core, SendOutcome, SendReturns, Dispatch, Transmit;
    if st.slots[id].protocol == LS_PROTOCOL_TCP {
      MessageAnswers(st, id, data, -1, answer, np);
    }
  }

  /** `socket_sendfd`: refused on any but an IPC slot; a message taken whole at once returns 0. */
  lemma {:induction false} SendFdAnswers(st: Net, id: nat, data: seq<byte>, cfd: int, answer: WriteAnswer, np: NpAnswer)
    requires Core(st) && Live(st, id) && data != []
    ensures var s, (st', ret) := st.slots[id], SendFd(st, id, data, cfd, answer, np);
            if s.protocol == LS_PROTOCOL_IPC then
              SendOutcome(st, st', id, data, cfd, answer) && SendReturns(st, st', id, data, answer, 0, ret)
            else st' == st.(err := LS_ERR_STATUS) && ret == -1
  {
    hide Core, Dispatch, Tag, Items;
    if st.slots[id].protocol == LS_PROTOCOL_IPC {
      assert SlotOk(st.slots[id]) by { LiveOk(st, id); }
      MessageAnswers(st, id, data, cfd, answer, np);
      if st.slots[id].queue == [] {
        WholeLeavesNothing(st.slots[id], data, cfd, answer);
      }
    }
  }

  lemma {:induction false} WholeLeavesNothing(s: Slot, data: seq<byte>, cfd: int, answer: WriteAnswer)
    requires SlotOk(s) && data != [] && s.queue == []
    ensures var o := Transmit(s, data, cfd, answer);
            o.err == 0 ==> (o.slot.queue == [] <==> answer.Wrote? && answer.n >= |data|)
  {
    hide Tag;
  }

  // ---------- small calls ----------

  /** `socket_close`: 1 exactly when the slot has output left and is not forced; then it is half-closed with everything
      else kept, and otherwise its connection ends. */
  lemma {:induction false} CloseAnswers(st: Net, id: nat, force: bool)
    requires Live(st, id)
    ensures var s, (st', ret) := st.slots[id], SocketClose(st, id, force);
            && (ret == 1 <==> s.queue != [] && !force) && (ret == 0 || ret == 1)
            && (ret == 1 ==> Live(st', id) && st' == Put(st, id, s.(status := HalfClose)))
            && (ret == 0 ==> EndedAs(st, st', id, Asked) && st'.err == st.err)
  {
  }

  /** Other registrations than that of `fd` are as before. */
  predicate OthersRegistered(np: map<int, Reg>, np': map<int, Reg>, fd: int) {
    np' - {fd} == np - {fd}
  }

  /** `socket_enableread`: a willing poller gives the slot exactly the read interest asked for and leaves write interest
      alone; a refusing one leaves everything alone, and the call says so exactly if something had to change. */
  lemma {:induction false} EnableReadAnswers(st: Net, id: nat, read: bool, np: NpAnswer)
    requires Registered(st) && Live(st, id)
    ensures var s, (st', ret) := st.slots[id], EnableRead(st, id, read, np);
            && (np.ok ==>
                  && ret == 0 && Live(st', id) && st'.slots[id].mask.r == read && st'.slots[id].mask.w == s.mask.w
                  && st'.(np := st.np) == Put(st, id, s.(mask := st'.slots[id].mask))
                  && OthersRegistered(st.np, st'.np, s.fd)
                  && (read ==> s.fd in st'.np && st'.np[s.fd].owner == id && st'.np[s.fd].mask.r)
                  && (s.fd in st'.np && st'.np[s.fd].mask.r ==> read))
            && (!np.ok ==> st' == st && (ret != 0 <==> s.mask.r != read))
  {
    SubscribeAgrees(st, id, Mask(read, st.slots[id].mask.w), np.ok);
    assert SlotRegistered(st, id);
    var st' := EnableRead(st, id, read, np).0;
    assert st.slots[id := st.slots[id]] == st.slots;
    assert Live(st', id) ==> SlotRegistered(st', id);
  }

  /** `socket_udata`: the owner's value and nothing else. */
  lemma {:induction false} UdataAnswers(st: Net, id: nat, udata: int)
    requires Live(st, id)
    ensures var (st', ret) := SetUdata(st, id, udata);
            && ret == 0 && Live(st', id) && st'.slots[id].udata == udata
            && st' == Put(st, id, st'.slots[id]) && st'.slots[id].(udata := st.slots[id].udata) == st.slots[id]
  {
  }

  /** `socket_limit`: a positive limit is set, any other means the greatest C integer for sending and adaptive reading;
      a read limit sets the read size with it, and lifting one leaves the size as it is. */
  lemma {:induction false} LimitAnswers(st: Net, id: nat, slimit: int, rlimit: int)
    requires Live(st, id)
    ensures var s, (st', ret) := st.slots[id], SetLimit(st, id, slimit, rlimit);
            && ret == 0 && Live(st', id)
            && st'.slots[id].slimit == (if slimit > 0 then slimit else 2147483647)
            && (rlimit > 0 ==> st'.slots[id].rlimit == rlimit == st'.slots[id].rbuffersz)
            && (rlimit <= 0 ==> st'.slots[id].rlimit == 0 && st'.slots[id].rbuffersz == s.rbuffersz)
            && st'.slots[id].limited
            && st' == Put(st, id, s.(slimit := st'.slots[id].slimit, rlimit := st'.slots[id].rlimit,
                                     rbuffersz := st'.slots[id].rbuffersz, limited := true))
  {
  }

  // ---------- flushing ----------

  /** The kernel's answers with EINTR left out. */
  function Settling(script: seq<WriteAnswer>): seq<WriteAnswer> {
    if script == [] then [] else (if script[0].Intr? then [] else [script[0]]) + Settling(script[1..])
  }

  /** The first `m` blocks are taken whole, one answer each. */
  predicate TakenWhole(queue: seq<Block>, answers: seq<WriteAnswer>, m: nat) {
    && m <= |queue| && m <= |answers|
    && forall i :: 0 <= i < m ==> answers[i].Wrote? && answers[i].n >= |queue[i].data|
  }

  /** And the flush ends there: nothing is left, no answer is left, or the next block is not taken whole. */
  predicate StopsAt(queue: seq<Block>, answers: seq<WriteAnswer>, m: nat) {
    && TakenWhole(queue, answers, m)
    && (m < |queue| && m < |answers| ==> !(answers[m].Wrote? && answers[m].n >= |queue[m].data|))
  }

  lemma {:induction false} FindStop(queue: seq<Block>, answers: seq<WriteAnswer>) returns (m: nat)
    ensures StopsAt(queue, answers, m)
    decreases |queue|
  {
    if queue == [] || answers == [] || !(answers[0].Wrote? && answers[0].n >= |queue[0].data|) {
      m := 0;
    } else {
      var k := FindStop(queue[1..], answers[1..]);
      m := k + 1;
      forall i | 0 <= i < m
        ensures answers[i].Wrote? && answers[i].n >= |queue[i].data|
      {
        if i > 0 {
          assert answers[1..][i - 1] == answers[i] && queue[1..][i - 1] == queue[i];
        }
      }
      assert m < |queue| && m < |answers| ==> answers[1..][k] == answers[m] && queue[1..][k] == queue[m];
    }
  }

  /** What a flush that stops at block `m` has put on the wire: the blocks before it, and of that one what the last
      answer took. */
  function Written(queue: seq<Block>, answers: seq<WriteAnswer>, m: nat): seq<Item>
    requires StopsAt(queue, answers, m)
  {
    Items(queue[..m]) +
    if m < |queue| && m < |answers| && answers[m].Wrote? then Tag(queue[m].data, queue[m].fd)[..answers[m].n] else []
  }

  /** The error it ends with. */
  function FlushError(queue: seq<Block>, answers: seq<WriteAnswer>, m: nat): int {
    if m < |queue| && m < |answers| && answers[m].Fail? then answers[m].e else 0
  }

  /** A flush, said by where the kernel's answers make it stop. */
  lemma {:induction false} FlushIsExact(queue: seq<Block>, script: seq<WriteAnswer>, m: nat, tcp: bool)
    requires QueueOk(queue, tcp) && StopsAt(queue, Settling(script), m)
    ensures var f, answers := Flush(queue, script), Settling(script);
            && f.wire == Written(queue, answers, m) && f.err == FlushError(queue, answers, m)
            && |f.queue| == |queue| - m && f.wire + Items(f.queue) == Items(queue)
    decreases |script|
  {
    hide Tag, StopsAt, Written, FlushError, Items, Flush;
    FlushConserves(queue, script, tcp);
    if queue == [] || script == [] || !(script[0].Intr? || (script[0].Wrote? && script[0].n >= |queue[0].data|)) {
      FlushStopsNow(queue, script, m, tcp);
    } else if script[0].Intr? {
      FlushPassesIntr(queue, script);
      FlushIsExact(queue, script[1..], m, tcp);
    } else {
      WholeBlockStop(queue, script, m);
      FlushTakesBlock(queue, script, tcp);
      FlushIsExact(queue[1..], script[1..], m - 1, tcp);
      WrittenCons(queue, Settling(script), m);
    }
  }

  /** Nothing to do, no answer, or one that does not take the first block whole. */
  lemma {:induction false} FlushStopsNow(queue: seq<Block>, script: seq<WriteAnswer>, m: nat, tcp: bool)
    requires QueueOk(queue, tcp) && StopsAt(queue, Settling(script), m)
    requires queue == [] || script == [] || !(script[0].Intr? || (script[0].Wrote? && script[0].n >= |queue[0].data|))
    ensures var f, answers := Flush(queue, script), Settling(script);
            && f.wire == Written(queue, answers, m) && f.err == FlushError(queue, answers, m)
            && |f.queue| == |queue| - m
  {
    hide Tag;
    assert m == 0;
    assert queue[..0] == [];
    if queue != [] && script != [] {
      assert Settling(script)[0] == script[0];
    }
  }

  lemma {:induction false} FlushPassesIntr(queue: seq<Block>, script: seq<WriteAnswer>)
    requires queue != [] && script != [] && script[0].Intr?
    ensures Flush(queue, script) == Flush(queue, script[1..]) && Settling(script) == Settling(script[1..])
  {
  }

  lemma {:induction false} FlushTakesBlock(queue: seq<Block>, script: seq<WriteAnswer>, tcp: bool)
    requires QueueOk(queue, tcp) && queue != [] && script != []
    requires script[0].Wrote? && script[0].n >= |queue[0].data|
    ensures QueueOk(queue[1..], tcp)
    ensures var rest := Flush(queue[1..], script[1..]);
            Flush(queue, script) == rest.(wire := Tag(queue[0].data, queue[0].fd) + rest.wire)
  {
    hide Tag;
    assert queue[0].data != [];
  }

  /** Behind a block taken whole the flush stops one block later. */
  lemma {:induction false} WholeBlockStop(queue: seq<Block>, script: seq<WriteAnswer>, m: nat)
    requires queue != [] && script != [] && script[0].Wrote? && script[0].n >= |queue[0].data|
    requires StopsAt(queue, Settling(script), m)
    ensures m > 0 && Settling(script)[1..] == Settling(script[1..])
    ensures StopsAt(queue[1..], Settling(script[1..]), m - 1)
  {
    var a, rest := Settling(script), Settling(script[1..]);
    assert a[0] == script[0] && a[1..] == rest;
    assert m > 0;
    forall i | 0 <= i < m - 1
      ensures rest[i].Wrote? && rest[i].n >= |queue[1..][i].data|
    {
      assert rest[i] == a[i + 1] && queue[1..][i] == queue[i + 1];
    }
    assert m < |queue| && m < |a| ==> rest[m - 1] == a[m] && queue[1..][m - 1] == queue[m];
  }

  lemma {:induction false} WrittenCons(queue: seq<Block>, answers: seq<WriteAnswer>, m: nat)
    requires 0 < m && StopsAt(queue, answers, m) && StopsAt(queue[1..], answers[1..], m - 1)
    ensures Written(queue, answers, m) == Tag(queue[0].data, queue[0].fd) + Written(queue[1..], answers[1..], m - 1)
    ensures FlushError(queue, answers, m) == FlushError(queue[1..], answers[1..], m - 1)
  {
    hide Tag;
    assert queue[..m][0] == queue[0] && queue[..m][1..] == queue[1..][..m - 1];
    assert m < |queue| ==> queue[1..][m - 1] == queue[m];
    assert m < |answers| ==> answers[1..][m - 1] == answers[m];
  }
}
