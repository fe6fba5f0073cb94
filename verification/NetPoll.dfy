/** One call of `socket_poll`: the batch of wakeups it handles and the events it returns. */
module NetPoll {
  import opened Bytes
  import opened Interest
  import opened NetModel
  import opened NetCore
  import opened NetRuns
  import opened NetTheorems
  import opened NetInterest
  import opened NetAnswers

  function AsSeq(e: Option<Event>): seq<Event> {
    if e.Some? then [e.value] else []
  }

  predicate BatchInRange(st: Net, batch: seq<Wakeup>) {
    forall k :: 0 <= k < |batch| ==> batch[k].id < |st.slots|
  }

  /** The loop of `socket_poll`: wakeups are handled in order, the events they raise returned in order. */
  function Poll(st: Net, batch: seq<Wakeup>): (Net, seq<Event>)
    requires Core(st) && BatchInRange(st, batch)
    decreases batch
  {
    if batch == [] then (st, [])
    else
      HandleCore(st, batch[0]);
      HandleFrame(st, batch[0]);
      var (st1, e) := Handle(st, batch[0]);
      var (r, events) := Poll(st1, batch[1..]);
      (r, AsSeq(e) + events)
  }

  function AsOps(batch: seq<Wakeup>): seq<Op> {
    if batch == [] then [] else [OpHandle(batch[0])] + AsOps(batch[1..])
  }

  lemma {:induction false} AsOpsLegal(max: nat, batch: seq<Wakeup>)
    requires forall k :: 0 <= k < |batch| ==> batch[k].id < max
    ensures AllLegal(max, AsOps(batch))
  {
    if batch != [] {
      AsOpsLegal(max, batch[1..]);
    }
  }

  /** A poll is a run of its wakeups, so all that holds of runs holds of polls. */
  lemma {:induction false} PollIsRun(st: Net, batch: seq<Wakeup>)
    requires Core(st) && BatchInRange(st, batch)
    ensures AllLegal(|st.slots|, AsOps(batch)) && Run(st, AsOps(batch)) == Poll(st, batch).0
    decreases batch
  {
    hide SlotOk, ClosedOk, Distinct, Handle;
    AsOpsLegal(|st.slots|, batch);
    if batch != [] {
      HandleCore(st, batch[0]);
      HandleFrame(st, batch[0]);
      PollIsRun(Handle(st, batch[0]).0, batch[1..]);
      assert AsOps(batch)[1..] == AsOps(batch[1..]);
    }
  }

  // ---------- coherence of one batch ----------

  /** The event says its slot can be used. */
  predicate Opens(kind: Kind) {
    kind in {LS_EREAD, LS_EACCEPT, LS_ECONNECT, LS_ECONN_THEN_READ}
  }

  /** How the connection an event reports closed has ended. */
  function Ending(kind: Kind): Why
    requires !Opens(kind)
  {
    match kind
    case LS_ECONNERR => ConnectFailed
    case LS_EWRIDONECLOSE => Drained
    case _ => SendFailed
  }

  predicate InBatch(batch: seq<Wakeup>, id: nat) {
    exists k :: 0 <= k < |batch| && batch[k].id == id
  }

  /** Between `from` and the end of the log a connection in slot `id` ended that way. */
  predicate Logged(log: seq<Closed>, from: nat, id: nat, why: Why) {
    exists k :: from <= k < |log| && log[k].id == id && log[k].why == why
  }

  /** A listener's wakeup: an accept is reported if and only if the kernel gave a connection that can be made
      non-blocking and a slot was free; the event names the new slot, a blank stream connection on that descriptor with
      the listener's owner data and send limit, and its listener. */
  predicate AcceptReport(st: Net, w: Wakeup, st1: Net, report: Option<Event>)
    requires Live(st, w.id)
  {
    var lis := st.slots[w.id];
    && Live(st1, w.id) && st1.slots[w.id] == lis
    && (report.Some? <==> w.accepted.Connection? && w.accepted.nonblocking && st.free != [])
    && (report.None? && st.free != [] ==> !Live(st1, st.free[0]))
    && (report.Some? ==>
          && !Live(st, st.free[0]) && Live(st1, st.free[0])
          && report.value == Event(LS_EACCEPT, st.free[0], lis.udata, Some(w.id as int))
          && var s := st1.slots[st.free[0]];
          && s.status == Connected && s.fd == w.accepted.fd && s.protocol == 0 && s.mask == Mask(false, false)
          && s.udata == lis.udata && s.slimit == lis.slimit && Blank(s))
  }

  /** The wakeup of a pending connect always reports: the error exactly if there is one, and otherwise that the
      connection is up, together with readiness exactly if it is readable already. */
  predicate ConnectReport(st: Net, w: Wakeup, st1: Net, report: Option<Event>)
    requires Live(st, w.id)
  {
    && report.Some?
    && report.value.kind == (if w.connErr != 0 then LS_ECONNERR else if w.read then LS_ECONN_THEN_READ else LS_ECONNECT)
    && report.value.id == w.id && report.value.udata == st.slots[w.id].udata && report.value.detail == Some(w.connErr)
    && (w.connErr == 0 ==> Live(st1, w.id) && st1.slots[w.id].status == Connected && st1.log == st.log)
    && (w.connErr != 0 ==> EndedAs(st, st1, w.id, ConnectFailed))
  }

  /** The wakeup of any other slot, whose flush, if it is writable, stops at block `m`: an error the kernel answered is
      reported and ends the connection with what it had written; a half-closed slot that is drained is reported so and
      ends; otherwise the slot lives, has written that much, and is reported readable exactly if it is. */
  predicate ReadyReport(st: Net, w: Wakeup, st1: Net, report: Option<Event>, m: nat)
    requires Live(st, w.id)
  {
    var s, answers := st.slots[w.id], Settling(w.script);
    && StopsAt(s.queue, answers, m)
    && if w.write && m < |s.queue| && m < |answers| && answers[m].Fail? then
      && report == Some(Event(LS_ESOCKERR, w.id, s.udata, Some(answers[m].e))) && !Live(st1, w.id)
      && st1.log == st.log + [Closed(w.id, SendFailed, s.wire + Written(s.queue, answers, m), s.sent)]
    else if w.write && m == |s.queue| && s.status == HalfClose then
      && report == Some(Event(LS_EWRIDONECLOSE, w.id, s.udata, None)) && !Live(st1, w.id)
      && st1.log == st.log + [Closed(w.id, Drained, s.sent, s.sent)]
    else
      && report == (if w.read then Some(Event(LS_EREAD, w.id, s.udata, None)) else None)
      && Live(st1, w.id) && st1.log == st.log && st1.slots[w.id].sent == s.sent && st1.slots[w.id].status == s.status
      && st1.slots[w.id].wire == s.wire + (if w.write then Written(s.queue, answers, m) else [])
  }

  /** What one wakeup of a live slot does and reports, by the slot's status. */
  ghost predicate ReportOk(st: Net, w: Wakeup, st1: Net, report: Option<Event>)
    requires Live(st, w.id)
  {
    match st.slots[w.id].status
    case Listening => AcceptReport(st, w, st1, report)
    case Connecting => ConnectReport(st, w, st1, report)
    case _ => exists m: nat :: ReadyReport(st, w, st1, report, m)
  }

  lemma {:induction false} AcceptReports(st: Net, w: Wakeup)
    requires Core(st) && Live(st, w.id) && st.slots[w.id].status == Listening
    ensures AcceptReport(st, w, Handle(st, w).0, Handle(st, w).1)
  {
    hide ClosedOk, Distinct, Items, QueueOk, ReadSizeOk;
    assert SlotOk(st.slots[w.id]) by { LiveOk(st, w.id); }
    if st.free != [] {
      FreeIsNotLive(st, w.id);
      assert st.free[0] in st.free && !Live(st, st.free[0]);
    }
  }

  lemma {:induction false} ConnectReports(st: Net, w: Wakeup)
    requires Core(st) && Live(st, w.id) && st.slots[w.id].status == Connecting
    ensures ConnectReport(st, w, Handle(st, w).0, Handle(st, w).1)
  {
    hide Core;
  }

  lemma {:induction false} StopInRange(queue: seq<Block>, answers: seq<WriteAnswer>, m: nat)
    requires StopsAt(queue, answers, m)
    ensures m <= |queue| && m <= |answers|
  {
  }

  lemma {:induction false} ReadyReports(st: Net, w: Wakeup) returns (m: nat)
    requires Core(st) && Live(st, w.id)
    ensures ReadyReport(st, w, HandleReady(st, w).0, HandleReady(st, w).1, m)
  {
    hide SlotOk, ClosedOk, Distinct, SendBuffer, Settling, StopsAt, Written, Flush, Items;
    var s := st.slots[w.id];
    m := FindStop(s.queue, Settling(w.script));
    SendBufferEffect(st, w.id, w.script, w.np);
    ReadyFlush(st, w, m);
    assert s.wire + [] == s.wire;
    assert m <= |s.queue| by { StopInRange(s.queue, Settling(w.script), m); }
  }

  /** What the flush of a live slot leaves, by where it stops. */
  lemma {:induction false} ReadyFlush(st: Net, w: Wakeup, m: nat)
    requires Core(st) && Live(st, w.id) && StopsAt(st.slots[w.id].queue, Settling(w.script), m)
    ensures var s, answers := st.slots[w.id], Settling(w.script);
            var (st1, err) := SendBuffer(st, w.id, w.script, w.np);
            && w.id < |st1.slots| && err == FlushError(s.queue, answers, m)
            && st1.slots[w.id].wire == s.wire + Written(s.queue, answers, m)
            && (st1.slots[w.id].queue == [] <==> m == |s.queue|)
            && (m == |s.queue| ==> s.wire + Written(s.queue, answers, m) == s.sent)
  {
    hide ClosedOk, Distinct, Settling, StopsAt, Written, Flush, Subscribe, FlushError, Items;
    LiveOk(st, w.id);
    var s := st.slots[w.id];
    FlushIsExact(s.queue, w.script, m, false);
    NoItems();
    if s.queue == [] {
      NothingWritten(s.queue, Settling(w.script), m);
      assert s.wire + [] == s.wire;
    }
    SendBufferEffect(st, w.id, w.script, w.np);
    assert m == |s.queue| ==> Flush(s.queue, w.script).queue == [];
    var f := Flush(s.queue, w.script);
    assert m == |s.queue| ==> f.wire + Items(f.queue) == f.wire;
  }

  lemma {:induction false} NothingWritten(queue: seq<Block>, answers: seq<WriteAnswer>, m: nat)
    requires queue == [] && StopsAt(queue, answers, m)
    ensures m == 0 && Written(queue, answers, m) == [] && FlushError(queue, answers, m) == 0
  {
    assert queue[..0] == [];
  }

  lemma {:induction false} HandleReports(st: Net, w: Wakeup)
    requires Core(st) && Live(st, w.id)
    ensures ReportOk(st, w, Handle(st, w).0, Handle(st, w).1)
  {
    hide SlotOk, ClosedOk, Distinct, AcceptReport, ConnectReport, ReadyReport, HandleReady, OnConnect, Accept;
    match st.slots[w.id].status
    case Listening => AcceptReports(st, w);
    case Connecting => ConnectReports(st, w);
    case _ => var m := ReadyReports(st, w);
  }

  /** In every report: the owner data, whose slot it names, and whether that slot lives. */
  predicate ReportShape(st: Net, w: Wakeup, st1: Net, report: Option<Event>)
    requires Live(st, w.id)
  {
    match report
    case None => Live(st1, w.id)
    case Some(e) =>
      && e.udata == st.slots[w.id].udata
      && if e.kind == LS_EACCEPT then !Live(st, e.id) && Live(st1, e.id) && Live(st1, w.id)
      else
        && e.id == w.id
        && (if Opens(e.kind) then Live(st1, w.id)
            else !Live(st1, w.id) && |st1.log| == |st.log| + 1
                 && st1.log[|st.log|].id == w.id && st1.log[|st.log|].why == Ending(e.kind))
  }

  lemma {:induction false} HandleShape(st: Net, w: Wakeup)
    requires Core(st) && Live(st, w.id)
    ensures ReportShape(st, w, Handle(st, w).0, Handle(st, w).1)
  {
    hide Core, Handle, StopsAt, Written, Settling, Blank;
    HandleReports(st, w);
  }

  /** An accepted connection takes the next message: it is submitted on it. */
  lemma {:induction false} AcceptedCanSend(st: Net, w: Wakeup, op: Op)
    requires Core(st) && Live(st, w.id) && st.slots[w.id].status == Listening && Handle(st, w).1.Some?
    requires op.OpSend? && op.id == Handle(st, w).1.value.id
    ensures Live(Handle(st, w).0, op.id) && Accepted(Handle(st, w).0, op, op.id) == Tag(op.data, -1)
  {
    hide Core, Handle, Blank;
    AcceptReports(st, w);
  }

  /** The slots of later wakeups, and all others that are live, are untouched by this one. */
  lemma {:induction false} HandleSpares(st: Net, w: Wakeup, id: nat)
    requires Core(st) && Live(st, w.id) && Live(st, id) && id != w.id
    ensures Live(Handle(st, w).0, id) && Handle(st, w).0.slots[id] == st.slots[id]
  {
    hide SlotOk, ClosedOk, Distinct, Handle;
    HandleFrame(st, w);
    if st.free != [] {
      FreeIsNotLive(st, id);
    }
  }

  predicate DistinctIds(batch: seq<Wakeup>) {
    forall i, j :: 0 <= i < j < |batch| ==> batch[i].id != batch[j].id
  }

  predicate AllLive(st: Net, batch: seq<Wakeup>) {
    forall k :: 0 <= k < |batch| ==> Live(st, batch[k].id)
  }

  /** What one event of a batch means once the poll is over. */
  predicate EventOk(st: Net, r: Net, batch: seq<Wakeup>, e: Event) {
    && (Opens(e.kind) ==> Live(r, e.id))
    && (!Opens(e.kind) ==> Logged(r.log, |st.log|, e.id, Ending(e.kind)))
    && (e.kind != LS_EACCEPT ==> InBatch(batch, e.id))
    && (e.kind == LS_EACCEPT ==> !Live(st, e.id) || InBatch(batch, e.id))
  }

  /** One id in two events of a batch: the first reports its closing, the second the accept that reused it. */
  predicate PairOk(e: Event, later: Event) {
    e.id == later.id ==> !Opens(e.kind) && later.kind == LS_EACCEPT
  }

  ghost predicate Coherent(st: Net, r: Net, batch: seq<Wakeup>, events: seq<Event>) {
    && |events| <= |batch|
    && (forall i :: 0 <= i < |events| ==> EventOk(st, r, batch, events[i]))
    && (forall i, j :: 0 <= i < j < |events| ==> PairOk(events[i], events[j]))
    && (forall id: nat :: Live(st, id) && !InBatch(batch, id) ==> Live(r, id) && r.slots[id] == st.slots[id])
  }

  lemma {:induction false} InBatchCons(batch: seq<Wakeup>, id: nat)
    requires batch != []
    ensures InBatch(batch, id) <==> batch[0].id == id || InBatch(batch[1..], id)
  {
    if InBatch(batch[1..], id) {
      var k :| 0 <= k < |batch[1..]| && batch[1..][k].id == id;
      assert batch[k + 1].id == id;
    }
    if InBatch(batch, id) && batch[0].id != id {
      var k :| 0 <= k < |batch| && batch[k].id == id;
      assert batch[1..][k - 1].id == id;
    }
  }

  lemma {:induction false} LaterEventOk(st: Net, st1: Net, r: Net, batch: seq<Wakeup>, e: Event)
    requires Core(st) && batch != [] && AllLive(st, batch) && st1 == Handle(st, batch[0]).0
    requires EventOk(st1, r, batch[1..], e)
    ensures EventOk(st, r, batch, e)
  {
    hide SlotOk, ClosedOk, Distinct, Handle;
    HandleFrame(st, batch[0]);
    InBatchCons(batch, e.id);
    if !Opens(e.kind) {
      var k :| |st1.log| <= k < |r.log| && r.log[k].id == e.id && r.log[k].why == Ending(e.kind);
      assert |st.log| <= k;
    }
    if e.kind == LS_EACCEPT && Live(st, e.id) && e.id != batch[0].id {
      HandleSpares(st, batch[0], e.id);
    }
  }

  lemma {:induction false} FirstEventOk(st: Net, r: Net, batch: seq<Wakeup>, events: seq<Event>, e: Event)
    requires Core(st) && batch != [] && AllLive(st, batch) && DistinctIds(batch)
    requires Handle(st, batch[0]).1 == Some(e)
    requires var st1 := Handle(st, batch[0]).0; st1.log <= r.log && Coherent(st1, r, batch[1..], events)
    ensures EventOk(st, r, batch, e)
    ensures forall j :: 0 <= j < |events| ==> PairOk(e, events[j])
  {
    hide SlotOk, ClosedOk, Distinct, Handle;
    var st1 := Handle(st, batch[0]).0;
    HandleShape(st, batch[0]);
    HandleFrame(st, batch[0]);
    InBatchCons(batch, e.id);
    NotLater(st, batch, e.id);
    if !Opens(e.kind) {
      assert r.log[|st.log|] == st1.log[|st.log|];
    }
    forall j | 0 <= j < |events|
      ensures PairOk(e, events[j])
    {
      assert EventOk(st1, r, batch[1..], events[j]);
    }
  }

  /** The id of the first wakeup, and that of a slot that is not live, is not met again in the batch. */
  lemma {:induction false} NotLater(st: Net, batch: seq<Wakeup>, id: nat)
    requires batch != [] && AllLive(st, batch) && DistinctIds(batch)
    requires id == batch[0].id || !Live(st, id)
    ensures !InBatch(batch[1..], id)
  {
    forall k | 0 <= k < |batch[1..]|
      ensures batch[1..][k].id != id
    {
      assert batch[1..][k] == batch[k + 1];
    }
  }

  lemma {:induction false} RestIsLive(st: Net, batch: seq<Wakeup>)
    requires Core(st) && batch != [] && AllLive(st, batch) && DistinctIds(batch)
    ensures AllLive(Handle(st, batch[0]).0, batch[1..]) && DistinctIds(batch[1..])
  {
    hide SlotOk, ClosedOk, Distinct, Handle;
    forall k | 0 <= k < |batch[1..]|
      ensures Live(Handle(st, batch[0]).0, batch[1..][k].id)
    {
      assert batch[1..][k] == batch[k + 1];
      HandleSpares(st, batch[0], batch[k + 1].id);
    }
  }

  lemma {:induction false} OthersSpared(st: Net, r: Net, batch: seq<Wakeup>, events: seq<Event>, id: nat)
    requires Core(st) && batch != [] && AllLive(st, batch)
    requires Coherent(Handle(st, batch[0]).0, r, batch[1..], events)
    requires Live(st, id) && !InBatch(batch, id)
    ensures Live(r, id) && r.slots[id] == st.slots[id]
  {
    hide SlotOk, ClosedOk, Distinct, Handle;
    InBatchCons(batch, id);
    HandleSpares(st, batch[0], id);
  }

  /** Poll batch coherence. If a batch names live slots, each once, then when the poll returns: every READ,
      ACCEPT, CONNECT and CONN_THEN_READ event names a live slot; every SOCKERR, CONNERR and WRIDONECLOSE
      event names a slot whose connection ended in this very batch, in the way the event says; an id comes
      twice only as a closing followed by the accept that reused the slot; there are no more events than
      wakeups; and live slots outside the batch are untouched. */
  lemma {:induction false} PollIsCoherent(st: Net, batch: seq<Wakeup>)
    requires Core(st) && BatchInRange(st, batch) && AllLive(st, batch) && DistinctIds(batch)
    ensures var (r, events) := Poll(st, batch);
            Core(r) && st.log <= r.log && Coherent(st, r, batch, events)
    decreases batch
  {
    hide SlotOk, ClosedOk, Distinct, Handle, EventOk, PairOk;
    if batch != [] {
      var (st1, e) := Handle(st, batch[0]);
      HandleCore(st, batch[0]);
      HandleFrame(st, batch[0]);
      RestIsLive(st, batch);
      PollIsCoherent(st1, batch[1..]);
      var (r, events) := Poll(st1, batch[1..]);
      forall i | 0 <= i < |events|
        ensures EventOk(st, r, batch, events[i])
      {
        LaterEventOk(st, st1, r, batch, events[i]);
      }
      if e.Some? {
        FirstEventOk(st, r, batch, events, e.value);
      }
      forall id: nat | Live(st, id) && !InBatch(batch, id)
        ensures Live(r, id) && r.slots[id] == st.slots[id]
      {
        OthersSpared(st, r, batch, events, id);
      }
    }
  }

  /** Since `from` the connection that had submitted `sent` in slot `id` has ended drained, all of it on the wire. */
  predicate DrainedFully(log: seq<Closed>, from: nat, id: nat, sent: seq<Item>) {
    exists k :: from <= k < |log| && log[k].id == id && log[k].why == Drained && log[k].wire == log[k].sent == sent
  }

  /** What a WRIDONECLOSE event of one wakeup says of the connection there. */
  lemma {:induction false} HandleDrains(st: Net, w: Wakeup)
    requires Core(st) && Live(st, w.id) && Handle(st, w).1.Some? && Handle(st, w).1.value.kind == LS_EWRIDONECLOSE
    ensures Handle(st, w).1.value.id == w.id && |Handle(st, w).0.log| == |st.log| + 1
    ensures var c := Handle(st, w).0.log[|st.log|];
            c.id == w.id && c.why == Drained && c.wire == c.sent == st.slots[w.id].sent
  {
    hide SlotOk, Distinct, Handle;
    HandleShape(st, w);
    HandleCore(st, w);
    HandleEvolves(st, w);
    var st1 := Handle(st, w).0;
    assert ClosedOk(st1.log[|st.log|]);
    assert st.slots[w.id].sent + [] == st.slots[w.id].sent;
  }

  /** A WRIDONECLOSE event names a slot that was live when the poll began, whose connection ended drained in this
      poll with every byte submitted on it on the wire. */
  lemma {:induction false} DrainedMeansDelivered(st: Net, batch: seq<Wakeup>, i: nat)
    requires Core(st) && BatchInRange(st, batch) && AllLive(st, batch) && DistinctIds(batch)
    requires i < |Poll(st, batch).1| && Poll(st, batch).1[i].kind == LS_EWRIDONECLOSE
    ensures var (r, events) := Poll(st, batch);
            && st.log <= r.log && InBatch(batch, events[i].id) && Live(st, events[i].id)
            && DrainedFully(r.log, |st.log|, events[i].id, st.slots[events[i].id].sent)
    decreases batch
  {
    hide SlotOk, ClosedOk, Distinct, Handle, EventOk, PairOk;
    PollIsCoherent(st, batch);
    var (st1, e) := Handle(st, batch[0]);
    HandleCore(st, batch[0]);
    HandleFrame(st, batch[0]);
    RestIsLive(st, batch);
    PollIsCoherent(st1, batch[1..]);
    var (r, later) := Poll(st1, batch[1..]);
    var event := Poll(st, batch).1[i];
    InBatchCons(batch, event.id);
    if e.Some? && i == 0 {
      HandleDrains(st, batch[0]);
      assert r.log[|st.log|] == st1.log[|st.log|];
    } else {
      var j := if e.Some? then i - 1 else i;
      assert event == later[j];
      DrainedMeansDelivered(st1, batch[1..], j);
      NotLater(st, batch, batch[0].id);
      LaterIsSpared(st, batch, event.id);
    }
  }

  lemma {:induction false} LaterIsSpared(st: Net, batch: seq<Wakeup>, id: nat)
    requires Core(st) && batch != [] && AllLive(st, batch) && DistinctIds(batch) && InBatch(batch[1..], id)
    ensures Live(st, id) && Live(Handle(st, batch[0]).0, id) && Handle(st, batch[0]).0.slots[id] == st.slots[id]
  {
    hide SlotOk, ClosedOk, Distinct, Handle;
    NotLater(st, batch, batch[0].id);
    var k :| 0 <= k < |batch[1..]| && batch[1..][k].id == id;
    assert batch[k + 1].id == id;
    HandleSpares(st, batch[0], id);
  }

  /** A wakeup of one slot, or of none that is live, ends no connection in another live slot. */
  lemma {:induction false} OthersGoOn(st: Net, batch: seq<Wakeup>, id: nat)
    requires Core(st) && BatchInRange(st, batch) && AllLive(st, batch) && DistinctIds(batch)
    requires Live(st, id) && !InBatch(batch, id)
    ensures var r := Poll(st, batch).0;
            && st.log <= r.log && FirstEnd(r.log[|st.log|..], id).None?
            && Live(r, id) && r.slots[id] == st.slots[id]
    decreases batch
  {
    hide SlotOk, ClosedOk, Distinct, Handle;
    if batch == [] {
      assert st.log[|st.log|..] == [];
    } else {
      var st1 := Handle(st, batch[0]).0;
      HandleCore(st, batch[0]);
      HandleFrame(st, batch[0]);
      RestIsLive(st, batch);
      InBatchCons(batch, id);
      HandleSpares(st, batch[0], id);
      if st.free != [] {
        FreeIsNotLive(st, id);
      }
      OthersGoOn(st1, batch[1..], id);
      SkipRecord(st.log, st1.log, Poll(st, batch).0.log, id);
    }
  }

  /** The connection that was in slot `id` is there still: the same, nothing submitted on it, and no record of its
      slot since. */
  predicate GoesOn(st: Net, r: Net, id: nat) {
    && st.log <= r.log && FirstEnd(r.log[|st.log|..], id).None?
    && Live(st, id) && Live(r, id) && Continues(st.slots[id], r.slots[id], [])
  }

  lemma {:induction false} FirstGoesOn(st: Net, batch: seq<Wakeup>)
    requires Core(st) && batch != [] && BatchInRange(st, batch) && AllLive(st, batch) && DistinctIds(batch)
    requires Live(Handle(st, batch[0]).0, batch[0].id)
    ensures GoesOn(st, Poll(st, batch).0, batch[0].id)
  {
    hide SlotOk, ClosedOk, Distinct, Handle;
    var id, st1 := batch[0].id, Handle(st, batch[0]).0;
    HandleCore(st, batch[0]);
    HandleFrame(st, batch[0]);
    HandleEvolves(st, batch[0]);
    RestIsLive(st, batch);
    NotLater(st, batch, id);
    OthersGoOn(st1, batch[1..], id);
    SkipRecord(st.log, st1.log, Poll(st, batch).0.log, id);
  }

  lemma {:induction false} LaterGoesOn(st: Net, batch: seq<Wakeup>, id: nat)
    requires Core(st) && batch != [] && BatchInRange(st, batch) && AllLive(st, batch) && DistinctIds(batch)
    requires InBatch(batch[1..], id)
    requires var st1 := Handle(st, batch[0]).0;
             Core(st1) && BatchInRange(st1, batch[1..]) && GoesOn(st1, Poll(st1, batch[1..]).0, id)
    ensures GoesOn(st, Poll(st, batch).0, id)
  {
    hide SlotOk, ClosedOk, Distinct, Handle;
    var st1 := Handle(st, batch[0]).0;
    HandleFrame(st, batch[0]);
    LaterIsSpared(st, batch, id);
    NotLater(st, batch, batch[0].id);
    if st.free != [] {
      FreeIsNotLive(st, id);
    }
    SkipRecord(st.log, st1.log, Poll(st, batch).0.log, id);
  }

  /** The event asks its reader to go on with a connection it knows. */
  predicate Resumes(kind: Kind) {
    kind in {LS_EREAD, LS_ECONNECT, LS_ECONN_THEN_READ}
  }

  /** A READ, CONNECT or CONN_THEN_READ event means the very connection that was in the slot when the poll began: it
      lives when the poll returns, what it had on the wire is there still, and nothing was submitted on it meanwhile. */
  lemma {:induction false} ResumedMeansSame(st: Net, batch: seq<Wakeup>, i: nat)
    requires Core(st) && BatchInRange(st, batch) && AllLive(st, batch) && DistinctIds(batch)
    requires i < |Poll(st, batch).1| && Resumes(Poll(st, batch).1[i].kind)
    ensures var (r, events) := Poll(st, batch); InBatch(batch, events[i].id) && GoesOn(st, r, events[i].id)
    decreases batch
  {
    hide SlotOk, ClosedOk, Distinct, Handle, EventOk, PairOk, GoesOn;
    PollIsCoherent(st, batch);
    var (st1, e) := Handle(st, batch[0]);
    HandleCore(st, batch[0]);
    HandleFrame(st, batch[0]);
    RestIsLive(st, batch);
    var later := Poll(st1, batch[1..]).1;
    var event := Poll(st, batch).1[i];
    InBatchCons(batch, event.id);
    if e.Some? && i == 0 {
      HandleShape(st, batch[0]);
      FirstGoesOn(st, batch);
    } else {
      var j := if e.Some? then i - 1 else i;
      assert event == later[j];
      ResumedMeansSame(st1, batch[1..], j);
      LaterGoesOn(st, batch, event.id);
    }
  }

  /** A poll by its last wakeup: it starts where the others ended, and its report comes last. */
  lemma {:induction false} PollSnoc(st: Net, batch: seq<Wakeup>, k: nat)
    requires Core(st) && BatchInRange(st, batch) && k < |batch|
    ensures var (pre, events) := Poll(st, batch[..k]);
            && Core(pre) && |pre.slots| == |st.slots|
            && Poll(st, batch[..k + 1]) == (Handle(pre, batch[k]).0, events + AsSeq(Handle(pre, batch[k]).1))
    decreases k
  {
    hide SlotOk, ClosedOk, Distinct, Handle;
    HandleCore(st, batch[0]);
    HandleFrame(st, batch[0]);
    assert batch[..k + 1][0] == batch[0] && batch[..k + 1][1..] == batch[1..][..k];
    var (st1, e) := Handle(st, batch[0]);
    if k == 0 {
      assert batch[..0] == [] && batch[1..][..0] == [];
      assert AsSeq(e) + [] == [] + AsSeq(e);
    } else {
      assert batch[..k][0] == batch[0] && batch[..k][1..] == batch[1..][..k - 1];
      PollSnoc(st1, batch[1..], k - 1);
      var (pre, events) := Poll(st1, batch[1..][..k - 1]);
      var last := AsSeq(Handle(pre, batch[k]).1);
      assert AsSeq(e) + (events + last) == (AsSeq(e) + events) + last;
    }
  }

  lemma {:induction false} PollPrefix(st: Net, batch: seq<Wakeup>, k: nat)
    requires Core(st) && BatchInRange(st, batch) && k <= |batch|
    ensures Poll(st, batch[..k]).1 <= Poll(st, batch).1
    decreases |batch| - k
  {
    hide SlotOk, ClosedOk, Distinct, Handle, Poll;
    if k == |batch| {
      assert batch[..k] == batch;
    } else {
      PollSnoc(st, batch, k);
      PollPrefix(st, batch, k + 1);
    }
  }

  /** No wakeup is lost: each meets its slot as it was when the poll began, and what its turn reports, as said above,
      is among the events, behind those of earlier wakeups and before those of later ones. */
  lemma {:induction false} EveryWakeupIsReported(st: Net, batch: seq<Wakeup>, k: nat)
    requires Core(st) && BatchInRange(st, batch) && AllLive(st, batch) && DistinctIds(batch) && k < |batch|
    ensures var id, (pre, before) := batch[k].id, Poll(st, batch[..k]);
            && Live(pre, id) && pre.slots[id] == st.slots[id] && FreeInRange(pre)
            && var (post, report) := Handle(pre, batch[k]);
            && ReportOk(pre, batch[k], post, report) && before + AsSeq(report) <= Poll(st, batch).1
            && (k + 1 == |batch| ==> (post, before + AsSeq(report)) == Poll(st, batch))
  {
    hide SlotOk, ClosedOk, Distinct, Handle, Poll, ReportOk;
    PollSnoc(st, batch, k);
    PollPrefix(st, batch, k + 1);
    assert batch[..|batch|] == batch;
    forall i | 0 <= i < |batch[..k]|
      ensures batch[..k][i].id != batch[k].id
    {
      assert batch[..k][i] == batch[i];
    }
    OthersGoOn(st, batch[..k], batch[k].id);
    HandleReports(Poll(st, batch[..k]).0, batch[k]);
  }

  // ---------- batches a poller can report ----------

  /** The wakeups come from different registered descriptors, each naming the owner it was registered with. */
  ghost predicate Reported(np: map<int, Reg>, batch: seq<Wakeup>, fds: seq<int>) {
    && |fds| == |batch|
    && (forall i, j :: 0 <= i < j < |fds| ==> fds[i] != fds[j])
    && (forall i :: 0 <= i < |fds| ==> fds[i] in np && np[fds[i]].owner == batch[i].id)
  }

  /** Whatever the poller reports from its registrations names live slots, each once: stale wakeups cannot arise. */
  lemma {:induction false} ReportedIsLive(st: Net, batch: seq<Wakeup>, fds: seq<int>)
    requires Registered(st) && Reported(st.np, batch, fds)
    ensures BatchInRange(st, batch) && AllLive(st, batch) && DistinctIds(batch)
  {
    forall k | 0 <= k < |batch|
      ensures Live(st, batch[k].id) && st.slots[batch[k].id].fd == fds[k]
    {
      var fd := fds[k];
      assert fd in st.np && Live(st, st.np[fd].owner);
      assert st.np[fd].owner == batch[k].id;
    }
  }

  /** Every poll is coherent, whatever the kernel reports ready, on every table that a run from a new one reaches,
      poller failures included, as long as the kernel hands out unused descriptors. */
  lemma {:induction false} EveryPollIsCoherent(max: nat, ops: seq<Op>, st: Net, batch: seq<Wakeup>, fds: seq<int>)
    requires FairlyReaches(max, ops, st) && Reported(st.np, batch, fds)
    ensures Core(st) && BatchInRange(st, batch)
    ensures var (r, events) := Poll(st, batch);
            Core(r) && st.log <= r.log && Coherent(st, r, batch, events)
  {
    hide Coherent, Reported, FairRun, Registered;
    MasksAreRegistered(max, ops, st);
    ReportedIsLive(st, batch, fds);
    PollIsCoherent(st, batch);
  }
}
