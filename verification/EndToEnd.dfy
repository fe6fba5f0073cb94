/** From `socket_send` on one side to popped messages on the other: separator-framed messages cross a stream
    connection and a receive buffer in order and unchanged, however the kernel cuts the bytes. */
module EndToEnd {
  import opened Bytes
  import opened Framing
  import opened ChunkBuffer
  import opened BufferRuns
  import I = IntendedBuffer
  import M = NetModel
  import opened NetCore
  import R = NetRuns
  import opened NetTheorems

  // ---------- the receiving socket ----------

  /** A stream socket that reads from a peer: its table, its slot, and how many inbound bytes it has taken. */
  datatype Receiver = Receiver(net: M.Net, id: nat, taken: nat)

  /** One thing the receiving side does: a read when `k` more bytes are at hand, or an attempt to pop a message
      up to the separator that `mem` points to. */
  datatype Turn = Arrive(k: nat) | TryPop(mem: seq<byte>)

  predicate CanRead(r: Receiver, inbound: seq<byte>) {
    && Core(r.net) && M.Live(r.net, r.id) && r.taken <= |inbound|
    && r.net.slots[r.id].protocol == M.LS_PROTOCOL_TCP && r.net.slots[r.id].status != M.HalfClose
  }

  /** `socket_read` when the kernel has the next `k` inbound bytes, or all that are left, at hand. */
  function ReadNext(r: Receiver, inbound: seq<byte>, k: nat): (Receiver, seq<byte>)
    requires CanRead(r, inbound)
  {
    var chunk := inbound[r.taken..r.taken + Min(k, |inbound| - r.taken)];
    var (net, got) := M.Read(r.net, r.id, [if chunk == [] then M.ReadAgain else M.Got(chunk, None, 0)]);
    (Receiver(net, r.id, r.taken + |got.data|), got.data)
  }

  lemma {:induction false} ReadHandsOver(st: M.Net, id: nat, chunk: seq<byte>)
    requires Core(st) && M.Live(st, id)
    requires st.slots[id].protocol == M.LS_PROTOCOL_TCP && st.slots[id].status != M.HalfClose
    ensures var (st', got) := M.Read(st, id, [if chunk == [] then M.ReadAgain else M.Got(chunk, None, 0)]);
            && 1 <= st.slots[id].rbuffersz && got.data == chunk[..Min(|chunk|, st.slots[id].rbuffersz)]
            && Core(st') && M.Live(st', id)
            && st'.slots[id].protocol == M.LS_PROTOCOL_TCP && st'.slots[id].status != M.HalfClose
  {
    hide SlotOk, ClosedOk, Distinct;
    var s, answer := st.slots[id], if chunk == [] then M.ReadAgain else M.Got(chunk, None, 0);
    assert SlotOk(s);
    ReadSizePositive(s);
    StepCore(st, M.OpRead(id, [answer]));
    assert M.Settled([answer]) == answer;
    if chunk != [] {
      assert M.AfterRead(s, Min(|chunk|, s.rbuffersz)).status == s.status;
    }
  }

  /** A read takes exactly the next bytes, at most as many as the adaptive read size allows, and at least one
      when one is there. */
  lemma {:induction false} ReadTakesNext(r: Receiver, inbound: seq<byte>, k: nat)
    requires CanRead(r, inbound)
    ensures var (r', data) := ReadNext(r, inbound, k);
            && CanRead(r', inbound) && r'.id == r.id
            && r'.taken == r.taken + |data| && data == inbound[r.taken..r'.taken]
            && |data| <= r.net.slots[r.id].rbuffersz
            && (0 < k && r.taken < |inbound| ==> data != [])
  {
    hide Core, M.Read, M.AfterRead;
    var chunk := inbound[r.taken..r.taken + Min(k, |inbound| - r.taken)];
    ReadHandsOver(r.net, r.id, chunk);
    if chunk != [] {
      var n := Min(|chunk|, r.net.slots[r.id].rbuffersz);
      assert chunk[..n] == inbound[r.taken..r.taken + n];
    }
  }

  /** What the receiving side does to its buffer over a sequence of turns. */
  function BufferOps(r: Receiver, inbound: seq<byte>, turns: seq<Turn>, l: nat): seq<Op>
    requires CanRead(r, inbound)
    decreases turns
  {
    if turns == [] then []
    else
      match turns[0]
      case TryPop(mem) => [OpPopSep(mem, l)] + BufferOps(r, inbound, turns[1..], l)
      case Arrive(k) =>
        ReadTakesNext(r, inbound, k);
        var (r', data) := ReadNext(r, inbound, k);
        [OpPush(data)] + BufferOps(r', inbound, turns[1..], l)
  }

  /** How much the receiving side has taken in the end. */
  function TakenAfter(r: Receiver, inbound: seq<byte>, turns: seq<Turn>): (n: nat)
    requires CanRead(r, inbound)
    ensures r.taken <= n <= |inbound|
    decreases turns
  {
    if turns == [] then r.taken
    else
      match turns[0]
      case TryPop(_) => TakenAfter(r, inbound, turns[1..])
      case Arrive(k) =>
        ReadTakesNext(r, inbound, k);
        TakenAfter(ReadNext(r, inbound, k).0, inbound, turns[1..])
  }

  /** The reads push consecutive slices of the inbound bytes, none twice and none skipped. */
  lemma {:induction false} PushesAreInbound(r: Receiver, inbound: seq<byte>, turns: seq<Turn>, l: nat)
    requires CanRead(r, inbound)
    ensures Pushed(BufferOps(r, inbound, turns, l)) == inbound[r.taken..TakenAfter(r, inbound, turns)]
    decreases turns
  {
    if turns != [] {
      match turns[0]
      case TryPop(mem) =>
        PushesAreInbound(r, inbound, turns[1..], l);
        assert ([OpPopSep(mem, l)] + BufferOps(r, inbound, turns[1..], l))[1..] == BufferOps(r, inbound, turns[1..], l);
      case Arrive(k) =>
        ReadTakesNext(r, inbound, k);
        var (r', data) := ReadNext(r, inbound, k);
        PushesAreInbound(r', inbound, turns[1..], l);
        assert ([OpPush(data)] + BufferOps(r', inbound, turns[1..], l))[1..] == BufferOps(r', inbound, turns[1..], l);
        var n := TakenAfter(r', inbound, turns[1..]);
        assert inbound[r.taken..r'.taken] + inbound[r'.taken..n] == inbound[r.taken..n];
    }
  }

  // ---------- the sending socket ----------

  /** The messages submitted on a stream connection so far, each followed by the separator. */
  predicate HasFramed(sent: seq<M.Item>, msgs: seq<seq<byte>>, sep: seq<byte>) {
    sent == M.Tag(Frame(msgs, sep), -1)
  }

  lemma {:induction false} FrameSnoc(msgs: seq<seq<byte>>, m: seq<byte>, sep: seq<byte>)
    ensures Frame(msgs + [m], sep) == Frame(msgs, sep) + (m + sep)
  {
    if msgs == [] {
      assert ([m])[1..] == [];
      assert msgs + [m] == [m];
    } else {
      assert (msgs + [m])[1..] == msgs[1..] + [m];
      FrameSnoc(msgs[1..], m, sep);
      var a, b := msgs[0] + sep, Frame(msgs[1..], sep);
      assert a + (b + (m + sep)) == (a + b) + (m + sep);
    }
  }

  /** An accepted `socket_send` of one more framed message adds that message. */
  lemma {:induction false} SendFrames(st: M.Net, id: nat, msgs: seq<seq<byte>>, m: seq<byte>, sep: seq<byte>,
                   answer: M.WriteAnswer, np: M.NpAnswer)
    requires Core(st) && M.Live(st, id) && sep != [] && HasFramed(st.slots[id].sent, msgs, sep)
    requires st.slots[id].protocol == M.LS_PROTOCOL_TCP && st.slots[id].status != M.HalfClose
    ensures var st' := M.Send(st, id, m + sep, answer, np).0;
            && st.log <= st'.log
            && (M.Live(st', id) ==> HasFramed(st'.slots[id].sent, msgs + [m], sep))
            && (!M.Live(st', id) ==> |st'.log| == |st.log| + 1 && HasFramed(st'.log[|st.log|].sent, msgs + [m], sep))
  {
    R.SendEvolves(st, M.OpSend(id, m + sep, answer, np));
    FrameSnoc(msgs, m, sep);
    assert M.Tag(Frame(msgs, sep), -1) + M.Tag(m + sep, -1) == M.Tag(Frame(msgs, sep) + (m + sep), -1);
  }

  lemma {:induction false} PayloadOfTag(data: seq<byte>)
    ensures Payload(M.Tag(data, -1)) == data
  {
    UntaggedBytes(data, M.Tag(data, -1));
  }

  lemma {:induction false} PayloadPrefix(wire: seq<M.Item>, sent: seq<M.Item>)
    requires wire <= sent
    ensures Payload(wire) <= Payload(sent)
  {
    assert sent == wire + sent[|wire|..];
    PayloadConcat(wire, sent[|wire|..]);
  }

  // ---------- a run of the sending side ----------

  /** If the operation is an accepted send on slot `id`, what it carries ends with the separator. */
  predicate SendsFrame(st: M.Net, op: M.Op, id: nat, sep: seq<byte>)
    requires M.Live(st, id)
  {
    R.Accepted(st, op, id) != [] && op.OpSend? ==>
      |sep| <= |op.data| && op.data[|op.data| - |sep|..] == sep
  }

  /** Every send accepted in the run on the connection now in slot `id` carries a message and the separator. */
  predicate FramedSender(st: M.Net, ops: seq<M.Op>, id: nat, sep: seq<byte>)
    requires Core(st) && R.AllLegal(|st.slots|, ops) && M.Live(st, id)
    decreases ops
  {
    ops == [] ||
    (StepCore(st, ops[0]);
     R.StepFrame(st, ops[0]);
     var st1 := M.Step(st, ops[0]);
     SendsFrame(st, ops[0], id, sep) && (M.Live(st1, id) ==> FramedSender(st1, ops[1..], id, sep)))
  }

  /** The message an operation sends on slot `id`, if it is an accepted send. */
  function SentMessage(st: M.Net, op: M.Op, id: nat, sep: seq<byte>): seq<seq<byte>>
    requires M.Live(st, id) && SendsFrame(st, op, id, sep)
  {
    if R.Accepted(st, op, id) != [] && op.OpSend? then [op.data[..|op.data| - |sep|]] else []
  }

  /** The messages the run sends on the connection now in slot `id`, up to that connection's end. */
  function SentMessages(st: M.Net, ops: seq<M.Op>, id: nat, sep: seq<byte>): seq<seq<byte>>
    requires Core(st) && R.AllLegal(|st.slots|, ops) && M.Live(st, id) && FramedSender(st, ops, id, sep)
    decreases ops
  {
    if ops == [] then []
    else
      StepCore(st, ops[0]);
      R.StepFrame(st, ops[0]);
      var st1 := M.Step(st, ops[0]);
      SentMessage(st, ops[0], id, sep) + if M.Live(st1, id) then SentMessages(st1, ops[1..], id, sep) else []
  }

  lemma {:induction false} TagConcat(a: seq<byte>, b: seq<byte>)
    ensures M.Tag(a + b, -1) == M.Tag(a, -1) + M.Tag(b, -1)
  {
  }

  lemma {:induction false} FrameConcat(a: seq<seq<byte>>, b: seq<seq<byte>>, sep: seq<byte>)
    ensures Frame(a + b, sep) == Frame(a, sep) + Frame(b, sep)
  {
    if a == [] {
      assert a + b == b;
    } else {
      assert (a + b)[1..] == a[1..] + b;
      FrameConcat(a[1..], b, sep);
      assert a[0] + sep + (Frame(a[1..], sep) + Frame(b, sep)) == (a[0] + sep + Frame(a[1..], sep)) + Frame(b, sep);
    }
  }

  lemma {:induction false} AcceptedIsFramed(st: M.Net, op: M.Op, id: nat, sep: seq<byte>)
    requires M.Live(st, id) && st.slots[id].protocol == M.LS_PROTOCOL_TCP && SendsFrame(st, op, id, sep)
    ensures R.Accepted(st, op, id) == M.Tag(Frame(SentMessage(st, op, id, sep), sep), -1)
  {
    var msgs := SentMessage(st, op, id, sep);
    if R.Accepted(st, op, id) != [] {
      var m := op.data[..|op.data| - |sep|];
      assert msgs[1..] == [];
      assert Frame(msgs, sep) == m + sep + [] == op.data;
    }
  }

  /** What such a run submits is its messages, framed. */
  lemma {:induction false} SubmittedIsFramed(st: M.Net, ops: seq<M.Op>, id: nat, sep: seq<byte>)
    requires Core(st) && R.AllLegal(|st.slots|, ops) && M.Live(st, id) && FramedSender(st, ops, id, sep)
    requires st.slots[id].protocol == M.LS_PROTOCOL_TCP
    ensures R.Submitted(st, ops, id) == M.Tag(Frame(SentMessages(st, ops, id, sep), sep), -1)
    decreases ops
  {
    hide SlotOk, ClosedOk, Distinct, M.Step, R.Accepted, SendsFrame, SentMessage, M.Tag, Frame;
    if ops == [] {
      NothingFramed(sep);
    } else {
      var st1 := M.Step(st, ops[0]);
      StepCore(st, ops[0]);
      R.StepFrame(st, ops[0]);
      R.StepEvolves(st, ops[0], id);
      AcceptedIsFramed(st, ops[0], id, sep);
      var first := SentMessage(st, ops[0], id, sep);
      if M.Live(st1, id) {
        SubmittedIsFramed(st1, ops[1..], id, sep);
        var more := SentMessages(st1, ops[1..], id, sep);
        FrameConcat(first, more, sep);
        TagConcat(Frame(first, sep), Frame(more, sep));
      } else {
        assert first + [] == first;
        assert R.Accepted(st, ops[0], id) + [] == R.Accepted(st, ops[0], id);
      }
    }
  }

  lemma {:induction false} NothingFramed(sep: seq<byte>)
    ensures M.Tag(Frame([], sep), -1) == []
  {
  }

  /** What the connection now in slot `id` has on the wire after the run, or had when it ended. */
  function WireAfter(st: M.Net, ops: seq<M.Op>, id: nat): seq<M.Item>
    requires Core(st) && R.AllLegal(|st.slots|, ops) && M.Live(st, id)
  {
    R.RunHistory(st, ops);
    var r := R.Run(st, ops);
    match R.FirstEnd(r.log[|st.log|..], id)
    case None => r.slots[id].wire
    case Some(c) => c.wire
  }

  /** After the run it has nothing left to write, or has ended drained. */
  predicate AllWritten(st: M.Net, ops: seq<M.Op>, id: nat)
    requires Core(st) && R.AllLegal(|st.slots|, ops) && M.Live(st, id)
  {
    R.RunHistory(st, ops);
    var r := R.Run(st, ops);
    match R.FirstEnd(r.log[|st.log|..], id)
    case None => r.slots[id].queue == []
    case Some(c) => c.why == M.Drained
  }

  /** Whatever the run does, the wire is a prefix of the messages submitted before it and in it, framed; and all of
      them once everything is written. */
  lemma {:induction false} RunFrames(st: M.Net, ops: seq<M.Op>, id: nat, before: seq<seq<byte>>, sep: seq<byte>)
    requires Core(st) && R.AllLegal(|st.slots|, ops) && M.Live(st, id) && FramedSender(st, ops, id, sep)
    requires st.slots[id].protocol == M.LS_PROTOCOL_TCP && HasFramed(st.slots[id].sent, before, sep)
    ensures var sent := M.Tag(Frame(before + SentMessages(st, ops, id, sep), sep), -1);
            && WireAfter(st, ops, id) <= sent
            && (AllWritten(st, ops, id) ==> WireAfter(st, ops, id) == sent)
  {
    hide M.Step, Frame, M.Tag, SentMessages, R.Submitted, FramedSender, R.Run;
    R.RunEvolves(st, ops, id);
    SubmittedIsFramed(st, ops, id, sep);
    var msgs := SentMessages(st, ops, id, sep);
    FrameConcat(before, msgs, sep);
    TagConcat(Frame(before, sep), Frame(msgs, sep));
    var r := R.Run(st, ops);
    FirstEndIsLogged(r.log[|st.log|..], id);
    WireIsPrefix(r);
  }

  lemma {:induction false} WireIsPrefix(st: M.Net)
    requires Core(st)
    ensures forall id :: M.Live(st, id) ==>
              && st.slots[id].wire <= st.slots[id].sent
              && (st.slots[id].queue == [] ==> st.slots[id].wire == st.slots[id].sent)
    ensures forall c :: c in st.log ==> c.wire <= c.sent && (c.why == M.Drained ==> c.wire == c.sent)
  {
    forall id | M.Live(st, id)
      ensures st.slots[id].wire <= st.slots[id].sent
      ensures st.slots[id].queue == [] ==> st.slots[id].wire == st.slots[id].sent
    {
      assert SlotOk(st.slots[id]);
      assert st.slots[id].queue == [] ==> M.Items(st.slots[id].queue) == [];
    }
  }

  // ---------- both together ----------

  /** Every message can be told apart from the separator behind it. */
  predicate AllFrameable(msgs: seq<seq<byte>>, sep: seq<byte>) {
    forall m :: m in msgs ==> Frameable(m, sep)
  }

  /** A receiver that has read nothing yet takes in what is on the wire and pops to one separator. */
  predicate Reads(r: Receiver, wire: seq<byte>, turns: seq<Turn>, sep: seq<byte>) {
    && r.taken == 0 && CanRead(r, wire) && sep != []
    && var ops := BufferOps(r, wire, turns, |sep|);
    AllWellFormed(ops) && FramedReader(ops, sep)
  }

  /** Every pop that returned something found an orderly occurrence; those that returned nothing do not matter. */
  ghost predicate HitsInOrder(r: Receiver, wire: seq<byte>, turns: seq<Turn>, sep: seq<byte>)
    requires Reads(r, wire, turns, sep)
  {
    OrderlyHits(EMPTY, BufferOps(r, wire, turns, |sep|))
  }

  /** What the receiver has popped from the bytes on the wire so far. */
  function PoppedMessages(r: Receiver, wire: seq<byte>, turns: seq<Turn>, sep: seq<byte>): seq<seq<byte>>
    requires Reads(r, wire, turns, sep)
  {
    Results(BufferRuns.Run(EMPTY, BufferOps(r, wire, turns, |sep|)).1)
  }

  /** Nothing more can be popped, and everything on the wire has been taken. */
  predicate CaughtUp(r: Receiver, wire: seq<byte>, turns: seq<Turn>, sep: seq<byte>)
    requires Reads(r, wire, turns, sep)
  {
    var b := BufferRuns.Run(EMPTY, BufferOps(r, wire, turns, |sep|)).0;
    TakenAfter(r, wire, turns) == |wire| && b.Valid() && Find(b.Contents(), sep).None?
  }

  /** The popped messages are the first ones sent, and all of them once everything is written and taken. */
  ghost predicate Delivers(popped: seq<seq<byte>>, msgs: seq<seq<byte>>, complete: bool) {
    popped <= msgs && (complete ==> popped == msgs)
  }

  /** Frames taken off what has been read are the first messages submitted. */
  lemma {:induction false} FramesAreMessages(wire: seq<M.Item>, sent: seq<M.Item>, msgs: seq<seq<byte>>, sep: seq<byte>,
      taken: nat, frames: seq<seq<byte>>, rest: seq<byte>)
    requires wire <= sent && HasFramed(sent, msgs, sep) && sep != [] && AllFrameable(msgs, sep)
    requires taken <= |Payload(wire)| && Split(Payload(wire)[..taken], sep) == frames + Split(rest, sep)
    ensures Delivers(frames, msgs, wire == sent && taken == |Payload(wire)| && Find(rest, sep).None?)
  {
    hide Frame, Payload, FindFrom, AllFrameable;
    var data := Payload(wire);
    assert data[..taken] <= data && (taken == |data| ==> data[..taken] == data);
    PayloadOfTag(Frame(msgs, sep));
    PayloadPrefix(wire, sent);
    SplitPrefix(data[..taken], Frame(msgs, sep), sep);
    SplitBack(msgs, sep);
  }

  lemma {:induction false} SplitBack(msgs: seq<seq<byte>>, sep: seq<byte>)
    requires sep != [] && AllFrameable(msgs, sep)
    ensures Split(Frame(msgs, sep), sep) == msgs
  {
    SplitInvertsFrame(msgs, sep);
  }

  /** From what is on a wire, and what was submitted on it, to the messages popped. */
  lemma {:induction false} WireToMessages(wire: seq<M.Item>, sent: seq<M.Item>, msgs: seq<seq<byte>>, sep: seq<byte>,
      r: Receiver, turns: seq<Turn>)
    requires wire <= sent && HasFramed(sent, msgs, sep) && AllFrameable(msgs, sep)
    requires Reads(r, Payload(wire), turns, sep) && HitsInOrder(r, Payload(wire), turns, sep)
    ensures Delivers(PoppedMessages(r, Payload(wire), turns, sep), msgs,
                     wire == sent && CaughtUp(r, Payload(wire), turns, sep))
  {
    hide BufferOps, BufferRuns.Run, OrderlyHits, AllWellFormed, FramedReader;
    hide TakenAfter, CanRead, Split, Frame, Payload, Results, AllFrameable, HasFramed, Find;
    var data, ops := Payload(wire), BufferOps(r, Payload(wire), turns, |sep|);
    PushesAreInbound(r, data, turns, |sep|);
    ReaderIsScheduleIndependent(ops, sep);
    var (b, outs) := BufferRuns.Run(EMPTY, ops);
    var taken := TakenAfter(r, data, turns);
    assert data[0..taken] == data[..taken];
    FramesAreMessages(wire, sent, msgs, sep, taken, Results(outs), b.Contents());
  }

  lemma {:induction false} OpsPrefix(r: Receiver, inbound: seq<byte>, turns: seq<Turn>, l: nat, k: nat)
    requires CanRead(r, inbound) && k <= |turns|
    ensures |BufferOps(r, inbound, turns, l)| == |turns|
    ensures BufferOps(r, inbound, turns[..k], l) == BufferOps(r, inbound, turns, l)[..k]
    decreases turns
  {
    hide CanRead;
    if turns != [] {
      var n := if k > 0 then k - 1 else 0;
      assert k > 0 ==> turns[..k][0] == turns[0] && turns[..k][1..] == turns[1..][..n];
      match turns[0]
      case TryPop(mem) =>
        OpsPrefix(r, inbound, turns[1..], l, n);
      case Arrive(a) =>
        ReadTakesNext(r, inbound, a);
        OpsPrefix(ReadNext(r, inbound, a).0, inbound, turns[1..], l, n);
    }
  }

  lemma {:induction false} ReadsPrefix(r: Receiver, wire: seq<byte>, turns: seq<Turn>, sep: seq<byte>, k: nat)
    requires Reads(r, wire, turns, sep) && k <= |turns|
    ensures Reads(r, wire, turns[..k], sep)
  {
    hide CanRead, BufferOps;
    OpsPrefix(r, wire, turns, |sep|, k);
  }

  /** Every byte read is in a popped message, in the separator behind one, or still in the buffer. */
  predicate LosesNothing(r: Receiver, wire: seq<byte>, turns: seq<Turn>, sep: seq<byte>)
    requires Reads(r, wire, turns, sep)
  {
    var ops := BufferOps(r, wire, turns, |sep|);
    var (b, outs) := BufferRuns.Run(EMPTY, ops);
    && |outs| == |ops| && b.Valid()
    && wire[..TakenAfter(r, wire, turns)] == Consumed(ops, outs) + b.Contents()
  }

  /** After the receiver's first `k` turns the messages popped are the first of those sent and no byte read is lost. */
  predicate InOrderAfter(r: Receiver, wire: seq<byte>, turns: seq<Turn>, sep: seq<byte>, k: nat, msgs: seq<seq<byte>>)
    requires Reads(r, wire, turns, sep) && k <= |turns|
  {
    ReadsPrefix(r, wire, turns, sep, k);
    PoppedMessages(r, wire, turns[..k], sep) <= msgs && LosesNothing(r, wire, turns[..k], sep)
  }

  lemma {:induction false} InOrderIsDelivery(r: Receiver, wire: seq<byte>, turns: seq<Turn>,
      sep: seq<byte>, k: nat, msgs: seq<seq<byte>>)
    requires Reads(r, wire, turns, sep) && k <= |turns|
    ensures InOrderAfter(r, wire, turns, sep, k, msgs) <==>
            k <= |BufferOps(r, wire, turns, |sep|)| && DeliversAfter(EMPTY, BufferOps(r, wire, turns, |sep|), k, msgs)
  {
    hide CanRead, BufferOps, BufferRuns.Run, TakenAfter, Results, FramedReader;
    var ops := BufferOps(r, wire, turns, |sep|);
    ReadsPrefix(r, wire, turns, sep, k);
    OpsPrefix(r, wire, turns, |sep|, k);
    PushesAreInbound(r, wire, turns[..k], |sep|);
    var n := TakenAfter(r, wire, turns[..k]);
    assert wire[0..n] == wire[..n];
    assert EMPTY.Contents() + Pushed(ops[..k]) == Pushed(ops[..k]);
  }

  /** What a receiver reads off a wire is the beginning of the framed messages. */
  lemma {:induction false} WireCarries(wire: seq<M.Item>, sent: seq<M.Item>, msgs: seq<seq<byte>>, sep: seq<byte>,
      r: Receiver, turns: seq<Turn>)
    requires wire <= sent && HasFramed(sent, msgs, sep) && AllFrameable(msgs, sep)
    requires Reads(r, Payload(wire), turns, sep)
    ensures Carries(EMPTY, BufferOps(r, Payload(wire), turns, |sep|), msgs, sep)
  {
    hide BufferOps, TakenAfter, CanRead, Frame, Payload, Frameable;
    var data := Payload(wire);
    PushesAreInbound(r, data, turns, |sep|);
    PayloadOfTag(Frame(msgs, sep));
    PayloadPrefix(wire, sent);
    var taken := TakenAfter(r, data, turns);
    var pushed := Pushed(BufferOps(r, data, turns, |sep|));
    assert pushed == data[0..taken] <= data;
    assert EMPTY.Contents() + pushed == pushed;
  }

  lemma {:induction false} WireToMessagesExactly(wire: seq<M.Item>, sent: seq<M.Item>,
      msgs: seq<seq<byte>>, sep: seq<byte>, r: Receiver, turns: seq<Turn>)
    requires wire <= sent && HasFramed(sent, msgs, sep) && AllFrameable(msgs, sep)
    requires Reads(r, Payload(wire), turns, sep)
    ensures HitsInOrder(r, Payload(wire), turns, sep) <==>
            forall k: nat :: k <= |turns| ==> InOrderAfter(r, Payload(wire), turns, sep, k, msgs)
  {
    hide BufferOps, OrderlyHits, CanRead, Frame, Payload, AllFrameable, HasFramed, Carries, DeliversAfter, InOrderAfter;
    var data, ops := Payload(wire), BufferOps(r, Payload(wire), turns, |sep|);
    WireCarries(wire, sent, msgs, sep, r, turns);
    ReaderDeliversExactly(EMPTY, ops, msgs, sep);
    OpsPrefix(r, data, turns, |sep|, 0);
    forall k: nat | k <= |turns|
      ensures InOrderAfter(r, data, turns, sep, k, msgs) <==> DeliversAfter(EMPTY, ops, k, msgs)
    {
      InOrderIsDelivery(r, data, turns, sep, k, msgs);
    }
  }

  /** End to end, exactly: for any run that sends framed messages and any receiver, the messages popped are the first
      of those sent and no byte read is lost, after each of the receiver's turns, if and only if every pop that finds
      anything finds an orderly occurrence. */
  lemma {:induction false} RunEndToEndExactly(st: M.Net, ops: seq<M.Op>, id: nat, before: seq<seq<byte>>,
      sep: seq<byte>, r: Receiver, turns: seq<Turn>)
    requires Core(st) && R.AllLegal(|st.slots|, ops) && M.Live(st, id) && FramedSender(st, ops, id, sep)
    requires st.slots[id].protocol == M.LS_PROTOCOL_TCP && HasFramed(st.slots[id].sent, before, sep)
    requires AllFrameable(before + SentMessages(st, ops, id, sep), sep)
    requires Reads(r, Payload(WireAfter(st, ops, id)), turns, sep)
    ensures var wire, msgs := Payload(WireAfter(st, ops, id)), before + SentMessages(st, ops, id, sep);
            HitsInOrder(r, wire, turns, sep) <==>
            forall k: nat :: k <= |turns| ==> InOrderAfter(r, wire, turns, sep, k, msgs)
  {
    hide Core, Frame, Payload, SentMessages, FramedSender, WireAfter, AllWritten, Reads, HitsInOrder, InOrderAfter;
    RunFrames(st, ops, id, before, sep);
    var msgs := before + SentMessages(st, ops, id, sep);
    WireToMessagesExactly(WireAfter(st, ops, id), M.Tag(Frame(msgs, sep), -1), msgs, sep, r, turns);
  }

  /** End to end. Take any table and a stream connection in it, and any run in which each accepted send on that
      connection carries a message and the separator, whatever partial writes, EAGAIN and EINTR the kernel answers
      with and whatever else the run does. However reads and pops at the other end interleave and cut the bytes, as
      long as the pops that return something find orderly occurrences, the messages popped are a prefix of the
      messages sent, and all of them once everything is written and the receiver has caught up. */
  lemma {:induction false} RunEndToEnd(st: M.Net, ops: seq<M.Op>, id: nat, before: seq<seq<byte>>, sep: seq<byte>,
      r: Receiver, turns: seq<Turn>)
    requires Core(st) && R.AllLegal(|st.slots|, ops) && M.Live(st, id) && FramedSender(st, ops, id, sep)
    requires st.slots[id].protocol == M.LS_PROTOCOL_TCP && HasFramed(st.slots[id].sent, before, sep)
    requires AllFrameable(before + SentMessages(st, ops, id, sep), sep)
    requires var wire := Payload(WireAfter(st, ops, id));
             Reads(r, wire, turns, sep) && HitsInOrder(r, wire, turns, sep)
    ensures var wire, msgs := Payload(WireAfter(st, ops, id)), before + SentMessages(st, ops, id, sep);
            Delivers(PoppedMessages(r, wire, turns, sep), msgs,
                     AllWritten(st, ops, id) && CaughtUp(r, wire, turns, sep))
  {
    hide Core, Frame, Payload, SentMessages, FramedSender, WireAfter, AllWritten;
    hide Reads, HitsInOrder, PoppedMessages, CaughtUp;
    RunFrames(st, ops, id, before, sep);
    var msgs := before + SentMessages(st, ops, id, sep);
    WireToMessages(WireAfter(st, ops, id), M.Tag(Frame(msgs, sep), -1), msgs, sep, r, turns);
  }

  /** The same read off a reachable table, while the connection lives. */
  lemma {:induction false} LiveEndToEnd(st: M.Net, id: nat, msgs: seq<seq<byte>>, sep: seq<byte>,
      r: Receiver, turns: seq<Turn>)
    requires Reachable(st) && M.Live(st, id) && HasFramed(st.slots[id].sent, msgs, sep) && AllFrameable(msgs, sep)
    requires var wire := Payload(st.slots[id].wire);
             Reads(r, wire, turns, sep) && HitsInOrder(r, wire, turns, sep)
    ensures var wire := Payload(st.slots[id].wire);
            Delivers(PoppedMessages(r, wire, turns, sep), msgs,
                     st.slots[id].queue == [] && CaughtUp(r, wire, turns, sep))
  {
    hide Reads, HitsInOrder, PoppedMessages, CaughtUp;
    Conservation(st);
    WireToMessages(st.slots[id].wire, st.slots[id].sent, msgs, sep, r, turns);
  }

  /** And once it has ended: all of the messages if it ended drained. */
  lemma {:induction false} ClosedEndToEnd(st: M.Net, c: M.Closed, msgs: seq<seq<byte>>, sep: seq<byte>,
      r: Receiver, turns: seq<Turn>)
    requires Reachable(st) && c in st.log && HasFramed(c.sent, msgs, sep) && AllFrameable(msgs, sep)
    requires Reads(r, Payload(c.wire), turns, sep) && HitsInOrder(r, Payload(c.wire), turns, sep)
    ensures var wire := Payload(c.wire);
            Delivers(PoppedMessages(r, wire, turns, sep), msgs, c.why == M.Drained && CaughtUp(r, wire, turns, sep))
  {
    hide Reads, HitsInOrder, PoppedMessages, CaughtUp;
    Conservation(st);
    WireToMessages(c.wire, c.sent, msgs, sep, r, turns);
  }

  // ---------- one-byte separators, and the repaired buffer ----------

  /** Turns that pop with a pointer to the separator `sep`. */
  predicate PopsWith(turns: seq<Turn>, sep: seq<byte>) {
    forall k :: 0 <= k < |turns| ==> turns[k].TryPop? ==>
      2 * |sep| <= |turns[k].mem| && turns[k].mem[..|sep|] == sep
  }

  lemma {:induction false} PopsAreFramed(r: Receiver, inbound: seq<byte>, turns: seq<Turn>, sep: seq<byte>)
    requires CanRead(r, inbound) && sep != [] && PopsWith(turns, sep)
    ensures var ops := BufferOps(r, inbound, turns, |sep|); AllWellFormed(ops) && FramedReader(ops, sep)
    decreases turns
  {
    hide CanRead;
    if turns != [] {
      match turns[0]
      case TryPop(mem) => PopsAreFramed(r, inbound, turns[1..], sep);
      case Arrive(k) =>
        ReadTakesNext(r, inbound, k);
        PopsAreFramed(ReadNext(r, inbound, k).0, inbound, turns[1..], sep);
    }
  }

  lemma {:induction false} OneByteHits(r: Receiver, wire: seq<byte>, turns: seq<Turn>, sep: seq<byte>)
    requires r.taken == 0 && CanRead(r, wire) && |sep| == 1 && PopsWith(turns, sep)
    ensures Reads(r, wire, turns, sep) && HitsInOrder(r, wire, turns, sep)
  {
    PopsAreFramed(r, wire, turns, sep);
    OneByteReaderIsOrderly(EMPTY, BufferOps(r, wire, turns, 1), sep);
    OrderlyRunHits(EMPTY, BufferOps(r, wire, turns, 1));
  }

  /** Lines: with a one-byte separator that no message contains, nothing need be asked of the chunking. */
  lemma {:induction false} LinesEndToEnd(st: M.Net, ops: seq<M.Op>, id: nat, before: seq<seq<byte>>, sep: seq<byte>,
      r: Receiver, turns: seq<Turn>)
    requires Core(st) && R.AllLegal(|st.slots|, ops) && M.Live(st, id) && FramedSender(st, ops, id, sep)
    requires st.slots[id].protocol == M.LS_PROTOCOL_TCP && HasFramed(st.slots[id].sent, before, sep)
    requires |sep| == 1 && PopsWith(turns, sep) && r.taken == 0 && CanRead(r, Payload(WireAfter(st, ops, id)))
    requires forall m :: m in before + SentMessages(st, ops, id, sep) ==> sep[0] !in m
    ensures var wire, msgs := Payload(WireAfter(st, ops, id)), before + SentMessages(st, ops, id, sep);
            && Reads(r, wire, turns, sep)
            && Delivers(PoppedMessages(r, wire, turns, sep), msgs,
                        AllWritten(st, ops, id) && CaughtUp(r, wire, turns, sep))
  {
    hide Core, CanRead, Payload, FramedSender, SentMessages, WireAfter, AllWritten, Reads, HitsInOrder, Delivers;
    OneByteHits(r, Payload(WireAfter(st, ops, id)), turns, sep);
    forall m | m in before + SentMessages(st, ops, id, sep)
      ensures Frameable(m, sep)
    {
      FreeOfFirstByteIsFrameable(m, sep);
    }
    RunEndToEnd(st, ops, id, before, sep, r, turns);
  }

  /** What the receiver pops from the repaired buffer. */
  function PoppedAsIntended(r: Receiver, wire: seq<byte>, turns: seq<Turn>, sep: seq<byte>): seq<seq<byte>>
    requires Reads(r, wire, turns, sep)
  {
    Results(I.Run(EMPTY, BufferOps(r, wire, turns, |sep|)).1)
  }

  predicate CaughtUpAsIntended(r: Receiver, wire: seq<byte>, turns: seq<Turn>, sep: seq<byte>)
    requires Reads(r, wire, turns, sep)
  {
    var b := I.Run(EMPTY, BufferOps(r, wire, turns, |sep|)).0;
    TakenAfter(r, wire, turns) == |wire| && b.Valid() && Find(b.Contents(), sep).None?
  }

  lemma {:induction false} WireToMessagesAsIntended(wire: seq<M.Item>, sent: seq<M.Item>,
      msgs: seq<seq<byte>>, sep: seq<byte>, r: Receiver, turns: seq<Turn>)
    requires wire <= sent && HasFramed(sent, msgs, sep) && AllFrameable(msgs, sep)
    requires Reads(r, Payload(wire), turns, sep)
    ensures Delivers(PoppedAsIntended(r, Payload(wire), turns, sep), msgs,
                     wire == sent && CaughtUpAsIntended(r, Payload(wire), turns, sep))
  {
    hide BufferOps, I.Run, AllWellFormed, FramedReader;
    hide TakenAfter, CanRead, Split, Frame, Payload, Results, AllFrameable, HasFramed, Find;
    var data, ops := Payload(wire), BufferOps(r, Payload(wire), turns, |sep|);
    PushesAreInbound(r, data, turns, |sep|);
    I.ReaderIsFlat(ops, sep);
    var (b, outs) := I.Run(EMPTY, ops);
    var taken := TakenAfter(r, data, turns);
    assert data[0..taken] == data[..taken];
    FramesAreMessages(wire, sent, msgs, sep, taken, Results(outs), b.Contents());
  }

  /** With the repaired buffer the end-to-end statement needs no condition on blocks, for any separator. */
  lemma {:induction false} IntendedEndToEnd(st: M.Net, ops: seq<M.Op>, id: nat, before: seq<seq<byte>>, sep: seq<byte>,
      r: Receiver, turns: seq<Turn>)
    requires Core(st) && R.AllLegal(|st.slots|, ops) && M.Live(st, id) && FramedSender(st, ops, id, sep)
    requires st.slots[id].protocol == M.LS_PROTOCOL_TCP && HasFramed(st.slots[id].sent, before, sep)
    requires AllFrameable(before + SentMessages(st, ops, id, sep), sep)
    requires sep != [] && PopsWith(turns, sep) && r.taken == 0 && CanRead(r, Payload(WireAfter(st, ops, id)))
    ensures var wire, msgs := Payload(WireAfter(st, ops, id)), before + SentMessages(st, ops, id, sep);
            && Reads(r, wire, turns, sep)
            && Delivers(PoppedAsIntended(r, wire, turns, sep), msgs,
                        AllWritten(st, ops, id) && CaughtUpAsIntended(r, wire, turns, sep))
  {
    hide Core, Frame, Payload, SentMessages, FramedSender, WireAfter, AllWritten, CanRead;
    hide PoppedAsIntended, CaughtUpAsIntended;
    PopsAreFramed(r, Payload(WireAfter(st, ops, id)), turns, sep);
    RunFrames(st, ops, id, before, sep);
    var msgs := before + SentMessages(st, ops, id, sep);
    WireToMessagesAsIntended(WireAfter(st, ops, id), M.Tag(Frame(msgs, sep), -1), msgs, sep, r, turns);
  }
}
