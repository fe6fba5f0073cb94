/** Whole runs of the receive buffer: when they are what the same run is on one flat sequence, when they lose no
    byte, and when what they pop are the frames of everything pushed. */
module BufferRuns {
  import opened Bytes
  import opened Framing
  import opened ChunkBuffer

  // ---------- runs and what they are on flat contents ----------

  function Run(b: Buffer, ops: seq<Op>): (r: (Buffer, seq<Option<seq<byte>>>))
    requires b.Valid() && AllWellFormed(ops)
    decreases ops
  {
    if ops == [] then (b, [])
    else
      var (b', out) := Step(b, ops[0]);
      if !b'.Valid() then (b', [out])
      else
        var (end, outs) := Run(b', ops[1..]);
        (end, [out] + outs)
  }

  function FlatRun(s: seq<byte>, ops: seq<Op>): (seq<byte>, seq<Option<seq<byte>>>)
    requires AllWellFormed(ops)
    decreases ops
  {
    if ops == [] then (s, [])
    else
      var (s', out) := FlatStep(s, ops[0]);
      var (end, outs) := FlatRun(s', ops[1..]);
      (end, [out] + outs)
  }

  /** Every step of the run is orderly where it is taken. */
  ghost predicate OrderlyRun(b: Buffer, ops: seq<Op>)
    requires b.Valid() && AllWellFormed(ops)
    decreases ops
  {
    ops == [] ||
    (Orderly(b, ops[0]) && Step(b, ops[0]).0.Valid() && OrderlyRun(Step(b, ops[0]).0, ops[1..]))
  }

  /** Refinement over runs: all results, and the contents at the end, are those of the flat run; so they
      depend on what was pushed and when, never on how it was cut into blocks. */
  lemma {:induction false} RunRefines(b: Buffer, ops: seq<Op>)
    requires b.Valid() && AllWellFormed(ops)
    requires OrderlyRun(b, ops)
    ensures Run(b, ops).0.Valid()
    ensures (Run(b, ops).0.Contents(), Run(b, ops).1) == FlatRun(b.Contents(), ops)
    decreases ops
  {
    if ops != [] {
      StepRefines(b, ops[0]);
      RunRefines(Step(b, ops[0]).0, ops[1..]);
    }
  }

  /** After `k` operations the buffer holds, and has returned, what the flat run does. */
  predicate AgreesAfter(b: Buffer, ops: seq<Op>, k: nat)
    requires b.Valid() && AllWellFormed(ops) && k <= |ops|
  {
    var (end, outs) := Run(b, ops[..k]);
    end.Valid() && (end.Contents(), outs) == FlatRun(b.Contents(), ops[..k])
  }

  lemma {:induction false} AgreesAfterFirst(b: Buffer, ops: seq<Op>)
    requires b.Valid() && AllWellFormed(ops) && ops != []
    ensures AgreesAfter(b, ops, 1) <==> Refines(b, ops[0])
  {
    hide Step, FlatStep;
    var (b', out) := Step(b, ops[0]);
    var (s', flat) := FlatStep(b.Contents(), ops[0]);
    var one := ops[..1];
    assert one[0] == ops[0] && one[1..] == [];
    assert [out] + [] == [out] && [flat] + [] == [flat];
    assert FlatRun(s', one[1..]) == (s', []);
    assert FlatRun(b.Contents(), one) == (s', [flat]);
    assert b'.Valid() ==> Run(b', one[1..]) == (b', []);
    assert Run(b, one) == (b', [out]);
    assert [out] == [flat] <==> out == flat by { assert [out][0] == out && [flat][0] == flat; }
  }

  lemma {:induction false} AgreesAfterMore(b: Buffer, ops: seq<Op>, k: nat)
    requires b.Valid() && AllWellFormed(ops) && ops != [] && k <= |ops| - 1 && Refines(b, ops[0])
    ensures AgreesAfter(b, ops, k + 1) <==> AgreesAfter(Step(b, ops[0]).0, ops[1..], k)
  {
    hide Step, FlatStep;
    assert ops[..k + 1][0] == ops[0] && ops[..k + 1][1..] == ops[1..][..k];
    var (b', out) := Step(b, ops[0]);
    var outs, flat := Run(b', ops[1..][..k]).1, FlatRun(b'.Contents(), ops[1..][..k]).1;
    assert ([out] + outs)[1..] == outs && ([out] + flat)[1..] == flat;
  }

  /** A run is orderly if and only if it never differs from the flat run, at any point, in contents or results. */
  lemma {:induction false} RunRefinesExactly(b: Buffer, ops: seq<Op>)
    requires b.Valid() && AllWellFormed(ops)
    ensures OrderlyRun(b, ops) <==> forall k: nat :: k <= |ops| ==> AgreesAfter(b, ops, k)
    decreases ops
  {
    hide Step, FlatStep, Orderly;
    assert ops[..0] == [];
    assert AgreesAfter(b, ops, 0);
    if ops != [] {
      StepRefines(b, ops[0]);
      AgreesAfterFirst(b, ops);
      if Refines(b, ops[0]) {
        var b' := Step(b, ops[0]).0;
        RunRefinesExactly(b', ops[1..]);
        forall k: nat | k <= |ops| - 1
          ensures AgreesAfter(b, ops, k + 1) <==> AgreesAfter(b', ops[1..], k)
        {
          AgreesAfterMore(b, ops, k);
        }
        assert forall k: nat :: 0 < k <= |ops| ==> (AgreesAfter(b, ops, k) <==> AgreesAfter(b', ops[1..], k - 1));
      } else {
        assert !AgreesAfter(b, ops, 1);
      }
    }
  }

  // ---------- conservation ----------

  /** The bytes a run pushes. */
  function Pushed(ops: seq<Op>): seq<byte> {
    if ops == [] then [] else (if ops[0].OpPush? then ops[0].data else []) + Pushed(ops[1..])
  }

  /** The bytes one result accounts for. */
  function Taken(op: Op, out: Option<seq<byte>>): seq<byte>
    requires WellFormed(op)
  {
    if out.None? then []
    else if op.OpPopSep? then out.value + op.mem[..op.l]
    else out.value
  }

  /** The bytes a run's results account for, dropped separators included. */
  function Consumed(ops: seq<Op>, outs: seq<Option<seq<byte>>>): seq<byte>
    requires |ops| == |outs|
    requires AllWellFormed(ops)
  {
    if ops == [] then []
    else
      Taken(ops[0], outs[0]) + Consumed(ops[1..], outs[1..])
  }

  /** The step loses no byte: what was there and what comes in is what goes out and what stays. */
  predicate StepConserves(b: Buffer, op: Op)
    requires b.Valid() && WellFormed(op)
  {
    var (b', out) := Step(b, op);
    b'.Valid() && b.Contents() + Pushed([op]) == Taken(op, out) + b'.Contents()
  }

  /** What decides it: a pop that finds its separator finds a tidy one, and detaching meets at most one block,
      unread. A pop that finds nothing changes nothing. */
  ghost predicate Conserving(b: Buffer, op: Op)
    requires b.Valid() && WellFormed(op)
  {
    match op
    case OpPopSep(mem, l) =>
      (match FirstLiteral(b.blocks, mem, l, b.offset)
       case None => true
       case Some(p) => Tidy(b.blocks, p, l))
    case OpDetach => |b.blocks| <= 1 && b.offset == 0
    case _ => true
  }

  lemma {:induction false} CutConserves(s: seq<byte>, sep: seq<byte>, i: nat, n: nat)
    requires MatchAt(s, sep, i) && |sep| <= n && i + n <= |s|
    ensures s == s[..i] + sep + s[i + n..] <==> n == |sep|
  {
    assert s == s[..i] + s[i..i + |sep|] + s[i + |sep|..];
  }

  lemma {:induction false} PopSepConserves(b: Buffer, mem: seq<byte>, l: nat)
    requires b.Valid() && 0 < l && 2 * l <= |mem|
    ensures StepConserves(b, OpPopSep(mem, l)) <==> Conserving(b, OpPopSep(mem, l))
  {
    hide Flatten, Start, Reach, ReachMore, FirstLiteral, LiteralMatch, Tidy, MatchAt;
    OffsetBound(b);
    var s := b.Contents();
    assert s + Pushed([OpPopSep(mem, l)]) == s;
    var lit := FirstLiteral(b.blocks, mem, l, b.offset);
    if lit.Some? {
      var i := lit.value - b.offset;
      PopSepHit(b, mem, l, i);
      LiteralIsMatch(b, mem, l, i);
      CutConserves(s, mem[..l], i, Reach(b.blocks, lit.value, l));
      ReachIsExact(b.blocks, lit.value, l);
    }
  }

  lemma {:induction false} DetachConserves(b: Buffer)
    requires b.Valid()
    ensures StepConserves(b, OpDetach) <==> Conserving(b, OpDetach)
  {
    DetachRefines(b);
    var (b', out) := Detach(b);
    if b'.Valid() && b.blocks != [] {
      OffsetBound(b);
      assert |b.Contents() + Pushed([OpDetach])| == |b.Contents()|;
      assert |out.value + b'.Contents()| == |b.Contents()| + |b'.Contents()|;
    }
  }

  lemma {:induction false} FlatStepConserves(s: seq<byte>, op: Op)
    requires WellFormed(op)
    ensures s + Pushed([op]) == Taken(op, FlatStep(s, op).1) + FlatStep(s, op).0
  {
    if op.OpPopSep? && Find(s, op.mem[..op.l]).Some? {
      var i, l := Find(s, op.mem[..op.l]).value, op.l;
      assert s == s[..i] + s[i..i + l] + s[i + l..];
    }
  }

  /** A step loses no byte if and only if it is a conserving one. */
  lemma {:induction false} StepConservesExactly(b: Buffer, op: Op)
    requires b.Valid() && WellFormed(op)
    ensures StepConserves(b, op) <==> Conserving(b, op)
  {
    match op
    case OpPopSep(mem, l) => PopSepConserves(b, mem, l);
    case OpDetach => DetachConserves(b);
    case _ =>
      StepRefines(b, op);
      FlatStepConserves(b.Contents(), op);
  }

  /** Every step of the run is a conserving one where it is taken. */
  ghost predicate ConservingRun(b: Buffer, ops: seq<Op>)
    requires b.Valid() && AllWellFormed(ops)
    decreases ops
  {
    ops == [] ||
    (Conserving(b, ops[0]) && Step(b, ops[0]).0.Valid() && ConservingRun(Step(b, ops[0]).0, ops[1..]))
  }

  /** After `k` operations everything pushed has been consumed, in order, or is still in the buffer. */
  predicate ConservesAfter(b: Buffer, ops: seq<Op>, k: nat)
    requires b.Valid() && AllWellFormed(ops) && k <= |ops|
  {
    var (end, outs) := Run(b, ops[..k]);
    && |outs| == k && end.Valid()
    && b.Contents() + Pushed(ops[..k]) == Consumed(ops[..k], outs) + end.Contents()
  }

  lemma {:induction false} ConservesAfterFirst(b: Buffer, ops: seq<Op>)
    requires b.Valid() && AllWellFormed(ops) && ops != []
    ensures ConservesAfter(b, ops, 1) <==> StepConserves(b, ops[0])
  {
    hide Step, Taken, Pushed;
    var (b', out) := Step(b, ops[0]);
    var one := ops[..1];
    assert one == [ops[0]] && one[1..] == [];
    assert [out] + [] == [out] && [out][1..] == [];
    assert b'.Valid() ==> Run(b', one[1..]) == (b', []);
    assert Run(b, one) == (b', [out]);
    assert Consumed(one[1..], []) == [];
    assert Consumed(one, [out]) == Taken(ops[0], out);
  }

  /** What holds of a step and of a rest holds of both, and only then. */
  lemma {:induction false} Rechain<T>(a: seq<T>, b: seq<T>, c: seq<T>, d: seq<T>, e: seq<T>, f: seq<T>, g: seq<T>)
    requires a + b == c + d
    ensures a + (b + e) == (c + f) + g <==> d + e == f + g
  {
    assert a + (b + e) == (a + b) + e == c + (d + e);
    assert (c + f) + g == c + (f + g);
    assert (c + (d + e))[|c|..] == d + e && (c + (f + g))[|c|..] == f + g;
  }

  lemma {:induction false} PushedCons(op: Op, ops: seq<Op>)
    ensures Pushed([op] + ops) == Pushed([op]) + Pushed(ops)
  {
    assert ([op] + ops)[1..] == ops;
  }

  lemma {:induction false} ConservesAfterMore(b: Buffer, ops: seq<Op>, k: nat)
    requires b.Valid() && AllWellFormed(ops) && ops != [] && k <= |ops| - 1 && StepConserves(b, ops[0])
    ensures ConservesAfter(b, ops, k + 1) <==> ConservesAfter(Step(b, ops[0]).0, ops[1..], k)
  {
    hide Step, Taken, Pushed;
    var rest := ops[1..][..k];
    assert ops[..k + 1] == [ops[0]] + rest;
    assert ops[..k + 1][0] == ops[0] && ops[..k + 1][1..] == rest;
    PushedCons(ops[0], rest);
    var (b', out) := Step(b, ops[0]);
    var (end, outs) := Run(b', rest);
    assert ([out] + outs)[1..] == outs;
    if |outs| == k && end.Valid() {
      assert Consumed(ops[..k + 1], [out] + outs) == Taken(ops[0], out) + Consumed(rest, outs);
      Rechain(b.Contents(), Pushed([ops[0]]), Taken(ops[0], out), b'.Contents(), Pushed(rest), Consumed(rest, outs),
              end.Contents());
    }
  }

  /** Conservation: a run keeps every byte, at every point, if and only if each of its steps is a conserving one. */
  lemma {:induction false} RunConservesExactly(b: Buffer, ops: seq<Op>)
    requires b.Valid() && AllWellFormed(ops)
    ensures ConservingRun(b, ops) <==> forall k: nat :: k <= |ops| ==> ConservesAfter(b, ops, k)
    decreases ops
  {
    hide Step, Conserving, StepConserves;
    assert ops[..0] == [];
    assert ConservesAfter(b, ops, 0);
    if ops != [] {
      StepConservesExactly(b, ops[0]);
      ConservesAfterFirst(b, ops);
      if StepConserves(b, ops[0]) {
        var b' := Step(b, ops[0]).0;
        assert b'.Valid() by { StepKeepsValid(b, ops[0]); }
        RunConservesExactly(b', ops[1..]);
        forall k: nat | k <= |ops| - 1
          ensures ConservesAfter(b, ops, k + 1) <==> ConservesAfter(b', ops[1..], k)
        {
          ConservesAfterMore(b, ops, k);
        }
        assert forall k: nat :: 0 < k <= |ops| ==> (ConservesAfter(b, ops, k) <==> ConservesAfter(b', ops[1..], k - 1));
      } else {
        assert !ConservesAfter(b, ops, 1);
      }
    }
  }

  lemma {:induction false} StepKeepsValid(b: Buffer, op: Op)
    requires b.Valid() && WellFormed(op) && StepConserves(b, op)
    ensures Step(b, op).0.Valid()
  {
  }

  /** A conserving run from a new buffer: everything pushed is consumed, in order, or still in the buffer. */
  lemma {:induction false} RunConserves(ops: seq<Op>)
    requires AllWellFormed(ops) && ConservingRun(EMPTY, ops)
    ensures var (b, outs) := Run(EMPTY, ops);
            && b.Valid() && |outs| == |ops|
            && Pushed(ops) == Consumed(ops, outs) + b.Contents()
  {
    RunConservesExactly(EMPTY, ops);
    assert ops[..|ops|] == ops;
    assert ConservesAfter(EMPTY, ops, |ops|);
    assert [] + Pushed(ops) == Pushed(ops);
  }

  /** What a caller sees to that sends no zero bytes: separators come with a zero byte behind them, nothing pushed
      holds one, and nothing is detached. */
  predicate ZeroFree(op: Op)
    requires WellFormed(op)
  {
    match op
    case OpPush(data) => 0 !in data
    case OpPopSep(mem, l) => mem[l] == 0
    case OpDetach => false
    case _ => true
  }

  predicate AllZeroFree(ops: seq<Op>)
    requires AllWellFormed(ops)
  {
    forall k :: 0 <= k < |ops| ==> ZeroFree(ops[k])
  }

  lemma {:induction false} ZeroFreeConserves(b: Buffer, op: Op)
    requires b.Valid() && 0 !in b.Contents() && WellFormed(op) && ZeroFree(op)
    ensures Conserving(b, op) && Step(b, op).0.Valid() && 0 !in Step(b, op).0.Contents()
  {
    hide Flatten, Start, Reach, ReachMore, FirstLiteral, LiteralMatch, Tidy, AcceptedAt, Step, Taken;
    if op.OpPopSep? {
      OffsetBound(b);
      var lit := FirstLiteral(b.blocks, op.mem, op.l, b.offset);
      if lit.Some? {
        AcceptedIsLiteral(b, op.mem, op.l, lit.value - b.offset);
        ZeroBehindIsTidy(b, op.mem, op.l, lit.value - b.offset);
      }
    }
    StepConservesExactly(b, op);
    var (b', out) := Step(b, op);
    assert Pushed([op]) == if op.OpPush? then op.data else [];
    forall x | x in b'.Contents()
      ensures x in b.Contents() + Pushed([op])
    {
      assert x in Taken(op, out) + b'.Contents();
    }
  }

  /** Without zero bytes in what is pushed, no run of pushes and pops ever loses a byte, however it is cut into blocks
      and whatever its separators. */
  lemma {:induction false} ZeroFreeRunConserves(b: Buffer, ops: seq<Op>)
    requires b.Valid() && 0 !in b.Contents() && AllWellFormed(ops) && AllZeroFree(ops)
    ensures ConservingRun(b, ops)
    decreases ops
  {
    hide Step, Conserving, ZeroFree;
    if ops != [] {
      ZeroFreeConserves(b, ops[0]);
      ZeroFreeRunConserves(Step(b, ops[0]).0, ops[1..]);
    }
  }

  // ---------- readers of separated messages ----------

  /** The results that are not nil, in order. */
  function Results(outs: seq<Option<seq<byte>>>): seq<seq<byte>> {
    if outs == [] then [] else (if outs[0].Some? then [outs[0].value] else []) + Results(outs[1..])
  }

  lemma {:induction false} ResultsCons(out: Option<seq<byte>>, outs: seq<Option<seq<byte>>>, more: seq<seq<byte>>)
    ensures Results([out] + outs) + more == Results([out]) + (Results(outs) + more)
  {
    assert ([out] + outs)[1..] == outs;
  }

  predicate FramedOp(op: Op, sep: seq<byte>) {
    op.OpPush? || (op.OpPopSep? && op.l == |sep| && 2 * op.l <= |op.mem| && op.mem[..op.l] == sep)
  }

  /** A run that only pushes and pops to one separator. */
  predicate FramedReader(ops: seq<Op>, sep: seq<byte>) {
    sep != [] && forall k :: 0 <= k < |ops| ==> FramedOp(ops[k], sep)
  }

  /** Orderly where it matters: if the comparison accepts any occurrence, then the first one of all is tidy. */
  ghost predicate OrderlyHit(b: Buffer, op: Op)
    requires b.Valid() && WellFormed(op)
  {
    match op
    case OpPopSep(mem, l) => (exists i: nat :: AcceptedAt(b, mem, l, i)) ==> Orderly(b, op)
    case _ => Orderly(b, op)
  }

  /** The same said by the result: a step that returns something is an orderly one. */
  lemma {:induction false} OrderlyHitByResult(b: Buffer, op: Op)
    requires b.Valid() && WellFormed(op)
    ensures OrderlyHit(b, op) <==> (Step(b, op).1.Some? ==> Orderly(b, op))
  {
    hide AcceptedAt, Find, Tidy, FirstLiteral;
    match op
    case OpPopSep(mem, l) => FindSepAgrees(b, mem, l);
    case _ =>
  }

  ghost predicate OrderlyHits(b: Buffer, ops: seq<Op>)
    requires b.Valid() && AllWellFormed(ops)
    decreases ops
  {
    ops == [] ||
    (OrderlyHit(b, ops[0]) && Step(b, ops[0]).0.Valid() && OrderlyHits(Step(b, ops[0]).0, ops[1..]))
  }

  lemma {:induction false} OrderlyRunHits(b: Buffer, ops: seq<Op>)
    requires b.Valid() && AllWellFormed(ops) && OrderlyRun(b, ops)
    ensures OrderlyHits(b, ops)
    decreases ops
  {
    if ops != [] {
      OrderlyRunHits(Step(b, ops[0]).0, ops[1..]);
    }
  }

  /** An orderly hit is found where the flat search finds it, and conserves. */
  lemma {:induction false} OrderlyHitConserves(b: Buffer, op: Op)
    requires b.Valid() && WellFormed(op) && OrderlyHit(b, op)
    ensures Conserving(b, op)
  {
    hide Flatten, Start, Reach, ReachMore, FirstLiteral, LiteralMatch, Tidy, Find, OrderlyHit;
    OrderlyHitByResult(b, op);
    if op.OpPopSep? {
      OffsetBound(b);
      var lit := FirstLiteral(b.blocks, op.mem, op.l, b.offset);
      if lit.Some? {
        LiteralIsNotEarly(b, op.mem, op.l, lit.value);
        OrderlyLiteral(b, op.mem, op.l, Find(b.Contents(), op.mem[..op.l]).value);
      }
    }
  }

  /** Orderly hits conserve in every run, pops by count, pop-all and detach included, not only in a reader's. */
  lemma {:induction false} OrderlyHitsConserve(b: Buffer, ops: seq<Op>)
    requires b.Valid() && AllWellFormed(ops) && OrderlyHits(b, ops)
    ensures ConservingRun(b, ops)
    decreases ops
  {
    hide Step, OrderlyHit, Conserving;
    if ops != [] {
      OrderlyHitConserves(b, ops[0]);
      OrderlyHitsConserve(Step(b, ops[0]).0, ops[1..]);
    }
  }

  /** One step of a reader takes off the split what it returns, whatever is still to come. */
  predicate TakesFrame(b: Buffer, op: Op, sep: seq<byte>, later: seq<byte>)
    requires b.Valid() && WellFormed(op) && sep != []
  {
    var (b', out) := Step(b, op);
    b'.Valid() && Split(b.Contents() + Pushed([op]) + later, sep) == Results([out]) + Split(b'.Contents() + later, sep)
  }

  lemma {:induction false} NilIsNoResult(more: seq<seq<byte>>)
    ensures Results([None]) + more == more
  {
  }

  lemma {:induction false} OneResult(out: seq<byte>)
    ensures Results([Some(out)]) == [out]
  {
    assert Results([Some(out)]) == [out] + Results([Some(out)][1..]);
  }

  lemma {:induction false} HitTakesFrame(b: Buffer, op: Op, sep: seq<byte>, later: seq<byte>)
    requires b.Valid() && WellFormed(op) && sep != [] && FramedOp(op, sep) && OrderlyHit(b, op)
    ensures TakesFrame(b, op, sep, later)
  {
    hide Find, PopFlat, Flatten, Tidy, FirstLiteral, LiteralMatch, Reach, ReachMore, DropTo, OrderlyHit;
    OrderlyHitByResult(b, op);
    var (b', out) := Step(b, op);
    if op.OpPush? {
      PushRefines(b, op.data);
      assert Pushed([op]) == op.data;
      NilIsNoResult(Split(b'.Contents() + later, sep));
    } else {
      assert b.Contents() + Pushed([op]) == b.Contents();
      if out.None? {
        NilIsNoResult(Split(b'.Contents() + later, sep));
      } else {
        OneResult(out.value);
        OrderlyPopSepIsFlat(b, op.mem, op.l);
        SplitPop(b.Contents(), sep, later);
      }
    }
  }

  /** Conversely, a step that loses nothing and takes off the split what it returns was an orderly hit. */
  lemma {:induction false} FrameIsHit(b: Buffer, op: Op, sep: seq<byte>)
    requires b.Valid() && WellFormed(op) && sep != [] && FramedOp(op, sep)
    requires StepConserves(b, op) && TakesFrame(b, op, sep, [])
    ensures OrderlyHit(b, op)
  {
    hide Flatten, Start, Reach, ReachMore, FirstLiteral, LiteralMatch, Tidy, Find, OrderlyHit;
    OrderlyHitByResult(b, op);
    if op.OpPopSep? {
      OffsetBound(b);
      var s, lit := b.Contents(), FirstLiteral(b.blocks, op.mem, op.l, b.offset);
      if lit.Some? {
        StepConservesExactly(b, op);
        PopSepHit(b, op.mem, op.l, lit.value - b.offset);
        LiteralIsNotEarly(b, op.mem, op.l, lit.value);
        var p, i := lit.value - b.offset, Find(s, sep).value;
        assert s + Pushed([op]) + [] == s;
        assert Split(s, sep)[0] == s[..i];
        assert Results([Some(s[..p])])[0] == s[..p];
        assert |s[..p]| == |s[..i]|;
      }
    }
  }

  /** After `k` operations the results are the first frames of everything pushed, and the buffer holds the others. */
  predicate SplitsAfter(b: Buffer, ops: seq<Op>, k: nat, sep: seq<byte>)
    requires b.Valid() && AllWellFormed(ops) && k <= |ops| && sep != []
  {
    var (end, outs) := Run(b, ops[..k]);
    end.Valid() && Split(b.Contents() + Pushed(ops[..k]), sep) == Results(outs) + Split(end.Contents(), sep)
  }

  lemma {:induction false} SplitsAfterFirst(b: Buffer, ops: seq<Op>, sep: seq<byte>)
    requires b.Valid() && AllWellFormed(ops) && ops != [] && sep != []
    ensures SplitsAfter(b, ops, 1, sep) <==> TakesFrame(b, ops[0], sep, [])
  {
    hide Step, Pushed, Split;
    var (b', out) := Step(b, ops[0]);
    var one := ops[..1];
    assert one == [ops[0]] && one[1..] == [];
    assert [out] + [] == [out];
    assert b'.Valid() ==> Run(b', one[1..]) == (b', []);
    assert Run(b, one) == (b', [out]);
    var s := b.Contents() + Pushed([ops[0]]);
    assert s + [] == s && (b'.Valid() ==> b'.Contents() + [] == b'.Contents());
  }

  lemma {:induction false} SplitsAfterMore(b: Buffer, ops: seq<Op>, k: nat, sep: seq<byte>)
    requires b.Valid() && AllWellFormed(ops) && ops != [] && k <= |ops| - 1 && FramedReader(ops, sep)
    requires OrderlyHit(b, ops[0]) && Step(b, ops[0]).0.Valid()
    ensures SplitsAfter(b, ops, k + 1, sep) <==> SplitsAfter(Step(b, ops[0]).0, ops[1..], k, sep)
  {
    hide Step, Pushed, Split, OrderlyHit;
    var rest := ops[1..][..k];
    assert ops[..k + 1] == [ops[0]] + rest;
    assert ops[..k + 1][0] == ops[0] && ops[..k + 1][1..] == rest;
    PushedCons(ops[0], rest);
    var (b', out) := Step(b, ops[0]);
    var (end, outs) := Run(b', rest);
    assert FramedOp(ops[0], sep);
    HitTakesFrame(b, ops[0], sep, Pushed(rest));
    assert b.Contents() + (Pushed([ops[0]]) + Pushed(rest)) == b.Contents() + Pushed([ops[0]]) + Pushed(rest);
    if end.Valid() {
      var others := Split(end.Contents(), sep);
      ResultsCons(out, outs, others);
      Cancel(Results([out]), Split(b'.Contents() + Pushed(rest), sep), Results(outs) + others);
    }
  }

  lemma {:induction false} Cancel<T>(a: seq<T>, b: seq<T>, c: seq<T>)
    ensures a + b == a + c <==> b == c
  {
    assert (a + b)[|a|..] == b && (a + c)[|a|..] == c;
  }

  /** Schedule independence, exactly: however pushes and pops interleave and whatever the chunking, no byte is lost
      and the results are, at every point, the first frames of everything pushed, if and only if every pop that
      returned something found an orderly occurrence. Pops that return nothing may miss what they like. */
  lemma {:induction false} ReaderSplitsExactly(b: Buffer, ops: seq<Op>, sep: seq<byte>)
    requires b.Valid() && AllWellFormed(ops) && FramedReader(ops, sep)
    ensures OrderlyHits(b, ops) <==>
            forall k: nat :: k <= |ops| ==> ConservesAfter(b, ops, k) && SplitsAfter(b, ops, k, sep)
    decreases ops
  {
    hide Step, OrderlyHit, StepConserves, TakesFrame, ConservesAfter, SplitsAfter, Conserving;
    StartsSplit(b, ops, sep);
    if ops != [] {
      var b' := Step(b, ops[0]).0;
      assert FramedOp(ops[0], sep);
      ReaderKeepsValid(b, ops[0], sep);
      ConservesAfterFirst(b, ops);
      SplitsAfterFirst(b, ops, sep);
      if OrderlyHit(b, ops[0]) {
        OrderlyHitConserves(b, ops[0]);
        StepConservesExactly(b, ops[0]);
        ReaderSplitsExactly(b', ops[1..], sep);
        forall k: nat | k <= |ops| - 1
          ensures ConservesAfter(b, ops, k + 1) && SplitsAfter(b, ops, k + 1, sep) <==>
                  ConservesAfter(b', ops[1..], k) && SplitsAfter(b', ops[1..], k, sep)
        {
          ConservesAfterMore(b, ops, k);
          SplitsAfterMore(b, ops, k, sep);
        }
        assert forall k: nat :: 0 < k <= |ops| ==>
                 (ConservesAfter(b, ops, k) && SplitsAfter(b, ops, k, sep) <==>
                  ConservesAfter(b', ops[1..], k - 1) && SplitsAfter(b', ops[1..], k - 1, sep));
      } else if ConservesAfter(b, ops, 1) && SplitsAfter(b, ops, 1, sep) {
        FrameIsHit(b, ops[0], sep);
      }
    }
  }

  lemma {:induction false} StartsSplit(b: Buffer, ops: seq<Op>, sep: seq<byte>)
    requires b.Valid() && AllWellFormed(ops) && sep != []
    ensures ConservesAfter(b, ops, 0) && SplitsAfter(b, ops, 0, sep)
  {
    assert ops[..0] == [];
    assert b.Contents() + [] == b.Contents();
  }

  lemma {:induction false} ReaderKeepsValid(b: Buffer, op: Op, sep: seq<byte>)
    requires b.Valid() && WellFormed(op) && FramedOp(op, sep)
    ensures Step(b, op).0.Valid()
  {
    if op.OpPopSep? {
      PopSepRefines(b, op.mem, op.l);
    }
  }

  /** From a new buffer: the results are the first frames of everything pushed, and all of them once nothing more
      can be popped. */
  lemma {:induction false} ReaderIsScheduleIndependent(ops: seq<Op>, sep: seq<byte>)
    requires FramedReader(ops, sep) && OrderlyHits(EMPTY, ops)
    ensures var (b, outs) := Run(EMPTY, ops);
            && b.Valid()
            && Split(Pushed(ops), sep) == Results(outs) + Split(b.Contents(), sep)
            && (Find(b.Contents(), sep).None? ==> Results(outs) == Split(Pushed(ops), sep))
  {
    ReaderSplitsExactly(EMPTY, ops, sep);
    assert ops[..|ops|] == ops;
    assert SplitsAfter(EMPTY, ops, |ops|, sep);
    assert [] + Pushed(ops) == Pushed(ops);
  }

  lemma {:induction false} ResultsOfStep(out: Option<seq<byte>>, outs: seq<Option<seq<byte>>>)
    ensures Results([out] + outs) == (if out.Some? then [out.value] else []) + Results(outs)
  {
    assert ([out] + outs)[1..] == outs;
  }

  /** The bytes from here on are the beginning of the given messages, framed. */
  predicate Carries(b: Buffer, ops: seq<Op>, msgs: seq<seq<byte>>, sep: seq<byte>)
    requires b.Valid()
  {
    b.Contents() + Pushed(ops) <= Frame(msgs, sep) && forall m :: m in msgs ==> Frameable(m, sep)
  }

  /** After `k` operations no byte is lost, and what has been popped are the first messages. */
  predicate DeliversAfter(b: Buffer, ops: seq<Op>, k: nat, msgs: seq<seq<byte>>)
    requires b.Valid() && AllWellFormed(ops) && k <= |ops|
  {
    ConservesAfter(b, ops, k) && Results(Run(b, ops[..k]).1) <= msgs
  }

  /** Behind a frameable message the separator is not seen before the message's end. */
  lemma {:induction false} FirstIsEnd(s: seq<byte>, m: seq<byte>, rest: seq<byte>, sep: seq<byte>)
    requires s == m + sep + rest && Frameable(m, sep)
    ensures Find(s, sep) == Some(|m|)
  {
    FindStable(m + sep, rest, sep);
  }

  lemma {:induction false} FirstMessageIsOrderly(b: Buffer, op: Op, m: seq<byte>, sep: seq<byte>)
    requires b.Valid() && WellFormed(op) && FramedOp(op, sep) && sep != [] && Frameable(m, sep)
    requires StepConserves(b, op) && Step(b, op).1 == Some(m)
    ensures OrderlyHit(b, op) && op.OpPopSep? && b.Contents() == m + sep + Step(b, op).0.Contents()
  {
    hide Flatten, Start, Reach, ReachMore, FirstLiteral, LiteralMatch, Tidy, Find, OrderlyHit, Frameable, DropTo;
    var s := b.Contents();
    OrderlyHitByResult(b, op);
    StepConservesExactly(b, op);
    OffsetBound(b);
    var lit := FirstLiteral(b.blocks, op.mem, op.l, b.offset).value;
    PopSepHit(b, op.mem, op.l, lit - b.offset);
    assert s + Pushed([op]) == s;
    FirstIsEnd(s, m, Step(b, op).0.Contents(), sep);
  }

  /** A step that conserves and returns the first message was an orderly hit, and leaves the other messages to come. */
  lemma {:induction false} FirstMessageIsHit(b: Buffer, ops: seq<Op>, msgs: seq<seq<byte>>, sep: seq<byte>)
    requires b.Valid() && AllWellFormed(ops) && ops != [] && FramedReader(ops, sep) && Carries(b, ops, msgs, sep)
    requires StepConserves(b, ops[0]) && Step(b, ops[0]).1.Some?
    requires msgs != [] && Step(b, ops[0]).1.value == msgs[0]
    ensures OrderlyHit(b, ops[0]) && Carries(Step(b, ops[0]).0, ops[1..], msgs[1..], sep)
  {
    hide Flatten, Find, OrderlyHit, Frameable, Step, StepConserves;
    var op, m := ops[0], msgs[0];
    assert FramedOp(op, sep);
    FirstMessageIsOrderly(b, op, m, sep);
    var b' := Step(b, op).0;
    StepKeepsValid(b, op);
    assert Pushed(ops) == [] + Pushed(ops[1..]);
    DropFrame(m + sep, b'.Contents(), Pushed(ops[1..]), Frame(msgs, sep), Frame(msgs[1..], sep));
  }

  lemma {:induction false} DropFrame<T>(a: seq<T>, c: seq<T>, p: seq<T>, all: seq<T>, rest: seq<T>)
    requires (a + c) + ([] + p) <= all && all == a + rest
    ensures c + p <= rest
  {
    assert ((a + c) + ([] + p))[|a|..] == c + p && all[|a|..] == rest;
  }

  lemma {:induction false} CarriesOn(b: Buffer, ops: seq<Op>, msgs: seq<seq<byte>>, sep: seq<byte>)
    requires b.Valid() && AllWellFormed(ops) && ops != [] && FramedReader(ops, sep) && Carries(b, ops, msgs, sep)
    requires Step(b, ops[0]).1.None?
    ensures OrderlyHit(b, ops[0]) && Step(b, ops[0]).0.Valid() && Carries(Step(b, ops[0]).0, ops[1..], msgs, sep)
  {
    hide Flatten, Tidy, Find, OrderlyHit, Frame, Frameable, FirstLiteral;
    var op := ops[0];
    assert FramedOp(op, sep);
    OrderlyHitByResult(b, op);
    if op.OpPush? {
      PushRefines(b, op.data);
      assert b.Contents() + Pushed(ops) == (b.Contents() + op.data) + Pushed(ops[1..]);
    } else {
      assert Pushed(ops) == Pushed(ops[1..]);
    }
  }

  lemma {:induction false} DeliversAfterMore(b: Buffer, ops: seq<Op>, k: nat, msgs: seq<seq<byte>>)
    requires b.Valid() && AllWellFormed(ops) && ops != [] && k <= |ops| - 1 && StepConserves(b, ops[0])
    requires Step(b, ops[0]).1.Some? ==> msgs != [] && msgs[0] == Step(b, ops[0]).1.value
    ensures DeliversAfter(b, ops, k + 1, msgs) <==>
            DeliversAfter(Step(b, ops[0]).0, ops[1..], k, if Step(b, ops[0]).1.Some? then msgs[1..] else msgs)
  {
    hide Step, ConservesAfter, Results;
    ConservesAfterMore(b, ops, k);
    var (b', out) := Step(b, ops[0]);
    assert b'.Valid() by { StepKeepsValid(b, ops[0]); }
    var rest := ops[1..][..k];
    assert ops[..k + 1][0] == ops[0] && ops[..k + 1][1..] == rest;
    var outs := Run(b', rest).1;
    ResultsOfStep(out, outs);
    if out.Some? {
      ConsPrefix(msgs[0], Results(outs), msgs);
    }
  }

  lemma {:induction false} ConsPrefix<T>(x: T, a: seq<T>, b: seq<T>)
    requires b != [] && b[0] == x
    ensures [x] + a <= b <==> a <= b[1..]
  {
    if [x] + a <= b {
      assert a == ([x] + a)[1..] && b[1..][..|a|] == b[..|a| + 1][1..];
    }
    if a <= b[1..] {
      assert [x] + a == b[..|a| + 1];
    }
  }

  /** Delivery, exactly: when what is pushed is the beginning of frameable messages, no byte is lost and the messages
      popped are the first ones, at every point, if and only if every pop that found anything found it in order. */
  lemma {:induction false} ReaderDeliversExactly(b: Buffer, ops: seq<Op>, msgs: seq<seq<byte>>, sep: seq<byte>)
    requires b.Valid() && AllWellFormed(ops) && FramedReader(ops, sep) && Carries(b, ops, msgs, sep)
    ensures OrderlyHits(b, ops) <==> forall k: nat :: k <= |ops| ==> DeliversAfter(b, ops, k, msgs)
    decreases ops
  {
    hide Step, OrderlyHit, StepConserves, ConservesAfter, Conserving, Carries, DeliversAfter;
    DeliversNothing(b, ops, msgs, sep);
    if ops != [] {
      var (b', out) := Step(b, ops[0]);
      var rest := if out.Some? && msgs != [] then msgs[1..] else msgs;
      assert FramedOp(ops[0], sep);
      ReaderKeepsValid(b, ops[0], sep);
      FirstDelivery(b, ops, msgs, sep);
      if OrderlyHit(b, ops[0]) && DeliversAfter(b, ops, 1, msgs) {
        ReaderDeliversExactly(b', ops[1..], rest, sep);
        forall k: nat | k <= |ops| - 1
          ensures DeliversAfter(b, ops, k + 1, msgs) <==> DeliversAfter(b', ops[1..], k, rest)
        {
          DeliversAfterMore(b, ops, k, msgs);
        }
        assert forall k: nat :: 0 < k <= |ops| ==>
                 (DeliversAfter(b, ops, k, msgs) <==> DeliversAfter(b', ops[1..], k - 1, rest));
      }
    }
  }

  lemma {:induction false} DeliversNothing(b: Buffer, ops: seq<Op>, msgs: seq<seq<byte>>, sep: seq<byte>)
    requires b.Valid() && AllWellFormed(ops) && sep != []
    ensures DeliversAfter(b, ops, 0, msgs)
  {
    StartsSplit(b, ops, sep);
    assert ops[..0] == [];
  }

  /** The first operation of a reader is an orderly hit if and only if it loses nothing and pops no more than the first
      message. */
  lemma {:induction false} FirstDelivery(b: Buffer, ops: seq<Op>, msgs: seq<seq<byte>>, sep: seq<byte>)
    requires b.Valid() && AllWellFormed(ops) && ops != [] && FramedReader(ops, sep) && Carries(b, ops, msgs, sep)
    ensures OrderlyHit(b, ops[0]) <==> DeliversAfter(b, ops, 1, msgs)
    ensures OrderlyHit(b, ops[0]) ==>
              var (b', out) := Step(b, ops[0]);
              && StepConserves(b, ops[0]) && b'.Valid()
              && (out.Some? ==> msgs != [] && msgs[0] == out.value)
              && Carries(b', ops[1..], if out.Some? then msgs[1..] else msgs, sep)
  {
    hide Step, OrderlyHit, StepConserves, ConservesAfter, Conserving, Carries, Results;
    var (b', out) := Step(b, ops[0]);
    assert FramedOp(ops[0], sep);
    ReaderKeepsValid(b, ops[0], sep);
    ConservesAfterFirst(b, ops);
    FirstResult(b, ops);
    if out.None? {
      CarriesOn(b, ops, msgs, sep);
      OrderlyHitConserves(b, ops[0]);
      StepConservesExactly(b, ops[0]);
      NilIsNoResult(msgs);
    } else {
      OneResult(out.value);
      if OrderlyHit(b, ops[0]) {
        OrderlyHitConserves(b, ops[0]);
        StepConservesExactly(b, ops[0]);
        HitIsFirstMessage(b, ops, msgs, sep);
        FirstMessageIsHit(b, ops, msgs, sep);
      } else if DeliversAfter(b, ops, 1, msgs) {
        FirstMessageIsHit(b, ops, msgs, sep);
      }
    }
  }

  lemma {:induction false} FirstResult(b: Buffer, ops: seq<Op>)
    requires b.Valid() && AllWellFormed(ops) && ops != []
    ensures Run(b, ops[..1]).1 == [Step(b, ops[0]).1]
  {
    hide Step;
    var (b', out) := Step(b, ops[0]);
    assert ops[..1][0] == ops[0] && ops[..1][1..] == [];
    assert [out] + [] == [out];
    assert b'.Valid() ==> Run(b', ops[..1][1..]) == (b', []);
  }

  lemma {:induction false} HitIsFirstMessage(b: Buffer, ops: seq<Op>, msgs: seq<seq<byte>>, sep: seq<byte>)
    requires b.Valid() && AllWellFormed(ops) && ops != [] && FramedReader(ops, sep) && Carries(b, ops, msgs, sep)
    requires OrderlyHit(b, ops[0]) && Step(b, ops[0]).1.Some?
    ensures msgs != [] && Step(b, ops[0]).1.value == msgs[0]
  {
    hide Flatten, Tidy, OrderlyHit, FirstLiteral, LiteralMatch, Reach, ReachMore, DropTo, Frameable;
    var op, s := ops[0], b.Contents();
    assert FramedOp(op, sep);
    OrderlyHitByResult(b, op);
    OrderlyPopSepIsFlat(b, op.mem, op.l);
    PrefixOfFrames(s, Pushed(ops), msgs, sep);
  }

  /** The first occurrence in the beginning of framed messages ends the first of them. */
  lemma {:induction false} PrefixOfFrames(s: seq<byte>, more: seq<byte>, msgs: seq<seq<byte>>, sep: seq<byte>)
    requires s + more <= Frame(msgs, sep) && sep != [] && (forall m :: m in msgs ==> Frameable(m, sep))
    requires Find(s, sep).Some?
    ensures msgs != [] && s[..Find(s, sep).value] == msgs[0]
  {
    hide Find, Frame, Frameable;
    var all := Frame(msgs, sep);
    assert s <= all by { assert s == (s + more)[..|s|]; }
    SplitPrefix(s, all, sep);
    SplitInvertsFrame(msgs, sep);
    assert Split(s, sep)[0] == s[..Find(s, sep).value];
  }

  /** The pop that misses its separator is not orderly, but it is no hit, and loses nothing. */
  lemma {:induction false} MissedPopConserves()
    ensures var b := Buffer([[97], [98, 99]], 0);
            var pop := OpPopSep([97, 98, 0, 0], 2);
            && b.Valid() && !Orderly(b, pop) && OrderlyHit(b, pop) && StepConserves(b, pop)
  {
    var b := Buffer([[97], [98, 99]], 0);
    var mem: seq<byte> := [97, 98, 0, 0];
    MissedSeparator();
    FindIsFirst(b.Contents(), mem[..2], 0);
    StepRefines(b, OpPopSep(mem, 2));
    OrderlyHitByResult(b, OpPopSep(mem, 2));
    assert b.Contents() + [] == b.Contents();
  }

  /** With a one-byte separator every such run is orderly. */
  lemma {:induction false} OneByteReaderIsOrderly(b: Buffer, ops: seq<Op>, sep: seq<byte>)
    requires b.Valid() && FramedReader(ops, sep) && |sep| == 1
    ensures OrderlyRun(b, ops)
    decreases ops
  {
    if ops != [] {
      if ops[0].OpPopSep? {
        OneByteIsTidy(b, ops[0].mem);
      }
      StepRefines(b, ops[0]);
      OneByteReaderIsOrderly(Step(b, ops[0]).0, ops[1..], sep);
    }
  }
}
