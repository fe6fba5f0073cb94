/** The receive buffer with the two repairs that make it keep its promise for every chunking: `checksep` cutting
    each block at what is still unmatched, and `ldetach` releasing the last block whole. */
module IntendedBuffer {
  import opened Bytes
  import opened Framing
  import opened ChunkBuffer
  import R = BufferRuns

  // ---------- the repaired comparison and scan ----------

  /** `checksep` from offset `off` of block `k`, each block cut at what is still unmatched of the separator. */
  predicate MatchesFrom(blocks: seq<seq<byte>>, k: nat, off: nat, sep: seq<byte>)
    requires k < |blocks| && off <= |blocks[k]|
    decreases |blocks| - k
  {
    var sz := Min(|blocks[k]| - off, |sep|);
    && blocks[k][off..off + sz] == sep[..sz]
    && (sz == |sep| || (k + 1 < |blocks| && MatchesFrom(blocks, k + 1, 0, sep[sz..])))
  }

  /** Matching a separator is matching its first part and then the rest behind it. */
  lemma {:induction false} MatchSplit(s: seq<byte>, sep: seq<byte>, pos: nat, n: nat)
    requires n <= |sep| && pos + n <= |s|
    ensures MatchAt(s, sep, pos) <==> s[pos..pos + n] == sep[..n] && MatchAt(s, sep[n..], pos + n)
  {
    if pos + |sep| <= |s| {
      CompareSplit(s, pos, sep, n, |sep| - n);
      assert sep[..n + (|sep| - n)] == sep && sep[n..n + (|sep| - n)] == sep[n..];
    }
  }

  /** It succeeds exactly at the occurrences of the separator, wherever the blocks are cut. */
  lemma {:induction false} MatchesFromIsFlat(blocks: seq<seq<byte>>, k: nat, off: nat, sep: seq<byte>)
    requires k < |blocks| && off <= |blocks[k]|
    ensures MatchesFrom(blocks, k, off, sep) <==> MatchAt(Flatten(blocks), sep, Start(blocks, k) + off)
    decreases |blocks| - k
  {
    hide Flatten, Start, MatchAt;
    var sz := Min(|blocks[k]| - off, |sep|);
    StartStep(blocks, k);
    ChunkSlice(blocks, k, off, off + sz);
    MatchSplit(Flatten(blocks), sep, Start(blocks, k) + off, sz);
    if sz == |sep| {
      NothingLeft(Flatten(blocks), sep[sz..], Start(blocks, k) + off + sz);
    } else if k + 1 < |blocks| {
      MatchesFromIsFlat(blocks, k + 1, 0, sep[sz..]);
    } else {
      StartFull(blocks);
      NothingBehind(Flatten(blocks), sep[sz..]);
    }
  }

  lemma {:induction false} NothingLeft(s: seq<byte>, sep: seq<byte>, pos: nat)
    requires sep == [] && pos <= |s|
    ensures MatchAt(s, sep, pos)
  {
  }

  lemma {:induction false} NothingBehind(s: seq<byte>, sep: seq<byte>)
    requires sep != []
    ensures !MatchAt(s, sep, |s|)
  {
  }

  /** The nested loops over blocks and offsets: the absolute position of the first success. */
  function Scan(blocks: seq<seq<byte>>, k: nat, off: nat, sep: seq<byte>): Option<nat>
    requires k <= |blocks| && (if k < |blocks| then off <= |blocks[k]| else off == 0)
    decreases |blocks| - k, if k < |blocks| then |blocks[k]| - off else 0
  {
    if k == |blocks| then None
    else if off == |blocks[k]| then Scan(blocks, k + 1, 0, sep)
    else if MatchesFrom(blocks, k, off, sep) then Some(Start(blocks, k) + off)
    else Scan(blocks, k, off + 1, sep)
  }

  lemma {:induction false} ScanIsFlat(blocks: seq<seq<byte>>, k: nat, off: nat, sep: seq<byte>)
    requires k <= |blocks| && (if k < |blocks| then off <= |blocks[k]| else off == 0) && sep != []
    ensures Start(blocks, k) + off <= |Flatten(blocks)|
    ensures Scan(blocks, k, off, sep) == FindFrom(Flatten(blocks), sep, Start(blocks, k) + off)
    decreases |blocks| - k, if k < |blocks| then |blocks[k]| - off else 0
  {
    hide Flatten, Start, MatchesFrom;
    if k == |blocks| {
      StartFull(blocks);
    } else {
      StartStep(blocks, k);
      if off == |blocks[k]| {
        ScanIsFlat(blocks, k + 1, 0, sep);
      } else {
        MatchesFromIsFlat(blocks, k, off, sep);
        if !MatchesFrom(blocks, k, off, sep) {
          ScanIsFlat(blocks, k, off + 1, sep);
        }
      }
    }
  }

  /** A position counted from the read offset. */
  function Behind(r: Option<nat>, d: nat): Option<nat> {
    if r.Some? then Some(d + r.value) else None
  }

  lemma {:induction false} MatchBehind(all: seq<byte>, d: nat, sep: seq<byte>, i: nat)
    requires d <= |all|
    ensures MatchAt(all, sep, d + i) <==> MatchAt(all[d..], sep, i)
  {
    if d + i + |sep| <= |all| {
      SliceOfDrop(all, d, i, i + |sep|);
    }
  }

  lemma {:induction false} FindFromBehind(all: seq<byte>, d: nat, sep: seq<byte>, i: nat)
    requires d + i <= |all|
    ensures FindFrom(all, sep, d + i) == Behind(FindFrom(all[d..], sep, i), d)
    decreases |all| - i
  {
    hide MatchAt;
    MatchBehind(all, d, sep, i);
    if !MatchAt(all, sep, d + i) && d + i < |all| {
      FindFromBehind(all, d, sep, i + 1);
    }
  }

  lemma {:induction false} StartsAtOffset(b: Buffer)
    requires b.Valid()
    ensures b.offset <= |Flatten(b.blocks)| && Start(b.blocks, 0) == 0
    ensures if 0 < |b.blocks| then b.offset <= |b.blocks[0]| else b.offset == 0
  {
    OffsetBound(b);
    StartZero(b.blocks);
  }

  lemma {:induction false} ScanFinds(b: Buffer, sep: seq<byte>)
    requires b.Valid() && sep != []
    ensures Scan(b.blocks, 0, b.offset, sep) == Behind(Find(b.Contents(), sep), b.offset)
  {
    hide Flatten, Scan, FindFrom;
    StartsAtOffset(b);
    ScanIsFlat(b.blocks, 0, b.offset, sep);
    FindFromBehind(Flatten(b.blocks), b.offset, sep, 0);
  }

  // ---------- the operations ----------

  function PopSep(b: Buffer, sep: seq<byte>): (Buffer, Option<seq<byte>>)
    requires b.Valid() && sep != []
  {
    ScanFinds(b, sep);
    match Scan(b.blocks, 0, b.offset, sep)
    case None => (b, None)
    case Some(pos) => (DropTo(b.blocks, pos + |sep|), Some(b.Contents()[..pos - b.offset]))
  }

  predicate FindSep(b: Buffer, sep: seq<byte>)
    requires b.Valid()
  {
    if sep == [] then b.blocks != [] else Scan(b.blocks, 0, b.offset, sep).Some?
  }

  function Detach(b: Buffer): (Buffer, Option<seq<byte>>)
    requires b.Valid()
  {
    if b.blocks == [] then (b, None) else (EMPTY, Some(b.Contents()))
  }

  function Step(b: Buffer, op: Op): (Buffer, Option<seq<byte>>)
    requires b.Valid() && WellFormed(op)
  {
    match op
    case OpPopSep(mem, l) => PopSep(b, mem[..l])
    case OpDetach => Detach(b)
    case _ => ChunkBuffer.Step(b, op)
  }

  /** Popping to a separator is the flat pop, for every separator and every chunking. */
  lemma {:induction false} PopSepIsFlat(b: Buffer, sep: seq<byte>)
    requires b.Valid() && sep != []
    ensures PopSep(b, sep).0.Valid()
    ensures (PopSep(b, sep).0.Contents(), PopSep(b, sep).1) == PopFlat(b.Contents(), sep)
  {
    hide Flatten, Scan, Find, DropTo;
    ScanFinds(b, sep);
    var found := Find(b.Contents(), sep);
    if found.Some? {
      assert b.offset + found.value + |sep| == b.offset + (found.value + |sep|);
      DropContents(b, found.value + |sep|);
    }
  }

  /** So is the search. */
  lemma {:induction false} FindSepIsFlat(b: Buffer, sep: seq<byte>)
    requires b.Valid() && sep != []
    ensures FindSep(b, sep) <==> Find(b.Contents(), sep).Some?
  {
    ScanFinds(b, sep);
  }

  /** Every operation acts on the flat contents, without any condition. */
  lemma {:induction false} StepIsFlat(b: Buffer, op: Op)
    requires b.Valid() && WellFormed(op)
    ensures Step(b, op).0.Valid()
    ensures (Step(b, op).0.Contents(), Step(b, op).1) == FlatStep(b.Contents(), op)
  {
    hide Find, PopSep;
    match op
    case OpPopSep(mem, l) => PopSepIsFlat(b, mem[..l]);
    case OpDetach =>
    case _ => StepRefines(b, op);
  }

  /** The code does what the repaired code does exactly when the step is orderly. */
  lemma {:induction false} CodeAgreesExactly(b: Buffer, op: Op)
    requires b.Valid() && WellFormed(op)
    ensures var (code, out), (meant, due) := ChunkBuffer.Step(b, op), Step(b, op);
            && meant.Valid()
            && (code.Valid() && code.Contents() == meant.Contents() && out == due <==> Orderly(b, op))
  {
    hide Step, ChunkBuffer.Step, Orderly, FlatStep;
    StepRefines(b, op);
    StepIsFlat(b, op);
  }

  // ---------- runs ----------

  function Run(b: Buffer, ops: seq<Op>): (Buffer, seq<Option<seq<byte>>>)
    requires b.Valid() && AllWellFormed(ops)
    decreases ops
  {
    if ops == [] then (b, [])
    else
      StepIsFlat(b, ops[0]);
      var (b', out) := Step(b, ops[0]);
      var (end, outs) := Run(b', ops[1..]);
      (end, [out] + outs)
  }

  /** Every run is the flat run, whatever the chunking. */
  lemma {:induction false} RunIsFlat(b: Buffer, ops: seq<Op>)
    requires b.Valid() && AllWellFormed(ops)
    ensures Run(b, ops).0.Valid()
    ensures (Run(b, ops).0.Contents(), Run(b, ops).1) == R.FlatRun(b.Contents(), ops)
    decreases ops
  {
    hide Step, FlatStep;
    if ops != [] {
      StepIsFlat(b, ops[0]);
      RunIsFlat(Step(b, ops[0]).0, ops[1..]);
    }
  }

  lemma {:induction false} FlatRunConserves(s: seq<byte>, ops: seq<Op>)
    requires AllWellFormed(ops)
    ensures |R.FlatRun(s, ops).1| == |ops|
    ensures s + R.Pushed(ops) == R.Consumed(ops, R.FlatRun(s, ops).1) + R.FlatRun(s, ops).0
    decreases ops
  {
    if ops != [] {
      var (s', out) := FlatStep(s, ops[0]);
      var (end, outs) := R.FlatRun(s', ops[1..]);
      FlatRunConserves(s', ops[1..]);
      R.FlatStepConserves(s, ops[0]);
      assert ([out] + outs)[1..] == outs;
      assert R.Pushed(ops) == R.Pushed([ops[0]]) + R.Pushed(ops[1..]);
      Reassociate(s, R.Pushed([ops[0]]), R.Taken(ops[0], out), s', R.Pushed(ops[1..]), R.Consumed(ops[1..], outs), end);
    }
  }

  lemma {:induction false} FlatReaderStep(s: seq<byte>, op: Op, sep: seq<byte>, later: seq<byte>)
    requires sep != [] && R.FramedOp(op, sep)
    ensures var (s', out) := FlatStep(s, op);
            Split(s + R.Pushed([op]) + later, sep) == R.Results([out]) + Split(s' + later, sep)
  {
    hide Find, PopFlat;
    if op.OpPush? {
      assert R.Pushed([op]) == op.data;
    } else {
      assert s + R.Pushed([op]) == s;
      SplitPop(s, sep, later);
    }
  }

  lemma {:induction false} FlatReaderSplits(s: seq<byte>, ops: seq<Op>, sep: seq<byte>)
    requires R.FramedReader(ops, sep) && AllWellFormed(ops)
    ensures Split(s + R.Pushed(ops), sep) == R.Results(R.FlatRun(s, ops).1) + Split(R.FlatRun(s, ops).0, sep)
    decreases ops
  {
    hide Find, PopFlat;
    if ops == [] {
      assert s + [] == s;
    } else {
      var (s', out) := FlatStep(s, ops[0]);
      var (end, outs) := R.FlatRun(s', ops[1..]);
      assert R.FramedOp(ops[0], sep);
      var later := R.Pushed(ops[1..]);
      calc {
        Split(s + R.Pushed(ops), sep);
        { assert s + R.Pushed(ops) == s + R.Pushed([ops[0]]) + later; }
        Split(s + R.Pushed([ops[0]]) + later, sep);
        { FlatReaderStep(s, ops[0], sep, later); }
        R.Results([out]) + Split(s' + later, sep);
        { FlatReaderSplits(s', ops[1..], sep); }
        R.Results([out]) + (R.Results(outs) + Split(end, sep));
        { R.ResultsCons(out, outs, Split(end, sep)); }
        R.Results([out] + outs) + Split(end, sep);
      }
    }
  }

  /** Every reader conserves what is pushed and pops the first frames of it, all of them once nothing more can be
      popped, for every separator, schedule and chunking. */
  lemma {:induction false} ReaderIsFlat(ops: seq<Op>, sep: seq<byte>)
    requires R.FramedReader(ops, sep)
    ensures var (b, outs) := Run(EMPTY, ops);
            && b.Valid() && |outs| == |ops|
            && R.Pushed(ops) == R.Consumed(ops, outs) + b.Contents()
            && Split(R.Pushed(ops), sep) == R.Results(outs) + Split(b.Contents(), sep)
            && (Find(b.Contents(), sep).None? ==> R.Results(outs) == Split(R.Pushed(ops), sep))
  {
    RunIsFlat(EMPTY, ops);
    FlatRunConserves([], ops);
    FlatReaderSplits([], ops, sep);
    assert [] + R.Pushed(ops) == R.Pushed(ops);
  }
}
