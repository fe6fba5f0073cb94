/** The receive buffer as a value: the blocks still held and how far into the first one reading has got.
    Every operation is the code's own, including where `checksep` compares past the separator's end and
    where `ldetach` releases the wrong amount; the lemmas say exactly when each one behaves like the same
    operation on a flat byte sequence. */
module ChunkBuffer {
  import opened Bytes
  import opened Framing

  datatype Buffer = Buffer(blocks: seq<seq<byte>>, offset: nat) {
    predicate Valid() {
      && NoEmptyBlock(blocks)
      && (if blocks == [] then offset == 0 else offset < |blocks[0]|)
    }

    function Contents(): seq<byte>
      requires Valid()
    {
      Flatten(blocks)[offset..]
    }
  }

  lemma {:induction false} OffsetBound(b: Buffer)
    requires b.Valid()
    ensures b.offset <= |Flatten(b.blocks)| && (b.blocks != [] <==> b.offset < |Flatten(b.blocks)|)
  {
  }

  predicate NoEmptyBlock(blocks: seq<seq<byte>>) {
    forall k :: 0 <= k < |blocks| ==> |blocks[k]| > 0
  }

  const EMPTY := Buffer([], 0)

  // ---------- releasing a prefix ----------

  /** The buffer left when everything before absolute position `pos` is released. */
  function DropTo(blocks: seq<seq<byte>>, pos: nat): Buffer
    requires pos <= |Flatten(blocks)|
  {
    if blocks == [] then EMPTY
    else if pos < |blocks[0]| then Buffer(blocks, pos)
    else DropTo(blocks[1..], pos - |blocks[0]|)
  }

  /** Releasing to a position drops exactly the bytes before it. */
  lemma {:induction false} DropToIsExact(blocks: seq<seq<byte>>, pos: nat)
    requires NoEmptyBlock(blocks) && pos <= |Flatten(blocks)|
    ensures DropTo(blocks, pos).Valid()
    ensures DropTo(blocks, pos).Contents() == Flatten(blocks)[pos..]
  {
    if blocks != [] && pos >= |blocks[0]| {
      DropToIsExact(blocks[1..], pos - |blocks[0]|);
    }
  }

  /** Releasing `n` bytes more than have been read drops the first `n` bytes of the contents. */
  lemma {:induction false} DropContents(b: Buffer, n: nat)
    requires b.Valid() && n <= |b.Contents()|
    ensures b.offset + n <= |Flatten(b.blocks)|
    ensures DropTo(b.blocks, b.offset + n).Valid()
    ensures DropTo(b.blocks, b.offset + n).Contents() == b.Contents()[n..]
  {
    hide Flatten, DropTo;
    OffsetBound(b);
    DropToIsExact(b.blocks, b.offset + n);
    SliceOfDrop(Flatten(b.blocks), b.offset, n, n);
  }

  /** The block a released position falls in: what `freebuffer` leaves, block by block. */
  lemma {:induction false} DropToBlock(blocks: seq<seq<byte>>, k: nat, end: nat)
    requires NoEmptyBlock(blocks) && k < |blocks| && end <= |blocks[k]|
    ensures Start(blocks, k) + end <= |Flatten(blocks)|
    ensures DropTo(blocks, Start(blocks, k) + end) ==
            if end == |blocks[k]| then Buffer(blocks[k + 1..], 0) else Buffer(blocks[k..], end)
  {
    StartStep(blocks, k);
    if k == 0 {
      assert blocks[..0] == [];
      if end == |blocks[0]| && |blocks| > 1 {
        assert DropTo(blocks[1..], 0) == Buffer(blocks[1..], 0);
      }
    } else {
      assert blocks[..k] == [blocks[0]] + blocks[1..][..k - 1];
      assert Start(blocks, k) == |blocks[0]| + Start(blocks[1..], k - 1);
      DropToBlock(blocks[1..], k - 1, end);
      assert blocks[1..][k - 1..] == blocks[k..];
      assert blocks[1..][k..] == blocks[k + 1..];
    }
  }

  // ---------- the separator comparison of checksep ----------

  /** Bytes `checksep` compares from the next block on, when `missing` of the separator's `l` bytes are
      still unmatched: every block is cut at `l`, not at what is missing. */
  function ReachMore(blocks: seq<seq<byte>>, missing: nat, l: nat): (n: nat)
    requires 0 < missing <= l && missing <= |Flatten(blocks)|
    ensures missing <= n <= |Flatten(blocks)| && n < missing + l
  {
    if |blocks[0]| >= missing then Min(|blocks[0]|, l)
    else |blocks[0]| + ReachMore(blocks[1..], missing - |blocks[0]|, l)
  }

  /** Bytes `checksep` compares when it starts at absolute position `pos` and nothing differs. */
  function Reach(blocks: seq<seq<byte>>, pos: nat, l: nat): (n: nat)
    requires 0 < l && pos + l <= |Flatten(blocks)|
    ensures l <= n && pos + n <= |Flatten(blocks)| && n < 2 * l
  {
    if pos >= |blocks[0]| then Reach(blocks[1..], pos - |blocks[0]|, l)
    else if |blocks[0]| - pos >= l then l
    else |blocks[0]| - pos + ReachMore(blocks[1..], l - (|blocks[0]| - pos), l)
  }

  /** `checksep` succeeds at `pos`: `mem` is the memory the separator pointer designates, of which only
      the first `l` bytes are the separator. */
  predicate LiteralMatch(blocks: seq<seq<byte>>, mem: seq<byte>, l: nat, pos: nat)
    requires 0 < l && 2 * l <= |mem|
  {
    && pos + l <= |Flatten(blocks)|
    && Flatten(blocks)[pos..pos + Reach(blocks, pos, l)] == mem[..Reach(blocks, pos, l)]
  }

  /** Some block begins at absolute position `p`, or the blocks end there. */
  predicate Boundary(blocks: seq<seq<byte>>, p: nat) {
    exists k: nat :: k <= |blocks| && Start(blocks, k) == p
  }

  /** A stretch of `l` bytes is tidy when it lies inside one block or ends where a block ends. */
  ghost predicate Tidy(blocks: seq<seq<byte>>, pos: nat, l: nat) {
    Boundary(blocks, pos + l) || forall p: nat :: pos < p < pos + l ==> !Boundary(blocks, p)
  }

  lemma {:induction false} BoundaryShift(blocks: seq<seq<byte>>, p: nat)
    requires |blocks| > 0 && |blocks[0]| > 0
    ensures Boundary(blocks, p) <==> p == 0 || (p >= |blocks[0]| && Boundary(blocks[1..], p - |blocks[0]|))
  {
    assert Start(blocks, 0) == 0 by { assert blocks[..0] == []; }
    forall k: nat | 0 < k <= |blocks|
      ensures Start(blocks, k) == |blocks[0]| + Start(blocks[1..], k - 1)
    {
      assert blocks[..k] == [blocks[0]] + blocks[1..][..k - 1];
    }
    if p >= |blocks[0]| && Boundary(blocks[1..], p - |blocks[0]|) {
      var k: nat :| k <= |blocks[1..]| && Start(blocks[1..], k) == p - |blocks[0]|;
      assert Start(blocks, k + 1) == p;
    }
  }

  lemma {:induction false} ReachMoreIsExact(blocks: seq<seq<byte>>, missing: nat, l: nat)
    requires NoEmptyBlock(blocks) && 0 < missing < l && missing <= |Flatten(blocks)|
    ensures ReachMore(blocks, missing, l) == missing <==> Boundary(blocks, missing)
  {
    BoundaryShift(blocks, missing);
    if |blocks[0]| < missing {
      ReachMoreIsExact(blocks[1..], missing - |blocks[0]|, l);
    } else {
      assert Boundary(blocks[1..], 0) by { assert blocks[1..][..0] == []; assert Start(blocks[1..], 0) == 0; }
    }
  }

  /** `checksep` compares exactly the separator if and only if the stretch is tidy. */
  lemma {:induction false} ReachIsExact(blocks: seq<seq<byte>>, pos: nat, l: nat)
    requires NoEmptyBlock(blocks) && 0 < l && pos + l <= |Flatten(blocks)|
    ensures Reach(blocks, pos, l) == l <==> Tidy(blocks, pos, l)
  {
    forall p: nat
      ensures Boundary(blocks, p) <==> p == 0 || (p >= |blocks[0]| && Boundary(blocks[1..], p - |blocks[0]|))
    {
      BoundaryShift(blocks, p);
    }
    var b := |blocks[0]|;
    if pos >= b {
      ReachIsExact(blocks[1..], pos - b, l);
      TidyShift(blocks, pos, l);
    } else if b - pos < l {
      assert Boundary(blocks[1..], 0) by { assert blocks[1..][..0] == []; assert Start(blocks[1..], 0) == 0; }
      assert Boundary(blocks, b);
      ReachMoreIsExact(blocks[1..], l - (b - pos), l);
    }
  }

  lemma {:induction false} TidyShift(blocks: seq<seq<byte>>, pos: nat, l: nat)
    requires |blocks| > 0 && |blocks[0]| > 0 && 0 < l && pos >= |blocks[0]|
    ensures Tidy(blocks, pos, l) <==> Tidy(blocks[1..], pos - |blocks[0]|, l)
  {
    var b := |blocks[0]|;
    BoundaryShift(blocks, pos + l);
    forall p: nat | pos < p
      ensures Boundary(blocks, p) <==> Boundary(blocks[1..], p - b)
    {
      BoundaryShift(blocks, p);
    }
    if Tidy(blocks, pos, l) && !Boundary(blocks, pos + l) {
      forall p: nat | pos - b < p < pos - b + l
        ensures !Boundary(blocks[1..], p)
      {
        assert !Boundary(blocks, p + b);
      }
    }
  }

  /** What the comparison finds is always an occurrence of the separator. */
  lemma {:induction false} LiteralIsMatch(b: Buffer, mem: seq<byte>, l: nat, i: nat)
    requires b.Valid() && 0 < l && 2 * l <= |mem| && LiteralMatch(b.blocks, mem, l, b.offset + i)
    ensures MatchAt(b.Contents(), mem[..l], i)
  {
    hide Flatten, Reach, ReachMore;
    OffsetBound(b);
    SliceOfDrop(Flatten(b.blocks), b.offset, i, i + l);
    CompareSegment(Flatten(b.blocks), b.offset + i, mem, Reach(b.blocks, b.offset + i, l), 0, l);
    assert mem[0..l] == mem[..l];
  }

  /** A tidy occurrence is always accepted by the comparison. */
  lemma {:induction false} TidyMatchIsLiteral(b: Buffer, mem: seq<byte>, l: nat, i: nat)
    requires b.Valid() && 0 < l && 2 * l <= |mem|
    requires MatchAt(b.Contents(), mem[..l], i) && Tidy(b.blocks, b.offset + i, l)
    ensures LiteralMatch(b.blocks, mem, l, b.offset + i)
  {
    hide Flatten, Start, Reach, ReachMore, Tidy;
    OffsetBound(b);
    ReachIsExact(b.blocks, b.offset + i, l);
    SliceOfDrop(Flatten(b.blocks), b.offset, i, i + l);
  }

  // ---------- the operations ----------

  function Push(b: Buffer, data: seq<byte>): Buffer {
    if data == [] then b else Buffer(b.blocks + [data], b.offset)
  }

  function PopAll(b: Buffer): (Buffer, Option<seq<byte>>)
    requires b.Valid()
  {
    if b.blocks == [] then (b, None) else (EMPTY, Some(b.Contents()))
  }

  function PopN(b: Buffer, n: nat): (Buffer, Option<seq<byte>>)
    requires b.Valid()
  {
    if n == 0 then (b, Some([]))
    else if |b.Contents()| < n then (b, None)
    else (DropTo(b.blocks, b.offset + n), Some(b.Contents()[..n]))
  }

  /** The first position at or after `pos` where `checksep` succeeds. */
  function FirstLiteral(blocks: seq<seq<byte>>, mem: seq<byte>, l: nat, pos: nat): (r: Option<nat>)
    requires 0 < l && 2 * l <= |mem| && pos <= |Flatten(blocks)|
    ensures r.Some? ==> pos <= r.value && r.value + l <= |Flatten(blocks)| && LiteralMatch(blocks, mem, l, r.value)
    decreases |Flatten(blocks)| - pos
  {
    if LiteralMatch(blocks, mem, l, pos) then Some(pos)
    else if pos == |Flatten(blocks)| then None
    else FirstLiteral(blocks, mem, l, pos + 1)
  }

  lemma {:induction false} FirstLiteralIsFirst(blocks: seq<seq<byte>>, mem: seq<byte>, l: nat, pos: nat, p: nat)
    requires 0 < l && 2 * l <= |mem| && pos <= p && pos <= |Flatten(blocks)| && LiteralMatch(blocks, mem, l, p)
    ensures FirstLiteral(blocks, mem, l, pos).Some? && FirstLiteral(blocks, mem, l, pos).value <= p
    decreases |Flatten(blocks)| - pos
  {
    if !LiteralMatch(blocks, mem, l, pos) {
      FirstLiteralIsFirst(blocks, mem, l, pos + 1, p);
    }
  }

  /** Nothing in a stretch of positions matches. */
  ghost predicate NoLiteral(blocks: seq<seq<byte>>, mem: seq<byte>, l: nat, pos: nat, end: nat)
    requires 0 < l && 2 * l <= |mem|
  {
    forall p: nat :: pos <= p < end ==> !LiteralMatch(blocks, mem, l, p)
  }

  /** Scanning position by position finds what FirstLiteral names. */
  lemma {:induction false} ScanFindsFirst(blocks: seq<seq<byte>>, mem: seq<byte>, l: nat, pos: nat, end: nat)
    requires 0 < l && 2 * l <= |mem| && pos <= end <= |Flatten(blocks)| && NoLiteral(blocks, mem, l, pos, end)
    ensures LiteralMatch(blocks, mem, l, end) ==> FirstLiteral(blocks, mem, l, pos) == Some(end)
    ensures end == |Flatten(blocks)| ==> FirstLiteral(blocks, mem, l, pos) == None
    decreases end - pos
  {
    if pos < end {
      ScanFindsFirst(blocks, mem, l, pos + 1, end);
    }
  }

  // ---------- the comparison loop of checksep ----------

  /** What the comparison knows on reaching offset `off` of block `m` with `n` bytes found equal, having
      started at offset `start` of block `k`. */
  ghost predicate Compared(blocks: seq<seq<byte>>, mem: seq<byte>, l: nat, k: nat, start: nat, m: nat, off: nat, n: nat)
    requires 0 < l && 2 * l <= |mem|
  {
    && NoEmptyBlock(blocks) && k <= m < |blocks| && off < |blocks[m]| && n < l
    && var pos := Start(blocks, k) + start;
    && pos + n == Start(blocks, m) + off && pos + n <= |Flatten(blocks)|
    && Flatten(blocks)[pos..pos + n] == mem[..n]
    && (if m == k then off == start && n == 0
        else
          && off == 0
          && (pos + l <= |Flatten(blocks)| ==>
                && l - n <= |Flatten(blocks[m..])|
                && Reach(blocks, pos, l) == n + ReachMore(blocks[m..], l - n, l)))
  }

  lemma {:induction false} ComparedStart(blocks: seq<seq<byte>>, mem: seq<byte>, l: nat, k: nat, start: nat)
    requires NoEmptyBlock(blocks) && k < |blocks| && start < |blocks[k]| && 0 < l && 2 * l <= |mem|
    ensures Compared(blocks, mem, l, k, start, k, start, 0)
  {
    StartStep(blocks, k);
  }

  lemma {:induction false} ReachFrom(blocks: seq<seq<byte>>, k: nat, start: nat, l: nat)
    requires NoEmptyBlock(blocks) && k < |blocks| && start < |blocks[k]|
    requires 0 < l && Start(blocks, k) + start + l <= |Flatten(blocks)|
    ensures var got := |blocks[k]| - start;
            && (got < l ==> l - got <= |Flatten(blocks[k + 1..])|)
            && Reach(blocks, Start(blocks, k) + start, l) ==
               if got >= l then l else got + ReachMore(blocks[k + 1..], l - got, l)
  {
    hide Flatten, Start, ReachMore;
    StartStep(blocks, k);
    StartEnd(blocks, k + 1);
    if k == 0 {
      StartZero(blocks);
    } else {
      StartTail(blocks, k);
      FlattenHead(blocks);
      assert blocks[1..][k - 1] == blocks[k] && blocks[1..][k..] == blocks[k + 1..];
      ReachFrom(blocks[1..], k - 1, start, l);
    }
  }

  lemma {:induction false} ReachMoreHead(blocks: seq<seq<byte>>, missing: nat, l: nat)
    requires NoEmptyBlock(blocks) && 0 < missing <= l && missing <= |Flatten(blocks)| && blocks != []
    ensures |Flatten(blocks)| == |blocks[0]| + |Flatten(blocks[1..])|
    ensures ReachMore(blocks, missing, l) ==
            if |blocks[0]| >= missing then Min(|blocks[0]|, l)
            else |blocks[0]| + ReachMore(blocks[1..], missing - |blocks[0]|, l)
  {
    FlattenHead(blocks);
  }

  /** How far the comparison goes with the block at hand, when the separator still fits. */
  lemma {:induction false} ComparedReach(blocks: seq<seq<byte>>, mem: seq<byte>, l: nat, k: nat,
      start: nat, m: nat, off: nat, n: nat)
    requires 0 < l && 2 * l <= |mem| && Compared(blocks, mem, l, k, start, m, off, n)
    ensures var pos, sz := Start(blocks, k) + start, Min(|blocks[m]| - off, l);
            && (n + sz >= l ==> pos + l <= |Flatten(blocks)|)
            && (pos + l <= |Flatten(blocks)| ==>
                  if n + sz >= l then Reach(blocks, pos, l) == n + sz
                  else l - n - sz <= |Flatten(blocks[m + 1..])| &&
                       Reach(blocks, pos, l) == n + sz + ReachMore(blocks[m + 1..], l - n - sz, l))
  {
    hide Flatten, Start, Reach, ReachMore;
    StartStep(blocks, m);
    StartEnd(blocks, m + 1);
    var pos := Start(blocks, k) + start;
    if pos + l <= |Flatten(blocks)| {
      if m == k {
        ReachFrom(blocks, k, start, l);
      } else {
        DropOne(blocks, m);
        ReachMoreHead(blocks[m..], l - n, l);
      }
    }
  }

  lemma {:induction false} ComparedDiffers(blocks: seq<seq<byte>>, mem: seq<byte>, l: nat, k: nat,
      start: nat, m: nat, off: nat, n: nat)
    requires 0 < l && 2 * l <= |mem| && Compared(blocks, mem, l, k, start, m, off, n)
    requires var sz := Min(|blocks[m]| - off, l); blocks[m][off..off + sz] != mem[n..n + sz]
    ensures !LiteralMatch(blocks, mem, l, Start(blocks, k) + start)
  {
    hide Flatten, Start, Reach, ReachMore;
    var all, pos, sz := Flatten(blocks), Start(blocks, k) + start, Min(|blocks[m]| - off, l);
    ComparedReach(blocks, mem, l, k, start, m, off, n);
    ChunkSlice(blocks, m, off, off + sz);
    if LiteralMatch(blocks, mem, l, pos) {
      CompareSegment(all, pos, mem, Reach(blocks, pos, l), n, sz);
    }
  }

  /** One more segment found equal. */
  lemma {:induction false} ComparedBytes(blocks: seq<seq<byte>>, mem: seq<byte>, l: nat, k: nat,
      start: nat, m: nat, off: nat, n: nat)
    requires 0 < l && 2 * l <= |mem| && Compared(blocks, mem, l, k, start, m, off, n)
    requires var sz := Min(|blocks[m]| - off, l); blocks[m][off..off + sz] == mem[n..n + sz]
    ensures var pos, sz := Start(blocks, k) + start, Min(|blocks[m]| - off, l);
            && Start(blocks, m) + off + sz == pos + n + sz <= |Flatten(blocks)|
            && Flatten(blocks)[pos..pos + n + sz] == mem[..n + sz]
  {
    hide Flatten, Start, Reach, ReachMore;
    var sz := Min(|blocks[m]| - off, l);
    ChunkSlice(blocks, m, off, off + sz);
    CompareSplit(Flatten(blocks), Start(blocks, k) + start, mem, n, sz);
  }

  lemma {:induction false} ComparedDone(blocks: seq<seq<byte>>, mem: seq<byte>, l: nat, k: nat, start: nat,
      m: nat, off: nat, n: nat)
    requires 0 < l && 2 * l <= |mem| && Compared(blocks, mem, l, k, start, m, off, n)
    requires var sz := Min(|blocks[m]| - off, l); blocks[m][off..off + sz] == mem[n..n + sz] && n + sz >= l
    ensures var pos, sz := Start(blocks, k) + start, Min(|blocks[m]| - off, l);
            LiteralMatch(blocks, mem, l, pos) && Start(blocks, m) + off + sz == pos + Reach(blocks, pos, l)
  {
    hide Flatten, Start, Reach, ReachMore;
    ComparedReach(blocks, mem, l, k, start, m, off, n);
    ComparedBytes(blocks, mem, l, k, start, m, off, n);
  }

  lemma {:induction false} ComparedNext(blocks: seq<seq<byte>>, mem: seq<byte>, l: nat, k: nat, start: nat,
      m: nat, off: nat, n: nat)
    requires 0 < l && 2 * l <= |mem| && Compared(blocks, mem, l, k, start, m, off, n)
    requires var sz := Min(|blocks[m]| - off, l); blocks[m][off..off + sz] == mem[n..n + sz] && n + sz < l
    ensures var sz := Min(|blocks[m]| - off, l);
            if m + 1 < |blocks| then Compared(blocks, mem, l, k, start, m + 1, 0, n + sz)
            else !LiteralMatch(blocks, mem, l, Start(blocks, k) + start)
  {
    hide Flatten, Start, Reach, ReachMore;
    StartStep(blocks, m);
    if m + 1 < |blocks| {
      ComparedReach(blocks, mem, l, k, start, m, off, n);
      ComparedBytes(blocks, mem, l, k, start, m, off, n);
    } else {
      StartFull(blocks);
    }
  }

  function PopSep(b: Buffer, mem: seq<byte>, l: nat): (Buffer, Option<seq<byte>>)
    requires b.Valid() && 0 < l && 2 * l <= |mem|
  {
    match FirstLiteral(b.blocks, mem, l, b.offset)
    case None => (b, None)
    case Some(pos) =>
      (DropTo(b.blocks, pos + Reach(b.blocks, pos, l)), Some(b.Contents()[..pos - b.offset]))
  }

  /** `lfindsep` also accepts an empty separator: it is found in any non-empty buffer. */
  predicate FindSep(b: Buffer, mem: seq<byte>, l: nat)
    requires b.Valid() && 2 * l <= |mem|
  {
    if l == 0 then b.blocks != []
    else FirstLiteral(b.blocks, mem, l, b.offset).Some?
  }

  /** `ldetach` copies everything out but then releases to position `size` of the last block. */
  function Detach(b: Buffer): (Buffer, Option<seq<byte>>)
    requires b.Valid()
  {
    if b.blocks == [] then (b, None)
    else
      var last, n := b.blocks[|b.blocks| - 1], |b.Contents()|;
      (if |last| == n then EMPTY else Buffer([last], n), Some(b.Contents()))
  }

  /** A detach releases to position `size` of the last block. */
  lemma {:induction false} DetachReleases(b: Buffer)
    requires b.Valid() && b.blocks != []
    ensures var k, n := |b.blocks| - 1, |b.Contents()|;
            Detach(b) == (if n == |b.blocks[k]| then Buffer(b.blocks[k + 1..], 0) else Buffer(b.blocks[k..], n),
                          Some(b.Contents()))
  {
    var k := |b.blocks| - 1;
    assert b.blocks[k + 1..] == [] && b.blocks[k..] == [b.blocks[k]];
  }

  // ---------- when an operation behaves as on a flat sequence ----------

  datatype Op = OpPush(data: seq<byte>) | OpPopN(n: nat) | OpPopSep(mem: seq<byte>, l: nat) | OpPopAll | OpDetach

  predicate WellFormed(op: Op) {
    op.OpPopSep? ==> 0 < op.l && 2 * op.l <= |op.mem|
  }

  predicate AllWellFormed(ops: seq<Op>) {
    forall k :: 0 <= k < |ops| ==> WellFormed(ops[k])
  }

  function Step(b: Buffer, op: Op): (Buffer, Option<seq<byte>>)
    requires b.Valid() && WellFormed(op)
  {
    match op
    case OpPush(data) => (Push(b, data), None)
    case OpPopN(n) => PopN(b, n)
    case OpPopSep(mem, l) => PopSep(b, mem, l)
    case OpPopAll => PopAll(b)
    case OpDetach => Detach(b)
  }

  /** The same operation on the flat contents. */
  function FlatStep(s: seq<byte>, op: Op): (seq<byte>, Option<seq<byte>>)
    requires WellFormed(op)
  {
    match op
    case OpPush(data) => (s + data, None)
    case OpPopN(n) => if |s| < n then (s, None) else (s[n..], Some(s[..n]))
    case OpPopSep(mem, l) => PopFlat(s, mem[..l])
    case OpPopAll => if s == [] then (s, None) else ([], Some(s))
    case OpDetach => if s == [] then (s, None) else ([], Some(s))
  }

  /** The step keeps the buffer well formed and does to its contents, and returns, what the flat step does. */
  predicate Refines(b: Buffer, op: Op)
    requires b.Valid() && WellFormed(op)
  {
    var (b', out) := Step(b, op);
    b'.Valid() && (b'.Contents(), out) == FlatStep(b.Contents(), op)
  }

  /** What a caller can check beforehand: a separator's first occurrence is tidy, and detaching meets at
      most one block, unread. */
  ghost predicate Orderly(b: Buffer, op: Op)
    requires b.Valid() && WellFormed(op)
  {
    match op
    case OpPopSep(mem, l) =>
      (match Find(b.Contents(), mem[..l])
       case None => true
       case Some(i) => Tidy(b.blocks, b.offset + i, l))
    case OpDetach => |b.blocks| <= 1 && b.offset == 0
    case _ => true
  }

  lemma {:induction false} PushRefines(b: Buffer, data: seq<byte>)
    requires b.Valid()
    ensures Push(b, data).Valid() && Push(b, data).Contents() == b.Contents() + data
  {
    FlattenSnoc(b.blocks, data);
    if b.blocks != [] {
      StartStep(b.blocks, 0);
    }
  }

  /** What the literal pop does to the contents when it stops at `pos`, whether or not the match is tidy. */
  lemma {:induction false} PopSepHit(b: Buffer, mem: seq<byte>, l: nat, i: nat)
    requires b.Valid() && 0 < l && 2 * l <= |mem| && b.offset <= |Flatten(b.blocks)|
    requires FirstLiteral(b.blocks, mem, l, b.offset) == Some(b.offset + i)
    ensures var s, n := b.Contents(), Reach(b.blocks, b.offset + i, l);
            && i + n <= |s|
            && PopSep(b, mem, l).1 == Some(s[..i])
            && PopSep(b, mem, l).0 == DropTo(b.blocks, b.offset + (i + n))
            && PopSep(b, mem, l).0.Valid() && PopSep(b, mem, l).0.Contents() == s[i + n..]
  {
    hide Flatten, Reach, ReachMore, FirstLiteral, LiteralMatch, DropTo;
    var n := Reach(b.blocks, b.offset + i, l);
    assert b.offset + i + n == b.offset + (i + n);
    DropContents(b, i + n);
  }

  /** A scan that stops at `pos`, or nowhere, has computed the literal pop. */
  lemma {:induction false} PopSepStopsAt(b: Buffer, mem: seq<byte>, l: nat, pos: nat)
    requires b.Valid() && 0 < l && 2 * l <= |mem| && b.offset <= pos <= |Flatten(b.blocks)|
    requires NoLiteral(b.blocks, mem, l, b.offset, pos)
    ensures LiteralMatch(b.blocks, mem, l, pos) ==>
              PopSep(b, mem, l) ==
              (DropTo(b.blocks, pos + Reach(b.blocks, pos, l)), Some(Flatten(b.blocks)[b.offset..pos]))
    ensures pos == |Flatten(b.blocks)| ==> PopSep(b, mem, l) == (b, None)
    ensures PopSep(b, mem, l).0.Valid()
  {
    hide Flatten, Reach, ReachMore, FirstLiteral, DropTo, LiteralMatch, NoLiteral;
    OffsetBound(b);
    ScanFindsFirst(b.blocks, mem, l, b.offset, pos);
    if LiteralMatch(b.blocks, mem, l, pos) {
      PopSepHit(b, mem, l, pos - b.offset);
      SliceOfDrop(Flatten(b.blocks), b.offset, pos - b.offset, pos - b.offset);
    } else if FirstLiteral(b.blocks, mem, l, b.offset).Some? {
      PopSepHit(b, mem, l, FirstLiteral(b.blocks, mem, l, b.offset).value - b.offset);
    }
  }

  lemma {:induction false} LiteralIsNotEarly(b: Buffer, mem: seq<byte>, l: nat, pos: nat)
    requires b.Valid() && 0 < l && 2 * l <= |mem| && b.offset <= pos
    requires LiteralMatch(b.blocks, mem, l, pos)
    ensures var found := Find(b.Contents(), mem[..l]); found.Some? && b.offset + found.value <= pos
  {
    hide Flatten, Reach, ReachMore, LiteralMatch, Find, MatchAt;
    OffsetBound(b);
    LiteralIsMatch(b, mem, l, pos - b.offset);
    FindIsFirst(b.Contents(), mem[..l], pos - b.offset);
  }

  lemma {:induction false} TidyIsNotMissed(b: Buffer, mem: seq<byte>, l: nat)
    requires b.Valid() && 0 < l && 2 * l <= |mem|
    requires Find(b.Contents(), mem[..l]).Some?
    requires Tidy(b.blocks, b.offset + Find(b.Contents(), mem[..l]).value, l)
    ensures var lit := FirstLiteral(b.blocks, mem, l, b.offset);
            lit.Some? && lit.value <= b.offset + Find(b.Contents(), mem[..l]).value
  {
    hide Flatten, Start, Reach, ReachMore, LiteralMatch, Find, Tidy, FirstLiteral;
    OffsetBound(b);
    var i := Find(b.Contents(), mem[..l]).value;
    TidyMatchIsLiteral(b, mem, l, i);
    FirstLiteralIsFirst(b.blocks, mem, l, b.offset, b.offset + i);
  }

  /** On an orderly pop the literal search stops where the flat one does and compares no more than the separator. */
  lemma {:induction false} OrderlyLiteral(b: Buffer, mem: seq<byte>, l: nat, i: nat)
    requires b.Valid() && 0 < l && 2 * l <= |mem|
    requires Find(b.Contents(), mem[..l]) == Some(i) && Tidy(b.blocks, b.offset + i, l)
    ensures FirstLiteral(b.blocks, mem, l, b.offset) == Some(b.offset + i)
    ensures b.offset + i + l <= |Flatten(b.blocks)| && Reach(b.blocks, b.offset + i, l) == l
  {
    hide Flatten, Start, Reach, ReachMore, LiteralMatch, Find, Tidy, FirstLiteral;
    OffsetBound(b);
    TidyIsNotMissed(b, mem, l);
    var pos := FirstLiteral(b.blocks, mem, l, b.offset).value;
    LiteralIsNotEarly(b, mem, l, pos);
    ReachIsExact(b.blocks, b.offset + i, l);
  }

  lemma {:induction false} OrderlyPopSepIsFlat(b: Buffer, mem: seq<byte>, l: nat)
    requires b.Valid() && 0 < l && 2 * l <= |mem| && Orderly(b, OpPopSep(mem, l))
    ensures PopSep(b, mem, l).0.Valid()
    ensures (PopSep(b, mem, l).0.Contents(), PopSep(b, mem, l).1) == PopFlat(b.Contents(), mem[..l])
  {
    hide Flatten, Start, Reach, ReachMore, Find, FirstLiteral, LiteralMatch, Tidy;
    OffsetBound(b);
    var found, lit := Find(b.Contents(), mem[..l]), FirstLiteral(b.blocks, mem, l, b.offset);
    if found.Some? {
      OrderlyLiteral(b, mem, l, found.value);
      PopSepHit(b, mem, l, lit.value - b.offset);
    } else if lit.Some? {
      LiteralIsNotEarly(b, mem, l, lit.value);
    }
  }

  lemma {:induction false} UntidyPopSepDiffers(b: Buffer, mem: seq<byte>, l: nat)
    requires b.Valid() && 0 < l && 2 * l <= |mem| && !Orderly(b, OpPopSep(mem, l))
    ensures PopSep(b, mem, l).0.Valid()
    ensures (PopSep(b, mem, l).0.Contents(), PopSep(b, mem, l).1) != PopFlat(b.Contents(), mem[..l])
  {
    hide Flatten, Start, Reach, ReachMore, Find, FirstLiteral, LiteralMatch, Tidy;
    OffsetBound(b);
    var s, i := b.Contents(), Find(b.Contents(), mem[..l]).value;
    var lit := FirstLiteral(b.blocks, mem, l, b.offset);
    if lit.Some? {
      PopSepHit(b, mem, l, lit.value - b.offset);
      LiteralIsNotEarly(b, mem, l, lit.value);
      if lit.value == b.offset + i {
        ReachIsExact(b.blocks, b.offset + i, l);
        assert |PopSep(b, mem, l).0.Contents()| < |s[i + l..]|;
      } else {
        assert |PopSep(b, mem, l).1.value| > |s[..i]|;
      }
    }
  }

  /** Popping to a separator is the flat pop exactly when the first occurrence is tidy, whatever the memory
      behind the separator holds. */
  lemma {:induction false} PopSepRefines(b: Buffer, mem: seq<byte>, l: nat)
    requires b.Valid() && 0 < l && 2 * l <= |mem|
    ensures PopSep(b, mem, l).0.Valid()
    ensures Refines(b, OpPopSep(mem, l)) <==> Orderly(b, OpPopSep(mem, l))
  {
    if Orderly(b, OpPopSep(mem, l)) {
      OrderlyPopSepIsFlat(b, mem, l);
    } else {
      UntidyPopSepDiffers(b, mem, l);
    }
  }

  lemma {:induction false} LastBlockBound(blocks: seq<seq<byte>>)
    requires blocks != []
    ensures |Flatten(blocks)| == Start(blocks, |blocks| - 1) + |blocks[|blocks| - 1]|
    ensures |blocks| > 1 ==> Start(blocks, |blocks| - 1) >= |blocks[0]|
  {
    StartStep(blocks, |blocks| - 1);
    assert blocks[..|blocks|] == blocks;
    if |blocks| > 1 {
      assert blocks[..|blocks| - 1][0] == blocks[0];
    }
  }

  /** Detaching empties the buffer exactly when it holds at most one block and none of it has been read. */
  lemma {:induction false} DetachRefines(b: Buffer)
    requires b.Valid()
    ensures Refines(b, OpDetach) <==> Orderly(b, OpDetach)
    ensures Detach(b).0.Valid() <==> |b.blocks| <= 1
    ensures |b.blocks| == 1 && 0 < b.offset ==>
              Detach(b).0.Contents() == b.blocks[0][|b.blocks[0]| - b.offset..]
  {
    if b.blocks != [] {
      LastBlockBound(b.blocks);
      if |b.blocks| == 1 {
        assert b.blocks[..0] == [];
        FlattenSnoc([], b.blocks[0]);
        assert b.blocks == [b.blocks[0]];
      }
    }
  }

  /** Each operation acts on its flat contents if and only if it is orderly. */
  lemma {:induction false} StepRefines(b: Buffer, op: Op)
    requires b.Valid() && WellFormed(op)
    ensures Refines(b, op) <==> Orderly(b, op)
  {
    match op
    case OpPush(data) => PushRefines(b, data);
    case OpPopN(n) =>
      if 0 < n <= |b.Contents()| {
        DropContents(b, n);
      }
    case OpPopSep(mem, l) => PopSepRefines(b, mem, l);
    case OpPopAll =>
      if b.blocks != [] {
        StartStep(b.blocks, 0);
        assert b.blocks[..0] == [];
      }
    case OpDetach => DetachRefines(b);
  }

  /** A one-byte separator is always tidy. */
  lemma {:induction false} OneByteIsTidy(b: Buffer, mem: seq<byte>)
    requires b.Valid() && 2 <= |mem|
    ensures Orderly(b, OpPopSep(mem, 1))
  {
  }

  /** An occurrence the comparison accepts: where it goes on past the separator's end, the contents go on as the
      memory behind the separator does. */
  predicate AcceptedAt(b: Buffer, mem: seq<byte>, l: nat, i: nat)
    requires b.Valid() && 0 < l && 2 * l <= |mem|
  {
    && MatchAt(b.Contents(), mem[..l], i)
    && var n := Reach(b.blocks, b.offset + i, l);
       b.Contents()[i + l..i + n] == mem[l..n]
  }

  lemma {:induction false} AcceptedIsLiteral(b: Buffer, mem: seq<byte>, l: nat, i: nat)
    requires b.Valid() && 0 < l && 2 * l <= |mem|
    ensures AcceptedAt(b, mem, l, i) <==> LiteralMatch(b.blocks, mem, l, b.offset + i)
  {
    hide Flatten, Reach, ReachMore;
    OffsetBound(b);
    if b.offset + i + l <= |Flatten(b.blocks)| {
      CompareBehind(Flatten(b.blocks), b.offset, i, mem, l, Reach(b.blocks, b.offset + i, l));
    }
  }

  /** The search succeeds exactly when some occurrence is accepted by the comparison, and so agrees with the flat
      search exactly when there is no occurrence or one is accepted; a tidy occurrence always is. An empty separator
      is found in every buffer but the empty one. */
  lemma {:induction false} FindSepAgrees(b: Buffer, mem: seq<byte>, l: nat)
    requires b.Valid() && 2 * l <= |mem|
    ensures 0 < l ==> (FindSep(b, mem, l) <==> exists i: nat :: AcceptedAt(b, mem, l, i))
    ensures 0 < l ==> ((FindSep(b, mem, l) <==> Find(b.Contents(), mem[..l]).Some?) <==>
                       Find(b.Contents(), mem[..l]).None? || exists i: nat :: AcceptedAt(b, mem, l, i))
    ensures 0 < l ==> forall i: nat :: MatchAt(b.Contents(), mem[..l], i) && Tidy(b.blocks, b.offset + i, l) ==>
                        AcceptedAt(b, mem, l, i)
    ensures l == 0 ==> (FindSep(b, mem, l) <==> b.blocks != [])
  {
    hide Flatten, Start, Reach, ReachMore, Find, LiteralMatch, FirstLiteral, Tidy, AcceptedAt;
    OffsetBound(b);
    if 0 < l {
      var lit := FirstLiteral(b.blocks, mem, l, b.offset);
      if lit.Some? {
        AcceptedIsLiteral(b, mem, l, lit.value - b.offset);
        LiteralIsNotEarly(b, mem, l, lit.value);
      }
      forall i: nat
        ensures AcceptedAt(b, mem, l, i) ==> lit.Some?
        ensures MatchAt(b.Contents(), mem[..l], i) && Tidy(b.blocks, b.offset + i, l) ==> AcceptedAt(b, mem, l, i)
      {
        AcceptedIsLiteral(b, mem, l, i);
        if AcceptedAt(b, mem, l, i) {
          FirstLiteralIsFirst(b.blocks, mem, l, b.offset, b.offset + i);
        } else if MatchAt(b.Contents(), mem[..l], i) && Tidy(b.blocks, b.offset + i, l) {
          TidyMatchIsLiteral(b, mem, l, i);
        }
      }
    }
  }

  lemma {:induction false} FirstOfStretch<T>(a: seq<T>, i: nat, b: seq<T>, j: nat, k: nat)
    requires i + k <= |a| && j + k <= |b|
    ensures 0 < k && a[i..i + k] == b[j..j + k] ==> b[j] in a
  {
    if 0 < k && a[i..i + k] == b[j..j + k] {
      assert a[i] == a[i..i + k][0] == b[j..j + k][0] == b[j];
    }
  }

  /** With a zero byte behind the separator, as the host language puts there, and none in the contents, the comparison
      accepts exactly the tidy occurrences, so a search succeeds exactly when there is one. */
  lemma {:induction false} ZeroBehindIsTidy(b: Buffer, mem: seq<byte>, l: nat, i: nat)
    requires b.Valid() && 0 < l && 2 * l <= |mem| && mem[l] == 0 && 0 !in b.Contents()
    ensures AcceptedAt(b, mem, l, i) <==> MatchAt(b.Contents(), mem[..l], i) && Tidy(b.blocks, b.offset + i, l)
  {
    hide Flatten, Start, Reach, ReachMore, LiteralMatch, Tidy;
    OffsetBound(b);
    if MatchAt(b.Contents(), mem[..l], i) {
      ReachIsExact(b.blocks, b.offset + i, l);
      var n := Reach(b.blocks, b.offset + i, l);
      FirstOfStretch(b.Contents(), i + l, mem, l, n - l);
      if Tidy(b.blocks, b.offset + i, l) {
        TidyMatchIsLiteral(b, mem, l, i);
        AcceptedIsLiteral(b, mem, l, i);
      }
    }
  }

  lemma {:induction false} FindSepZeroBehind(b: Buffer, mem: seq<byte>, l: nat)
    requires b.Valid() && 0 < l && 2 * l <= |mem| && mem[l] == 0 && 0 !in b.Contents()
    ensures FindSep(b, mem, l) <==>
            exists i: nat :: MatchAt(b.Contents(), mem[..l], i) && Tidy(b.blocks, b.offset + i, l)
  {
    hide Tidy, AcceptedAt, MatchAt, FindSep;
    FindSepAgrees(b, mem, l);
    forall i: nat
      ensures AcceptedAt(b, mem, l, i) <==> MatchAt(b.Contents(), mem[..l], i) && Tidy(b.blocks, b.offset + i, l)
    {
      ZeroBehindIsTidy(b, mem, l, i);
    }
  }

  lemma {:induction false} TwoBlocks(c: byte)
    ensures var blocks: seq<seq<byte>> := [[97], [98, c]];
            && Flatten(blocks) == [97, 98, c] && Reach(blocks, 0, 2) == 3 && Reach(blocks, 1, 2) == 2
  {
    var blocks: seq<seq<byte>> := [[97], [98, c]];
    FlattenSnoc([[97]], [98, c]);
    FlattenSnoc([], [97 as byte]);
    assert [[97 as byte]] == [] + [[97]] && blocks == [[97]] + [[98, c]];
    assert blocks[1..] == [[98, c]];
    FlattenSnoc([], [98, c]);
    assert [[98, c]] == [] + [[98, c]];
  }

  /** A two-byte separator "ab" arriving as "a" then "bc" is missed, by pop and by find, for the zero byte that stands
      behind the separator in memory is not 'c', though it occurs at the very start. */
  lemma {:induction false} MissedSeparator()
    ensures var b := Buffer([[97], [98, 99]], 0);
            var mem: seq<byte> := [97, 98, 0, 0];
            && b.Valid() && MatchAt(b.Contents(), mem[..2], 0)
            && PopSep(b, mem, 2) == (b, None) && !FindSep(b, mem, 2)
  {
    var blocks: seq<seq<byte>> := [[97], [98, 99]];
    var mem: seq<byte> := [97, 98, 0, 0];
    TwoBlocks(99);
    assert Flatten(blocks)[0..3][2] != mem[..3][2];
    assert Flatten(blocks)[1..3][0] != mem[..2][0];
    assert Flatten(blocks)[0..2] == mem[..2];
  }

  /** When the byte behind it in the buffer is a zero byte as well, the separator is found, and that byte is dropped
      with it. */
  lemma {:induction false} SwallowedByte()
    ensures var b := Buffer([[97], [98, 0]], 0);
            var mem: seq<byte> := [97, 98, 0, 7];
            && b.Valid() && b.Contents() == [97, 98, 0] && mem[..2] == [97, 98]
            && FindSep(b, mem, 2) && PopSep(b, mem, 2) == (EMPTY, Some([]))
  {
    var blocks: seq<seq<byte>> := [[97], [98, 0]];
    var mem: seq<byte> := [97, 98, 0, 7];
    TwoBlocks(0);
    assert Flatten(blocks)[0..3] == mem[..3];
    assert LiteralMatch(blocks, mem, 2, 0);
    assert DropTo(blocks, 3) == DropTo(blocks[1..], 2) == DropTo(blocks[1..][1..], 0);
  }

  /** Detaching two unread blocks leaves the read position behind the end of the block it keeps. */
  lemma {:induction false} DetachCorrupts()
    ensures var b := Buffer([[1], [2]], 0);
            b.Valid() && Detach(b).0 == Buffer([[2]], 2) && !Detach(b).0.Valid()
  {
    var b := Buffer([[1], [2]], 0);
    LastBlockBound(b.blocks);
    assert b.blocks[..1] == [[1]];
    FlattenSnoc([], [1 as byte]);
    assert [[1 as byte]] == [] + [[1]];
  }
}
