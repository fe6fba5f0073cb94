/** The receive buffer as the C code keeps it: a singly linked list of blocks with `head`, `tail`, a byte
    count and the read offset into the head block. Every method is proved to do to the buffer's value
    what the function of the same name in ChunkBuffer does. */
module SocketBuffer {
  import opened Bytes
  import opened ChunkBuffer

  class BufferNode {
    const p: seq<byte>
    const sz: int
    var next: BufferNode?
    /** Position in the order of arrival; tells the nodes of one list apart. */
    ghost const order: nat

    constructor (p: seq<byte>, ghost order: nat)
      ensures this.p == p && sz == |p| && next == null && this.order == order
    {
      this.p := p;
      this.sz := |p|;
      this.next := null;
      this.order := order;
    }
  }

  ghost function NodeAt(nodes: seq<BufferNode>, k: nat): BufferNode? {
    if k < |nodes| then nodes[k] else null
  }

  /** The nodes form one null-terminated list holding the given blocks. */
  ghost predicate Chain(nodes: seq<BufferNode>, blocks: seq<seq<byte>>)
    reads nodes
  {
    && |blocks| == |nodes|
    && (forall k {:trigger nodes[k].p} {:trigger blocks[k]} :: 0 <= k < |nodes| ==> nodes[k].p == blocks[k])
    && (forall k {:trigger nodes[k].sz} :: 0 <= k < |nodes| ==> nodes[k].sz == |nodes[k].p|)
    && (forall k {:trigger nodes[k].order} :: 0 <= k < |nodes| ==> nodes[k].order == nodes[0].order + k)
    && (forall k {:trigger nodes[k].next} :: 0 <= k < |nodes| ==> nodes[k].next == NodeAt(nodes, k + 1))
  }

  lemma {:induction false} ChainTail(nodes: seq<BufferNode>, blocks: seq<seq<byte>>)
    requires Chain(nodes, blocks) && nodes != []
    ensures Chain(nodes[1..], blocks[1..])
    ensures nodes[0].next == NodeAt(nodes[1..], 0)
  {
    forall k | 0 <= k < |nodes[1..]|
      ensures nodes[1..][k].order == nodes[1..][0].order + k
      ensures nodes[1..][k].next == NodeAt(nodes[1..], k + 1)
      ensures nodes[1..][k].sz == |nodes[1..][k].p|
    {
      assert nodes[1..][k] == nodes[k + 1];
      assert nodes[1..][0] == nodes[1];
      assert nodes[k + 1].order == nodes[0].order + (k + 1);
    }
  }

  /** What the chain says of one node. */
  lemma {:induction false} ChainAt(nodes: seq<BufferNode>, blocks: seq<seq<byte>>, k: nat)
    requires Chain(nodes, blocks)
    ensures |nodes| == |blocks|
    ensures k < |nodes| ==>
              nodes[k].p == blocks[k] && nodes[k].sz == |blocks[k]| && nodes[k].next == NodeAt(nodes, k + 1)
  {
  }

  /** No node is met twice. */
  lemma {:induction false} SameNode(nodes: seq<BufferNode>, blocks: seq<seq<byte>>, i: nat, j: nat)
    requires Chain(nodes, blocks) && i < |nodes| && j < |nodes| && nodes[i] == nodes[j]
    ensures i == j
  {
    assert nodes[i].order == nodes[0].order + i && nodes[j].order == nodes[0].order + j;
  }

  /** The last node holds the last block. */
  lemma {:induction false} ChainLast(nodes: seq<BufferNode>, blocks: seq<seq<byte>>)
    requires Chain(nodes, blocks)
    ensures |nodes| == |blocks|
    ensures nodes != [] ==> nodes[|nodes| - 1].p == blocks[|blocks| - 1]
    ensures nodes != [] ==> nodes[|nodes| - 1].sz == |blocks[|blocks| - 1]|
  {
  }

  lemma {:induction false} TailIsLast(nodes: seq<BufferNode>, blocks: seq<seq<byte>>)
    requires Chain(nodes, blocks)
    ensures forall k {:trigger nodes[k]} :: 0 <= k < |nodes| - 1 ==> nodes[k] != nodes[|nodes| - 1]
  {
    forall k | 0 <= k < |nodes| - 1
      ensures nodes[k] != nodes[|nodes| - 1]
    {
      assert nodes[k].order != nodes[|nodes| - 1].order;
    }
  }

  /** Linking one more node behind the last one. */
  lemma {:induction false} ChainSnoc(nodes: seq<BufferNode>, blocks: seq<seq<byte>>, node: BufferNode, data: seq<byte>)
    requires |blocks| == |nodes|
    requires forall k {:trigger nodes[k].p} :: 0 <= k < |nodes| ==> nodes[k].p == blocks[k]
    requires forall k {:trigger nodes[k].sz} :: 0 <= k < |nodes| ==> nodes[k].sz == |nodes[k].p|
    requires forall k {:trigger nodes[k].order} :: 0 <= k < |nodes| ==> nodes[k].order == nodes[0].order + k
    requires forall k {:trigger nodes[k].next} :: 0 <= k < |nodes| ==> nodes[k].next == NodeAt(nodes + [node], k + 1)
    requires node.p == data && node.sz == |data| && node.next == null
    requires nodes != [] ==> node.order == nodes[0].order + |nodes|
    ensures Chain(nodes + [node], blocks + [data])
  {
  }

  /** How `lpop` is told what to return. */
  datatype Mode = All | Sep(mem: seq<byte>, l: nat) | Count(n: nat)

  datatype Popped = Nil | Data(bytes: seq<byte>) | InvalidSep

  function AsPopped(r: Option<seq<byte>>): Popped {
    if r.Some? then Data(r.value) else Nil
  }

  class ReceiveBuffer {
    var size: int
    var offset: int
    var head: BufferNode?
    var tail: BufferNode?
    /** The nodes reachable from `head`, in order, and the bytes they hold. */
    ghost var nodes: seq<BufferNode>
    ghost var blocks: seq<seq<byte>>

    ghost predicate Linked()
      reads this, nodes
    {
      && Chain(nodes, blocks)
      && head == NodeAt(nodes, 0)
      && (nodes != [] ==> tail == nodes[|nodes| - 1])
      && 0 <= offset
      && size == |Flatten(blocks)| - offset
    }

    ghost predicate Valid()
      reads this, nodes
    {
      Linked() && Value().Valid()
    }

    ghost function Value(): Buffer
      reads this
      requires 0 <= offset
    {
      Buffer(blocks, offset)
    }

    constructor ()
      ensures Valid() && Value() == EMPTY && fresh(nodes)
    {
      size, offset, head, tail := 0, 0, null, null;
      nodes, blocks := [], [];
    }

    /** Hang one more node behind the last one. */
    method LinkLast(node: BufferNode, ghost data: seq<byte>)
      requires Chain(nodes, blocks) && node !in nodes && node.p == data && node.sz == |data| && node.next == null
      requires head == NodeAt(nodes, 0) && (nodes != [] ==> tail == nodes[|nodes| - 1])
      requires nodes != [] ==> node.order == nodes[0].order + |nodes|
      modifies this`head, this`tail, this`nodes, this`blocks, nodes
      ensures nodes == old(nodes) + [node] && blocks == old(blocks) + [data]
      ensures Chain(nodes, blocks) && head == NodeAt(nodes, 0) && tail == node
    {
      TailIsLast(nodes, blocks);
      if head == null {
        head := node;
        tail := node;
      } else {
        tail.next := node;
        tail := node;
      }
      ChainSnoc(nodes, blocks, node, data);
      nodes, blocks := nodes + [node], blocks + [data];
    }

    method Push(data: seq<byte>) returns (r: Option<int>)
      requires Valid()
      modifies this, nodes
      ensures Valid() && Value() == ChunkBuffer.Push(old(Value()), data)
      ensures r == if data == [] then None else Some(size)
      ensures forall n :: n in nodes ==> n in old(nodes) || fresh(n)
    {
      if data == [] {
        return None;
      }
      hide Flatten, Refines, Orderly, Buffer.Contents;
      OffsetBound(Value());
      PushRefines(Value(), data);
      FlattenSnoc(blocks, data);
      var node := new BufferNode(data, if nodes == [] then 0 else nodes[0].order + |nodes|);
      LinkLast(node, data);
      size := size + |data|;
      r := Some(size);
    }

    lemma {:induction false} HeadBeforeEnd()
      requires Valid()
      ensures blocks != [] ==> offset < |blocks[0]|
    {
    }

    /** `pushpack`: the bytes from the read position up to `end` in the k-th node. */
    method PushPack(node: BufferNode, ghost k: nat, end: int) returns (r: seq<byte>)
      requires Valid() && k < |nodes| && node == nodes[k]
      requires 0 <= end <= node.sz && (k == 0 ==> offset <= end)
      ensures offset <= Start(blocks, k) + end <= |Flatten(blocks)|
      ensures r == Flatten(blocks)[offset..Start(blocks, k) + end]
    {
      hide Flatten, Chain, Buffer.Valid, Start;
      ghost var all := Flatten(blocks);
      OffsetBound(Value());
      StartZero(blocks);
      HeadBeforeEnd();
      ChainAt(nodes, blocks, k);
      var current, off := head, offset;
      ghost var j := 0;
      r := [];
      while current != node
        invariant 0 <= j <= k && current == nodes[j]
        invariant off == if j == 0 then offset else 0
        invariant Start(blocks, j) + off <= |all| && offset <= Start(blocks, j) + off
        invariant r == all[offset..Start(blocks, j) + off]
        decreases k - j
      {
        ChainAt(nodes, blocks, j);
        ChunkJoin(blocks, offset, j, off, current.sz);
        r := r + current.p[off..current.sz];
        current := current.next;
        off := 0;
        j := j + 1;
      }
      SameNode(nodes, blocks, j, k);
      ChunkJoin(blocks, offset, k, off, end);
      r := r + current.p[off..end];
    }

    /** Unlink the head node. */
    method DropHead()
      requires Chain(nodes, blocks) && nodes != [] && head == nodes[0]
      modifies `head, `size, `nodes, `blocks
      ensures nodes == old(nodes)[1..] && blocks == old(blocks)[1..] && Chain(nodes, blocks)
      ensures head == NodeAt(nodes, 0) && size == old(size) - |old(blocks)[0]|
    {
      ChainTail(nodes, blocks);
      size := size - head.sz;
      head := head.next;
      nodes, blocks := nodes[1..], blocks[1..];
    }

    /** `freebuffer`: release everything before position `end` of the k-th node. Nothing here keeps `end`
        within that node. */
    method FreeBuffer(node: BufferNode, ghost k: nat, end: nat)
      requires Linked() && k < |nodes| && node == nodes[k]
      modifies this
      ensures Linked() && nodes == if end == node.sz then old(nodes)[k + 1..] else old(nodes)[k..]
      ensures Value() == if end == |node.p| then Buffer(old(blocks)[k + 1..], 0) else Buffer(old(blocks)[k..], end)
    {
      hide Flatten, Chain;
      ChainAt(nodes, blocks, 0);
      ghost var all, data := nodes, blocks;
      ghost var j := 0;
      size := size + offset;
      while head != node
        invariant 0 <= j <= k < |data| && nodes == all[j..] && blocks == data[j..] && node == nodes[k - j]
        invariant Chain(nodes, blocks) && head == nodes[0] && size == |Flatten(blocks)|
        invariant tail == old(tail) && offset == old(offset)
        decreases k - j
      {
        DropOne(all, j);
        DropOne(data, j);
        ChainAt(nodes, blocks, 0);
        FlattenHead(blocks);
        DropHead();
        j := j + 1;
        ChainAt(nodes, blocks, 0);
      }
      ChainAt(nodes, blocks, 0);
      SameNode(nodes, blocks, 0, k - j);
      FlattenHead(blocks);
      DropOne(all, k);
      DropOne(data, k);
      if node.sz == end {
        DropHead();
        offset := 0;
      } else {
        size := size - end;
        offset := end;
      }
    }

    /** `checksep`, started at offset `start` of the k-th node: it succeeds where LiteralMatch holds and
        reports the node and offset it had compared up to. */
    method CheckSep(node: BufferNode, ghost k: nat, start: nat, mem: seq<byte>, l: nat)
      returns (last: BufferNode?, end: nat, ghost m: nat)
      requires Valid() && k < |nodes| && node == nodes[k] && start < node.sz && 2 * l <= |mem|
      ensures l == 0 ==> last != null
      ensures 0 < l ==> (last != null <==> LiteralMatch(blocks, mem, l, Start(blocks, k) + start))
      ensures 0 < l && last != null ==>
                && m < |nodes| && last == nodes[m] && end <= last.sz
                && Start(blocks, m) + end == Start(blocks, k) + start + Reach(blocks, Start(blocks, k) + start, l)
    {
      hide Compared, LiteralMatch, Flatten, Reach, ReachMore;
      var current, off, n := node, start, 0;
      m := k;
      if 0 < l {
        ComparedStart(blocks, mem, l, k, start);
      }
      while true
        invariant k <= m < |nodes| && current == nodes[m] && 0 <= off < current.sz
        invariant 0 <= n && (l == 0 ==> n == 0 && m == k) && (0 < l ==> n < l)
        invariant 0 < l ==> Compared(blocks, mem, l, k, start, m, off, n)
        decreases |nodes| - m
      {
        var sz := Min(current.sz - off, l);
        if current.p[off..off + sz] != mem[n..n + sz] {
          if 0 < l {
            ComparedDiffers(blocks, mem, l, k, start, m, off, n);
          }
          return null, 0, m;
        }
        if n + sz >= l {
          if 0 < l {
            ComparedDone(blocks, mem, l, k, start, m, off, n);
          }
          return current, off + sz, m;
        }
        ComparedNext(blocks, mem, l, k, start, m, off, n);
        n := n + sz;
        off := 0;
        current := current.next;
        if current == null {
          return null, 0, m;
        }
        m := m + 1;
      }
    }

    /** The inner scan of `readsep` and `lfindsep`: try every offset of the j-th node from `off` on. */
    method ScanNode(current: BufferNode, ghost j: nat, off: nat, mem: seq<byte>, l: nat)
      returns (i: nat, last: BufferNode?, end: nat, ghost m: nat)
      requires Valid() && j < |nodes| && current == nodes[j] && off <= current.sz && 2 * l <= |mem|
      ensures off <= i <= current.sz
      ensures if l == 0 then last != null <==> off < current.sz
              else
                && (last == null ==> i == current.sz)
                && NoLiteral(blocks, mem, l, Start(blocks, j) + off, Start(blocks, j) + i)
                && (last != null ==>
                      && m < |nodes| && last == nodes[m] && end <= last.sz && i < current.sz
                      && LiteralMatch(blocks, mem, l, Start(blocks, j) + i)
                      && Start(blocks, m) + end == Start(blocks, j) + i + Reach(blocks, Start(blocks, j) + i, l))
    {
      hide Flatten, Start, Reach, ReachMore, LiteralMatch;
      i, last, end, m := off, null, 0, j;
      while i < current.sz
        invariant off <= i <= current.sz
        invariant l == 0 ==> i == off
        invariant last == null
        invariant 0 < l ==> NoLiteral(blocks, mem, l, Start(blocks, j) + off, Start(blocks, j) + i)
      {
        last, end, m := CheckSep(current, j, i, mem, l);
        if last != null {
          return;
        }
        i := i + 1;
      }
    }

    /** The scan over all nodes shared by `readsep` and `lfindsep`. */
    method Scan(mem: seq<byte>, l: nat)
      returns (current: BufferNode?, ghost j: nat, i: nat, last: BufferNode?, end: nat, ghost m: nat)
      requires Valid() && 2 * l <= |mem|
      ensures l == 0 ==> (last != null <==> nodes != [])
      ensures 0 < l && last == null ==> NoLiteral(blocks, mem, l, offset, |Flatten(blocks)|)
      ensures 0 < l && last != null ==>
                && j < |nodes| && current == nodes[j] && i <= current.sz && (j == 0 ==> offset <= i)
                && offset <= Start(blocks, j) + i
                && NoLiteral(blocks, mem, l, offset, Start(blocks, j) + i)
                && LiteralMatch(blocks, mem, l, Start(blocks, j) + i)
                && m < |nodes| && last == nodes[m] && end <= last.sz
                && Start(blocks, m) + end == Start(blocks, j) + i + Reach(blocks, Start(blocks, j) + i, l)
    {
      hide Flatten, Reach, ReachMore, LiteralMatch;
      StartZero(blocks);
      OffsetBound(Value());
      current, j, i, last, end, m := head, 0, 0, null, 0, 0;
      var off := offset;
      while current != null
        invariant 0 <= j <= |nodes| && current == NodeAt(nodes, j) && last == null
        invariant off == (if j == 0 then offset else 0) && (j < |nodes| ==> off < nodes[j].sz)
        invariant offset <= Start(blocks, j) + off <= |Flatten(blocks)|
        invariant l == 0 ==> j == 0
        invariant 0 < l ==> NoLiteral(blocks, mem, l, offset, Start(blocks, j) + off)
        decreases |nodes| - j
      {
        StartStep(blocks, j);
        i, last, end, m := ScanNode(current, j, off, mem, l);
        if last != null {
          return;
        }
        current := current.next;
        off := 0;
        j := j + 1;
      }
      StartFull(blocks);
    }

    /** `lfindsep`; the buffer is only read. */
    method FindSep(mem: seq<byte>, l: nat) returns (found: bool)
      requires Valid() && 2 * l <= |mem|
      ensures found == ChunkBuffer.FindSep(Value(), mem, l)
    {
      var _, j, i, last, _, _ := Scan(mem, l);
      if 0 < l {
        OffsetBound(Value());
        ScanFindsFirst(blocks, mem, l, offset, if last == null then |Flatten(blocks)| else Start(blocks, j) + i);
      }
      found := last != null;
    }

    /** `readsep`. */
    method ReadSep(mem: seq<byte>, l: nat) returns (r: Option<seq<byte>>)
      requires Valid() && 0 < l && 2 * l <= |mem|
      modifies this
      ensures Valid() && (Value(), r) == PopSep(old(Value()), mem, l)
    {
      hide Flatten, Start, Reach, ReachMore, PopSep, DropTo, NoLiteral, LiteralMatch;
      OffsetBound(Value());
      var current, j, i, last, end, m := Scan(mem, l);
      if last == null {
        PopSepStopsAt(Value(), mem, l, |Flatten(blocks)|);
        return None;
      }
      PopSepStopsAt(Value(), mem, l, Start(blocks, j) + i);
      DropToBlock(blocks, m, end);
      var data := PushPack(current, j, i);
      FreeBuffer(last, m, end);
      r := Some(data);
    }

    /** `readall`. */
    method ReadAll() returns (r: Option<seq<byte>>)
      requires Valid()
      modifies this
      ensures Valid() && (Value(), r) == PopAll(old(Value()))
    {
      if head == null {
        return None;
      }
      LastBlockBound(blocks);
      assert blocks[|blocks|..] == [];
      var data := PushPack(tail, |nodes| - 1, tail.sz);
      assert data == Value().Contents();
      FreeBuffer(tail, |nodes| - 1, tail.sz);
      r := Some(data);
    }

    /** The node and offset `n` bytes further on, as `readn` finds them. */
    method Seek(n: nat) returns (current: BufferNode?, ghost j: nat, end: nat)
      requires Valid() && 0 < n <= size
      ensures j < |nodes| && current == nodes[j] && end <= current.sz && (j == 0 ==> offset <= end)
      ensures Start(blocks, j) + end == offset + n
    {
      hide Flatten;
      StartZero(blocks);
      var off, sz := offset, 0;
      current, j := head, 0;
      while current != null
        invariant 0 <= j <= |nodes| && current == NodeAt(nodes, j)
        invariant off == if j == 0 then offset else 0
        invariant sz == Start(blocks, j) + off - offset && sz < n
        decreases |nodes| - j
      {
        StartStep(blocks, j);
        sz := sz + current.sz - off;
        if sz >= n {
          return current, j, current.sz - (sz - n);
        }
        current := current.next;
        off := 0;
        j := j + 1;
      }
      StartFull(blocks);
      assert false;
    }

    /** `readn`. */
    method ReadN(n: nat) returns (r: Option<seq<byte>>)
      requires Valid()
      modifies this
      ensures Valid() && (Value(), r) == PopN(old(Value()), n)
    {
      hide Flatten, Start, DropTo;
      if n == 0 {
        return Some([]);
      }
      OffsetBound(Value());
      if size < n {
        return None;
      }
      var current, j, end := Seek(n);
      var data := PushPack(current, j, end);
      DropToBlock(blocks, j, end);
      DropContents(Value(), n);
      SliceOfDrop(Flatten(blocks), offset, n, n);
      FreeBuffer(current, j, end);
      r := Some(data);
    }

    /** `lpop`: the mode chooses between the three reads; an empty separator is refused. */
    method Pop(mode: Mode) returns (r: Popped)
      requires Valid() && (mode.Sep? ==> 2 * mode.l <= |mode.mem|)
      modifies this
      ensures Valid()
      ensures match mode
              case All => (Value(), r) == (PopAll(old(Value())).0, AsPopped(PopAll(old(Value())).1))
              case Count(n) => (Value(), r) == (PopN(old(Value()), n).0, AsPopped(PopN(old(Value()), n).1))
              case Sep(mem, l) =>
                if l == 0 then Value() == old(Value()) && r == InvalidSep
                else (Value(), r) == (PopSep(old(Value()), mem, l).0, AsPopped(PopSep(old(Value()), mem, l).1))
    {
      var data;
      match mode {
        case All =>
          data := ReadAll();
        case Count(n) =>
          data := ReadN(n);
        case Sep(mem, l) =>
          if l == 0 {
            return InvalidSep;
          }
          data := ReadSep(mem, l);
      }
      r := AsPopped(data);
    }

    /** The copy loop of `ldetach`. */
    method CopyOut() returns (data: seq<byte>)
      requires Valid()
      ensures data == Value().Contents()
    {
      hide Flatten;
      ghost var all := Flatten(blocks);
      OffsetBound(Value());
      StartZero(blocks);
      data := [];
      var current, off := head, offset;
      ghost var j := 0;
      while current != null
        invariant 0 <= j <= |nodes| && current == NodeAt(nodes, j)
        invariant off == if j == 0 then offset else 0
        invariant offset <= Start(blocks, j) + off <= |all|
        invariant data == all[offset..Start(blocks, j) + off]
        decreases |nodes| - j
      {
        StartStep(blocks, j);
        ChunkSlice(blocks, j, off, current.sz);
        data := data + current.p[off..current.sz];
        current := current.next;
        off := 0;
        j := j + 1;
      }
      StartFull(blocks);
    }

    /** `ldetach`: the copy is complete; what stays behind is ChunkBuffer.Detach's doing, and is no valid
        buffer when there was more than one block. */
    method Detach() returns (r: Option<seq<byte>>)
      requires Valid()
      modifies this
      ensures Linked() && (Value(), r) == ChunkBuffer.Detach(old(Value()))
      ensures Valid() <==> |old(nodes)| <= 1
    {
      hide Flatten, Chain, Refines, Orderly;
      ghost var was, k := Value(), |nodes| - 1;
      OffsetBound(was);
      DetachRefines(was);
      ChainLast(nodes, blocks);
      if size <= 0 {
        return None;
      }
      DetachReleases(was);
      hide ChunkBuffer.Detach, Buffer.Valid, Buffer.Contents;
      var data := CopyOut();
      assert tail.sz == |was.blocks[k]| && size == |was.Contents()|;
      FreeBuffer(tail, k, size);
      assert Value() == ChunkBuffer.Detach(was).0;
      r := Some(data);
    }
  }
}
