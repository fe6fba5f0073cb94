/** One socket slot as the C code keeps it: its fields and its singly linked queue of partly sent blocks. */
module SocketQueue {
  import opened Bytes
  import opened Interest
  import opened NetModel
  import opened NetCore

  /** What the caller hands over for sending; `socket_sendfd` accepts a null pointer. */
  datatype Data = Null | Mem(bytes: seq<byte>)

  /** The bytes that stand behind a pointer: `_sendfd` puts one zero byte in the place of a null pointer. */
  function Pointed(d: Data): seq<byte> {
    if d.Null? then [0] else d.bytes
  }

  /** `struct sbuffer`; `ptr` is an offset from `begin`. */
  class SendBlock {
    var next: SendBlock?
    var sz: int
    var fd: int
    const begin: Data
    var ptr: nat
    /** The socket the block is queued on, and its place in the order of arrival there. */
    ghost const owner: Socket
    ghost const order: nat

    constructor (sz: int, fd: int, begin: Data, ptr: nat, ghost owner: Socket, ghost order: nat)
      ensures next == null && this.sz == sz && this.fd == fd && this.begin == begin && this.ptr == ptr
      ensures this.owner == owner && this.order == order
    {
      this.next := null;
      this.sz := sz;
      this.fd := fd;
      this.begin := begin;
      this.ptr := ptr;
      this.owner := owner;
      this.order := order;
    }

    ghost predicate Holds(b: Block)
      reads this
    {
      sz == |b.data| && fd == b.fd && ptr + sz == |Pointed(begin)| && Pointed(begin)[ptr..] == b.data
    }

    /** The kernel took the first `n` bytes: the block keeps its rest and the given descriptor. */
    method Shrink(n: nat, cfd: int, ghost b: Block)
      requires Holds(b) && n < |b.data|
      modifies `ptr, `sz, `fd
      ensures Holds(Block(b.data[n..], cfd))
    {
      SliceOfDrop(Pointed(begin), ptr, n, n);
      fd := cfd;
      ptr := ptr + n;
      sz := sz - n;
    }
  }

  ghost function NodeAt(nodes: seq<SendBlock>, k: nat): SendBlock? {
    if k < |nodes| then nodes[k] else null
  }

  /** The nodes are queued on `s`, in order, and linked into one null-terminated list. */
  ghost predicate Linked(nodes: seq<SendBlock>, s: Socket)
    reads nodes
  {
    && (forall k {:trigger nodes[k].owner} :: 0 <= k < |nodes| ==> nodes[k].owner == s)
    && (forall k {:trigger nodes[k].order} :: 0 <= k < |nodes| ==> nodes[k].order == nodes[0].order + k)
    && (forall k {:trigger nodes[k].next} :: 0 <= k < |nodes| ==> nodes[k].next == NodeAt(nodes, k + 1))
  }

  /** The nodes hold the given blocks. */
  ghost predicate HoldAll(nodes: seq<SendBlock>, blocks: seq<Block>)
    reads nodes
  {
    && |nodes| == |blocks|
    && forall k {:trigger nodes[k].sz} {:trigger blocks[k]} :: 0 <= k < |nodes| ==> nodes[k].Holds(blocks[k])
  }

  lemma {:induction false} LinkedTail(nodes: seq<SendBlock>, blocks: seq<Block>, s: Socket)
    requires Linked(nodes, s) && HoldAll(nodes, blocks) && nodes != []
    ensures Linked(nodes[1..], s) && HoldAll(nodes[1..], blocks[1..])
    ensures nodes[0].next == NodeAt(nodes[1..], 0)
    ensures forall n :: n in nodes[1..] ==> n in nodes && n != nodes[0]
  {
    forall k | 0 <= k < |nodes[1..]|
      ensures nodes[1..][k].owner == s && nodes[1..][k].order == nodes[1..][0].order + k
      ensures nodes[1..][k].next == NodeAt(nodes[1..], k + 1)
      ensures nodes[1..][k].Holds(blocks[1..][k])
      ensures nodes[1..][k] != nodes[0]
    {
      assert nodes[1..][k] == nodes[k + 1] && blocks[1..][k] == blocks[k + 1] && nodes[1..][0] == nodes[1];
      assert nodes[k + 1].order == nodes[0].order + (k + 1);
      assert nodes[k + 1].sz == nodes[k + 1].sz;
    }
  }

  lemma {:induction false} LinkedSnoc(nodes: seq<SendBlock>, blocks: seq<Block>, s: Socket, n: SendBlock, b: Block)
    requires forall k {:trigger nodes[k].owner} :: 0 <= k < |nodes| ==> nodes[k].owner == s
    requires forall k {:trigger nodes[k].order} :: 0 <= k < |nodes| ==> nodes[k].order == nodes[0].order + k
    requires forall k {:trigger nodes[k].next} :: 0 <= k < |nodes| ==> nodes[k].next == NodeAt(nodes + [n], k + 1)
    requires HoldAll(nodes, blocks)
    requires n.owner == s && n.next == null && n.Holds(b)
    requires nodes != [] ==> n.order == nodes[0].order + |nodes|
    ensures Linked(nodes + [n], s) && HoldAll(nodes + [n], blocks + [b])
  {
  }

  lemma {:induction false} HeadReplaced(nodes: seq<SendBlock>, blocks: seq<Block>, b: Block)
    requires |nodes| == |blocks| && nodes != [] && nodes[0].Holds(b)
    requires forall k {:trigger nodes[k].sz} {:trigger blocks[k]} :: 0 < k < |nodes| ==> nodes[k].Holds(blocks[k])
    ensures HoldAll(nodes, [b] + blocks[1..])
  {
  }

  lemma {:induction false} TotalSnoc(blocks: seq<Block>, b: Block)
    ensures Total(blocks + [b]) == Total(blocks) + |b.data|
  {
    ItemsConcat(blocks, [b]);
    assert [b][1..] == [];
  }

  lemma {:induction false} NothingQueued()
    ensures Total([]) == 0
  {
  }

  /** `struct socket`. While the slot is free `fd` is the link of the free list. */
  class Socket {
    var fd: int
    var protocol: int
    var status: Status
    var mask: Mask
    var udata: int
    var head: SendBlock?
    var tail: SendBlock?
    var sbuffersz: int
    var rbuffersz: int
    var slimit: int
    var rlimit: int
    /** The slot's index, the blocks reachable from `head`, in order, and what the kernel has taken from this
        connection's write calls. */
    ghost const id: nat
    ghost var queue: seq<SendBlock>
    ghost var wire: seq<Item>

    /** The queue pointers describe the given blocks. */
    ghost predicate Queued(blocks: seq<Block>)
      reads `head, `tail, `queue, queue
    {
      && Linked(queue, this) && HoldAll(queue, blocks)
      && head == NodeAt(queue, 0)
      && (queue != [] ==> tail == queue[|queue| - 1])
    }

    /** The fields of the slot's value other than its queue, and what has been written; a free slot's `fd` belongs
        to the free list. */
    ghost predicate Fields(a: Slot)
      reads this
    {
      && status == a.status && protocol == a.protocol && mask == a.mask && udata == a.udata
      && rbuffersz == a.rbuffersz && slimit == a.slimit && rlimit == a.rlimit && wire == a.wire
      && (a.status != Invalid ==> fd == a.fd)
    }

    ghost predicate Represents(a: Slot)
      reads this, queue
    {
      Fields(a) && Queued(a.queue) && sbuffersz == Total(a.queue)
    }

    /** A socket none of whose blocks has changed stands for what it stood for. */
    twostate lemma {:induction false} Kept(a: Slot)
      requires old(Represents(a)) && unchanged(this) && forall n :: n in old(queue) ==> unchanged(n)
      ensures Represents(a)
    {
      forall k | 0 <= k < |queue|
        ensures unchanged(queue[k])
      {
        assert queue[k] in old(queue);
      }
      forall k | 0 <= k < |queue|
        ensures queue[k].Holds(a.queue[k])
      {
        assert old(queue[k].sz) == queue[k].sz;
        assert old(queue[k].Holds(a.queue[k]));
      }
    }

    /** One entry of `_alloc_sockets`. */
    constructor (link: int, ghost id: nat)
      ensures Represents(FreshSlot()) && fd == link && this.id == id && queue == []
    {
      fd := link;
      protocol := 0;
      status := Invalid;
      mask := NONE;
      udata := -1;
      head := null;
      tail := null;
      sbuffersz := 0;
      rbuffersz := 0;
      slimit := 0;
      rlimit := 0;
      queue := [];
      wire := [];
      this.id := id;
    }

    /** The calls `_socket_write(s->fd, ptr, sz)` (`cfd` is then -1) and `_sendfd(s->fd, ptr, sz, cfd)`, with the
        kernel's answer: it takes the first bytes it was offered, the descriptor with the very first. */
    method Write(begin: Data, ptr: nat, sz: nat, cfd: int, answer: WriteAnswer) returns (n: int)
      requires ptr + sz <= |Pointed(begin)|
      modifies `wire
      ensures n == if answer.Wrote? then Min(answer.n, sz) else -1
      ensures wire == old(wire) + Tag(Pointed(begin)[ptr..ptr + sz], cfd)[..if n >= 0 then n else 0]
    {
      n := if answer.Wrote? then Min(answer.n, sz) else -1;
      wire := wire + Tag(Pointed(begin)[ptr..ptr + sz], cfd)[..if n >= 0 then n else 0];
    }

    /** Unlink and free the head block. */
    method PopHead(ghost blocks: seq<Block>)
      requires Queued(blocks) && blocks != []
      modifies `head, `queue
      ensures Queued(blocks[1..]) && queue == old(queue)[1..]
    {
      LinkedTail(queue, blocks, this);
      head := head.next;
      queue := queue[1..];
    }

    /** The loop of `_close_socket` that frees the whole queue. */
    method FreeQueue(ghost blocks: seq<Block>)
      requires Queued(blocks)
      modifies `head, `tail, `queue, `sbuffersz
      ensures Queued([]) && sbuffersz == 0 && queue == []
    {
      ghost var left := blocks;
      while head != null
        invariant Queued(left)
        decreases |left|
      {
        PopHead(left);
        left := left[1..];
      }
      tail := null;
      sbuffersz := 0;
    }

    /** The part of `_create_socket` that resets a free slot; `rlimit` stays as it was. */
    method Reset(fd: nat, protocol: int, udata: int, slimit: int, ghost a: Slot)
      requires Represents(a)
      modifies this
      ensures queue == [] && this.fd == fd
      ensures Represents(a.(fd := fd, protocol := protocol, status := Suspend, mask := NONE, udata := udata,
                            queue := [], rbuffersz := RBUFFER_SZ, slimit := SendLimit(slimit),
                            wire := [], sent := [], limited := false, maxread := 0))
    {
      hide Total, Socket.Queued, Socket.Represents;
      ghost var b := a.(fd := fd, protocol := protocol, status := Suspend, mask := NONE, udata := udata,
                        queue := [], rbuffersz := RBUFFER_SZ, slimit := SendLimit(slimit),
                        wire := [], sent := [], limited := false, maxread := 0);
      KeepsReadLimit(a);
      this.fd := fd;
      this.protocol := protocol;
      status := Suspend;
      mask := NONE;
      this.udata := udata;
      head := null;
      tail := null;
      sbuffersz := 0;
      rbuffersz := RBUFFER_SZ;
      this.slimit := slimit;
      if this.slimit <= 0 {
        this.slimit := INT_MAX;
      }
      queue := [];
      wire := [];
      StandsEmpty(b);
    }

    lemma {:induction false} KeepsReadLimit(a: Slot)
      requires Represents(a)
      ensures rlimit == a.rlimit
    {
    }

    lemma {:induction false} StandsEmpty(b: Slot)
      requires Fields(b) && head == null && queue == [] && b.queue == [] && sbuffersz == 0
      ensures Represents(b)
    {
    }

    /** The part of `_close_socket` that empties a slot. */
    method Release(ghost a: Slot, ghost blocks: seq<Block>)
      requires Fields(a) && Queued(blocks)
      modifies this
      ensures queue == [] && fd == -1
      ensures Represents(a.(fd := -1, status := Invalid, udata := 0, queue := []))
    {
      fd := -1;
      status := Invalid;
      udata := 0;
      FreeQueue(blocks);
    }

    /** Point a free slot at the next one. */
    method SetLink(link: int, ghost a: Slot)
      requires Represents(a) && a.status == Invalid
      modifies `fd
      ensures Represents(a) && fd == link
    {
      hide Socket.Queued, Total;
      fd := link;
    }

    method SetStatus(to: Status, ghost a: Slot)
      requires Represents(a) && a.status != Invalid && to != Invalid
      modifies `status
      ensures Represents(a.(status := to))
    {
      hide Socket.Queued, Total;
      status := to;
    }

    method SetMask(to: Mask, ghost a: Slot)
      requires Represents(a)
      modifies `mask
      ensures Represents(a.(mask := to))
    {
      hide Socket.Queued, Total;
      mask := to;
    }

    method SetUdata(to: int, ghost a: Slot)
      requires Represents(a)
      modifies `udata
      ensures Represents(a.(udata := to))
    {
      hide Socket.Queued, Total;
      udata := to;
    }

    /** The assignments of `socket_limit`. */
    method SetLimits(slimit: int, rlimit: int, ghost a: Slot)
      requires Represents(a)
      modifies `slimit, `rlimit, `rbuffersz
      ensures var a' := a.(slimit := SendLimit(slimit), limited := true);
              Represents(if rlimit <= 0 then a'.(rlimit := 0) else a'.(rlimit := rlimit, rbuffersz := rlimit))
    {
      hide Socket.Queued, Total;
      if slimit <= 0 {
        this.slimit := INT_MAX;
      } else {
        this.slimit := slimit;
      }
      if rlimit <= 0 {
        this.rlimit := 0;
      } else {
        this.rlimit := rlimit;
        rbuffersz := rlimit;
      }
    }

    /** The adaptive part of `_read` after `n` bytes. */
    method AdaptReadSize(n: nat, ghost a: Slot)
      requires Represents(a) && 1 <= a.rbuffersz
      modifies `rbuffersz
      ensures Represents(AfterRead(a, n))
    {
      hide Socket.Queued, Total;
      if rlimit == 0 {
        if n == rbuffersz {
          rbuffersz := rbuffersz * 2;
        } else if rbuffersz > RBUFFER_SZ && n < rbuffersz * 2 {
          rbuffersz := rbuffersz / 2;
        }
      }
    }

    /** Link one more block behind the last one. */
    method Append(p: SendBlock, ghost blocks: seq<Block>, ghost b: Block)
      requires Queued(blocks) && p !in queue && p.next == null && p.Holds(b) && p.owner == this
      requires queue != [] ==> p.order == queue[0].order + |queue|
      modifies `head, `tail, `queue, queue`next
      ensures Queued(blocks + [b]) && queue == old(queue) + [p]
    {
      if head == null {
        head := p;
        tail := p;
      } else {
        OnlyLast(queue);
        tail.next := p;
        tail := p;
      }
      LinkedSnoc(queue, blocks, this, p, b);
      queue := queue + [p];
    }

    /** Count a message's rest and queue it, as the senders do, unless that would exceed the limit. */
    method Enqueue(sz: int, cfd: int, begin: Data, ptr: nat, ghost blocks: seq<Block>) returns (over: bool)
      requires Queued(blocks) && sbuffersz == Total(blocks)
      requires 0 < sz && ptr + sz == |Pointed(begin)|
      modifies `head, `tail, `queue, `sbuffersz, queue`next
      ensures over <==> Total(blocks) + sz > slimit
      ensures over ==> Queued(blocks) && queue == old(queue)
      ensures !over ==>
                var after := blocks + [Block(Pointed(begin)[ptr..], cfd)];
                Queued(after) && sbuffersz == Total(after)
      ensures forall n :: n in queue ==> n in old(queue) || fresh(n)
    {
      hide Total, Socket.Queued;
      sbuffersz := sbuffersz + sz;
      if sbuffersz > slimit {
        return true;
      }
      ghost var b := Block(Pointed(begin)[ptr..], cfd);
      TotalSnoc(blocks, b);
      var p := new SendBlock(sz, cfd, begin, ptr, this, if queue == [] then 0 else queue[0].order + |queue|);
      Append(p, blocks, b);
      return false;
    }

    lemma {:induction false} OnlyLast(nodes: seq<SendBlock>)
      requires Linked(nodes, this)
      ensures forall k {:trigger nodes[k]} :: 0 <= k < |nodes| - 1 ==> nodes[k] != nodes[|nodes| - 1]
    {
      forall k | 0 <= k < |nodes| - 1
        ensures nodes[k] != nodes[|nodes| - 1]
      {
        assert nodes[k].order != nodes[|nodes| - 1].order;
      }
    }

    /** What the write calls are given is what the head block still has to send. */
    lemma {:induction false} HeadHolds(left: seq<Block>)
      requires Queued(left) && left != []
      ensures queue != [] && head == queue[0] && head.sz == |left[0].data| && head.fd == left[0].fd
      ensures head.Holds(left[0]) && head.ptr + head.sz == |Pointed(head.begin)|
      ensures Pointed(head.begin)[head.ptr..head.ptr + head.sz] == left[0].data
    {
      assert queue[0].Holds(left[0]) by { assert queue[0].sz == queue[0].sz; }
    }

    /** A partial write: the head block keeps its rest and the given descriptor. */
    method Advance(n: nat, cfd: int, ghost blocks: seq<Block>)
      requires Queued(blocks) && blocks != [] && n < |blocks[0].data| && sbuffersz == Total(blocks)
      modifies head`ptr, head`sz, head`fd, `sbuffersz
      ensures Queued([Block(blocks[0].data[n..], cfd)] + blocks[1..])
      ensures sbuffersz == Total([Block(blocks[0].data[n..], cfd)] + blocks[1..])
    {
      hide Total, SendBlock.Holds;
      ghost var after := [Block(blocks[0].data[n..], cfd)] + blocks[1..];
      ghost var b := Block(blocks[0].data[n..], cfd);
      FirstIsOnly(queue);
      HeadHolds(blocks);
      TotalTail(blocks);
      TotalTail(after);
      head.Shrink(n, cfd, blocks[0]);
      sbuffersz := sbuffersz - n;
      HeadReplaced(queue, blocks, b);
    }

    lemma {:induction false} FirstIsOnly(nodes: seq<SendBlock>)
      requires Linked(nodes, this)
      ensures forall k {:trigger nodes[k]} :: 0 < k < |nodes| ==> nodes[k] != nodes[0]
    {
      forall k | 0 < k < |nodes|
        ensures nodes[k] != nodes[0]
      {
        assert nodes[k].order != nodes[0].order;
      }
    }

    /** The slot is as the flush of `blocks` against `script` leaves it, with `start` written before. */
    ghost predicate Stopped(start: seq<Item>, blocks: seq<Block>, script: seq<WriteAnswer>, err: int)
      reads this, queue
    {
      var f := Behind(start, Flush(blocks, script));
      err == f.err && wire == f.wire && Queued(f.queue) && sbuffersz == Total(f.queue)
    }

    /** The inner loop of `_send_buffer_tcp`: write the head block, retrying on EINTR, and unlink it when all of it
        was taken. */
    method WriteHeadTcp(script: seq<WriteAnswer>, i: nat, ghost left: seq<Block>)
      returns (stop: bool, err: int, next: nat)
      requires Queued(left) && QueueOk(left, true) && sbuffersz == Total(left) && left != [] && i <= |script|
      modifies `head, `queue, `sbuffersz, `wire, queue
      ensures i <= next <= |script|
      ensures stop ==> Stopped(old(wire), left, script[i..], err) && queue == old(queue)
      ensures !stop ==>
                && err == 0 && i < next && QueueOk(left[1..], true)
                && Queued(left[1..]) && sbuffersz == Total(left[1..]) && queue == old(queue)[1..]
                && Behind(old(wire), Flush(left, script[i..])) == Behind(wire, Flush(left[1..], script[next..]))
    {
      hide Flush, Tag, Total, Socket.Queued;
      HeadHolds(left);
      var b := head;
      next := i;
      while next < |script|
        invariant i <= next <= |script| && Queued(left) && sbuffersz == Total(left)
        invariant b == head && queue == old(queue) && wire == old(wire)
        invariant Flush(left, script[i..]) == Flush(left, script[next..])
      {
        FlushTurn(left, script, next, wire, true);
        HeadHolds(left);
        var answer := script[next];
        next := next + 1;
        var n := Write(b.begin, b.ptr, b.sz, -1, answer);
        if n < 0 {
          if answer.Again? {
            return true, 0, next;
          } else if answer.Fail? {
            return true, answer.e, next;
          }
        } else if n < b.sz {
          Advance(n, b.fd, left);
          return true, 0, next;
        } else {
          TotalTail(left);
          sbuffersz := sbuffersz - n;
          PopHead(left);
          return false, 0, next;
        }
      }
      FlushDone(left, script[next..]);
      return true, 0, next;
    }

    /** `_send_buffer_tcp`, against a script of kernel answers. */
    method FlushTcp(script: seq<WriteAnswer>, ghost blocks: seq<Block>) returns (err: int)
      requires Queued(blocks) && QueueOk(blocks, true) && sbuffersz == Total(blocks)
      modifies `head, `queue, `sbuffersz, `wire, queue
      ensures Stopped(old(wire), blocks, script, err)
      ensures forall n :: n in queue ==> n in old(queue)
    {
      hide Flush, Tag;
      var i := 0;
      ghost var left, dropped := blocks, 0;
      while head != null
        invariant 0 <= i <= |script|
        invariant Queued(left) && QueueOk(left, true) && sbuffersz == Total(left)
        invariant Behind(old(wire), Flush(blocks, script)) == Behind(wire, Flush(left, script[i..]))
        invariant dropped <= |old(queue)| && queue == old(queue)[dropped..]
        decreases |script| - i
      {
        var stop, e, next := WriteHeadTcp(script, i, left);
        if stop {
          return e;
        }
        left, i := left[1..], next;
        dropped := dropped + 1;
      }
      FlushDone(left, script[i..]);
      return 0;
    }

    /** The inner loop of `_send_buffer_ipc`, which passes the block's descriptor with its first byte. */
    method WriteHeadIpc(script: seq<WriteAnswer>, i: nat, ghost left: seq<Block>)
      returns (stop: bool, err: int, next: nat)
      requires Queued(left) && QueueOk(left, false) && sbuffersz == Total(left) && left != [] && i <= |script|
      modifies `head, `queue, `sbuffersz, `wire, queue
      ensures i <= next <= |script|
      ensures stop ==> Stopped(old(wire), left, script[i..], err) && queue == old(queue)
      ensures !stop ==>
                && err == 0 && i < next && QueueOk(left[1..], false)
                && Queued(left[1..]) && sbuffersz == Total(left[1..]) && queue == old(queue)[1..]
                && Behind(old(wire), Flush(left, script[i..])) == Behind(wire, Flush(left[1..], script[next..]))
    {
      hide Flush, Tag, Total, Socket.Queued;
      HeadHolds(left);
      var b := head;
      next := i;
      while next < |script|
        invariant i <= next <= |script| && Queued(left) && sbuffersz == Total(left)
        invariant b == head && queue == old(queue) && wire == old(wire)
        invariant Flush(left, script[i..]) == Flush(left, script[next..])
      {
        FlushTurn(left, script, next, wire, false);
        HeadHolds(left);
        var answer := script[next];
        next := next + 1;
        var n := Write(b.begin, b.ptr, b.sz, b.fd, answer);
        if n < 0 {
          if answer.Again? {
            return true, 0, next;
          } else if answer.Fail? {
            return true, answer.e, next;
          }
        } else if n == 0 {
          return true, 0, next;
        } else if n < b.sz {
          Advance(n, -1, left);
          return true, 0, next;
        } else {
          TotalTail(left);
          sbuffersz := sbuffersz - n;
          PopHead(left);
          return false, 0, next;
        }
      }
      FlushDone(left, script[next..]);
      return true, 0, next;
    }

    /** `_send_buffer_ipc`, against a script of kernel answers. */
    method FlushIpc(script: seq<WriteAnswer>, ghost blocks: seq<Block>) returns (err: int)
      requires Queued(blocks) && QueueOk(blocks, false) && sbuffersz == Total(blocks)
      modifies `head, `queue, `sbuffersz, `wire, queue
      ensures Stopped(old(wire), blocks, script, err)
      ensures forall n :: n in queue ==> n in old(queue)
    {
      hide Flush, Tag;
      var i := 0;
      ghost var left, dropped := blocks, 0;
      while head != null
        invariant 0 <= i <= |script|
        invariant Queued(left) && QueueOk(left, false) && sbuffersz == Total(left)
        invariant Behind(old(wire), Flush(blocks, script)) == Behind(wire, Flush(left, script[i..]))
        invariant dropped <= |old(queue)| && queue == old(queue)[dropped..]
        decreases |script| - i
      {
        var stop, e, next := WriteHeadIpc(script, i, left);
        if stop {
          return e;
        }
        left, i := left[1..], next;
        dropped := dropped + 1;
      }
      FlushDone(left, script[i..]);
      return 0;
    }

    /** Count and queue the rest of a message on a slot that stands for `a`. */
    method QueueMessage(sz: int, cfd: int, begin: Data, ptr: nat, ghost a: Slot) returns (over: bool)
      requires Represents(a) && 0 < sz && ptr + sz == |Pointed(begin)|
      modifies this, queue
      ensures over <==> Total(a.queue) + sz > a.slimit
      ensures over ==> Fields(a) && Queued(a.queue) && fd == old(fd) && queue == old(queue)
      ensures !over ==> Represents(a.(queue := a.queue + [Block(Pointed(begin)[ptr..], cfd)])) && fd == old(fd)
      ensures forall n :: n in queue ==> n in old(queue) || fresh(n)
    {
      hide Total, Linked, HoldAll;
      over := Enqueue(sz, cfd, begin, ptr, a.queue);
    }

    /** The flush of `_send_buffer`, by protocol, on a slot that stands for `a`. */
    method FlushSlot(script: seq<WriteAnswer>, ghost a: Slot) returns (err: int)
      requires Represents(a) && QueueOk(a.queue, a.protocol == LS_PROTOCOL_TCP) && QueueOk(a.queue, false)
      requires a.protocol == LS_PROTOCOL_TCP || a.protocol == LS_PROTOCOL_IPC
      modifies this, queue
      ensures err == Flush(a.queue, script).err && fd == old(fd)
      ensures Represents(a.(queue := Flush(a.queue, script).queue, wire := a.wire + Flush(a.queue, script).wire))
      ensures head == null <==> Flush(a.queue, script).queue == []
      ensures forall n :: n in queue ==> n in old(queue)
    {
      hide Flush, Total, Linked;
      err := 0;
      if protocol == LS_PROTOCOL_TCP {
        err := FlushTcp(script, a.queue);
      } else if protocol == LS_PROTOCOL_IPC {
        err := FlushIpc(script, a.queue);
      }
    }
  }

  /** A flush result with something already written before it. */
  function Behind(wire: seq<Item>, f: Flushed): Flushed {
    f.(wire := wire + f.wire)
  }

  lemma {:induction false} TotalTail(blocks: seq<Block>)
    requires blocks != []
    ensures Total(blocks) == |blocks[0].data| + Total(blocks[1..])
  {
  }

  lemma {:induction false} FlushDone(left: seq<Block>, script: seq<WriteAnswer>)
    ensures left == [] || script == [] ==> Flush(left, script) == Flushed(left, [], 0)
  {
  }

  /** One kernel answer's effect on a flush, by position in the script. */
  lemma {:induction false} FlushTurn(left: seq<Block>, script: seq<WriteAnswer>, i: nat, wire: seq<Item>, tcp: bool)
    requires left != [] && i < |script| && QueueOk(left, tcp)
    ensures QueueOk(left[1..], tcp)
    ensures script[i].Again? ==> Flush(left, script[i..]) == Flushed(left, [], 0)
    ensures script[i].Intr? ==> Flush(left, script[i..]) == Flush(left, script[i + 1..])
    ensures script[i].Fail? ==> Flush(left, script[i..]) == Flushed(left, [], script[i].e)
    ensures script[i].Wrote? && script[i].n >= |left[0].data| ==>
              Behind(wire, Flush(left, script[i..])) ==
              Behind(wire + Tag(left[0].data, left[0].fd), Flush(left[1..], script[i + 1..]))
    ensures script[i].Wrote? && 0 < script[i].n < |left[0].data| ==>
              Flush(left, script[i..]) == Flushed([Block(left[0].data[script[i].n..], -1)] + left[1..],
                                                  Tag(left[0].data, left[0].fd)[..script[i].n], 0)
    ensures script[i].Wrote? && 0 == script[i].n ==>
              Flush(left, script[i..]) == Flushed(left, [], 0) &&
              (tcp ==> left == [Block(left[0].data[0..], -1)] + left[1..])
  {
    assert script[i..][0] == script[i] && script[i..][1..] == script[i + 1..];
    var b := left[0];
    var rest := Flush(left[1..], script[i + 1..]);
    assert wire + (Tag(b.data, b.fd) + rest.wire) == (wire + Tag(b.data, b.fd)) + rest.wire;
    assert b.data[0..] == b.data && left == [b] + left[1..];
  }
}
