/** The socket table as the C code keeps it: an array of slot objects threaded by a free list that runs through
    their `fd` fields. Every method is proved to do to the table's value what NetModel says. */
module SocketTable {
  import opened Bytes
  import opened Interest
  import opened NetModel
  import opened NetCore
  import opened NetRuns
  import opened NetPoll
  import opened SocketQueue

  /** The entry of the free list behind its k-th, or -1. */
  function LinkAt(free: seq<nat>, k: nat): int {
    if k < |free| then free[k] else -1
  }

  /** Following the links `fds` from `first` visits the free slots in order and ends at `last` with -1. */
  ghost predicate Chain(fds: seq<int>, free: seq<nat>, first: int, last: int) {
    && (forall k :: 0 <= k < |free| ==> free[k] < |fds|)
    && first == LinkAt(free, 0)
    && (free != [] ==> last == free[|free| - 1])
    && forall k {:trigger free[k]} :: 0 <= k < |free| ==> fds[free[k]] == LinkAt(free, k + 1)
  }

  /** Where following the links from `first` leads after `k` steps; -1 once the list has ended. */
  function Follow(fds: seq<int>, first: int, k: nat): int {
    if k == 0 then first
    else
      var at := Follow(fds, first, k - 1);
      if 0 <= at < |fds| then fds[at] else -1
  }

  /** Walking the links visits the free list's entries in order, the last of them being the tail, and then ends. */
  lemma {:induction false} WalkIsFreeList(fds: seq<int>, free: seq<nat>, first: int, last: int, k: nat)
    requires Chain(fds, free, first, last)
    ensures k <= |free| ==> Follow(fds, first, k) == LinkAt(free, k)
    ensures free != [] ==> Follow(fds, first, |free| - 1) == last && fds[last] == -1
    ensures Follow(fds, first, |free|) == -1
    decreases |free| + k
  {
    WalkTo(fds, free, first, last, k);
    WalkTo(fds, free, first, last, |free|);
    if free != [] {
      WalkTo(fds, free, first, last, |free| - 1);
    }
  }

  lemma {:induction false} WalkTo(fds: seq<int>, free: seq<nat>, first: int, last: int, k: nat)
    requires Chain(fds, free, first, last)
    ensures k <= |free| ==> Follow(fds, first, k) == LinkAt(free, k)
  {
    if 0 < k <= |free| {
      WalkTo(fds, free, first, last, k - 1);
      assert fds[free[k - 1]] == LinkAt(free, k);
    }
  }

  lemma {:induction false} InitChain(max: nat, fds: seq<int>)
    requires 0 < max && |fds| == max && forall k :: 0 <= k < max ==> fds[k] == if k + 1 < max then k + 1 else -1
    ensures Chain(fds, Ids(max), 0, max - 1)
  {
  }

  /** Taking the head off the free list. */
  lemma {:induction false} ChainTake(fds: seq<int>, free: seq<nat>, first: int, last: int, fd: int)
    requires Chain(fds, free, first, last) && Distinct(free)
    ensures first == -1 <==> free == []
    ensures free != [] ==> first == free[0] < |fds| && fds[first] == LinkAt(free, 1)
                           && Chain(fds[first := fd], free[1..], LinkAt(free, 1), last)
  {
    if free != [] {
      forall k | 0 <= k < |free[1..]|
        ensures fds[first := fd][free[1..][k]] == LinkAt(free[1..], k + 1)
      {
        assert free[1..][k] == free[k + 1] != free[0];
      }
    }
  }

  /** Putting a slot at the tail of the free list. */
  lemma {:induction false} ChainAdd(fds: seq<int>, free: seq<nat>, first: int, last: int, id: nat)
    requires Chain(fds, free, first, last) && Distinct(free) && id !in free && id < |fds|
    ensures first == -1 <==> free == []
    ensures free == [] ==> Chain(fds[id := -1], free + [id], id, id)
    ensures free != [] ==> 0 <= last < |fds| && last != id && last in free
                           && Chain(fds[id := -1][last := id], free + [id], first, id)
  {
    if free != [] {
      assert last == free[|free| - 1] && free[|free| - 1] in free;
      forall k | 0 <= k < |free + [id]|
        ensures (free + [id])[k] < |fds|
        ensures fds[id := -1][last := id][(free + [id])[k]] == LinkAt(free + [id], k + 1)
      {
        ChainAddAt(fds, free, id, k);
      }
    }
  }

  lemma {:induction false} ChainAddAt(fds: seq<int>, free: seq<nat>, id: nat, k: nat)
    requires free != [] && Distinct(free) && id !in free && id < |fds| && k < |free + [id]|
    requires forall k {:trigger free[k]} :: 0 <= k < |free| ==> free[k] < |fds| && fds[free[k]] == LinkAt(free, k + 1)
    ensures (free + [id])[k] < |fds|
    ensures fds[id := -1][free[|free| - 1] := id][(free + [id])[k]] == LinkAt(free + [id], k + 1)
  {
    if k < |free| {
      var x := free[k];
      assert x in free && (free + [id])[k] == x;
      assert k < |free| - 1 ==> x != free[|free| - 1];
    } else {
      assert free[|free| - 1] in free && (free + [id])[k] == id;
    }
  }

  /** What the methods below use of the table's invariant. */
  lemma {:induction false} CoreFacts(st: Net)
    requires Core(st)
    ensures FreeInRange(st) && Distinct(st.free)
    ensures forall id {:trigger Live(st, id)} :: Live(st, id) ==> id !in st.free && 0 <= st.slots[id].fd
    ensures forall id :: id in st.free ==> id < |st.slots| && st.slots[id].status == Invalid
  {
    assert forall id :: Live(st, id) ==> SlotOk(st.slots[id]);
  }

  /** `_alloc_sockets`: every slot free, each linked to the next. */
  method AllocSockets(max: nat) returns (all: array<Socket>)
    requires 0 < max
    ensures fresh(all) && all.Length == max
    ensures forall k {:trigger all[k]} :: 0 <= k < max ==>
              && fresh(all[k]) && all[k].id == k && all[k].queue == [] && all[k].Represents(FreshSlot())
              && all[k].fd == if k + 1 < max then k + 1 else -1
  {
    hide Socket.Represents;
    var first := new Socket(if max == 1 then -1 else 1, 0);
    all := new Socket[max](_ => first);
    var i := 1;
    while i < max
      invariant 1 <= i <= max && fresh(all)
      invariant forall k {:trigger all[k]} :: 0 <= k < i ==>
                  && fresh(all[k]) && all[k].id == k && all[k].queue == [] && all[k].Represents(FreshSlot())
                  && all[k].fd == if k + 1 < max then k + 1 else -1
    {
      var s := new Socket(if i < max - 1 then i + 1 else -1, i);
      all[i] := s;
      i := i + 1;
    }
  }

  class NetState {
    const max: int
    var err: int
    const sockets: array<Socket>
    const o_events: array<Event>
    /** Indices for the two pointers into the array; -1 for a null pointer. */
    var free_socket: int
    var tail_socket: int
    /** The poller's registrations. */
    var np: map<int, Reg>
    /** The table's value, the sockets in the array, and every block ever queued. */
    ghost var st: Net
    ghost const repr: set<Socket>
    ghost var pool: set<SendBlock>
    /** The sockets' `fd` fields. */
    ghost var fds: seq<int>

    ghost predicate Pooled(nodes: seq<SendBlock>)
      reads this
    {
      forall n :: n in nodes ==> n in pool
    }

    /** The array has one socket per slot, each knowing its index and queueing only blocks of the pool. */
    ghost predicate Shaped()
      reads this, sockets, repr
    {
      && sockets.Length == max == |st.slots| == o_events.Length == |fds|
      && forall i {:trigger sockets[i]} :: 0 <= i < sockets.Length ==>
           sockets[i] in repr && sockets[i].id == i && sockets[i].fd == fds[i] && Pooled(sockets[i].queue)
    }

    /** Every slot but one is as its value says. */
    ghost predicate Others(but: int)
      reads this, sockets, repr, pool
    {
      && Core(st) && Shaped()
      && forall i {:trigger sockets[i]} {:trigger st.slots[i]} :: 0 <= i < sockets.Length && i != but ==>
           sockets[i].Represents(st.slots[i])
    }

    ghost predicate Table()
      reads this, sockets, repr, pool
    {
      Others(-1) && Chain(fds, st.free, free_socket, tail_socket) && np == st.np
    }

    ghost predicate Valid()
      reads this, sockets, repr, pool
    {
      Table() && err == st.err
    }

    /** `net_create` and `_alloc_sockets`. */
    constructor (max: int)
      ensures Valid() && st == Init(if max <= 0 then 1 else max)
      ensures fresh(sockets) && fresh(repr) && fresh(o_events) && fresh(pool)
    {
      hide Core, Chain, Socket.Represents, NetState.Others, FreshSlot;
      var m := if max <= 0 then 1 else max;
      this.max := m;
      err := 0;
      o_events := new Event[m](_ => Event(LS_EREAD, 0, 0, None));
      np := map[];
      st := Init(m);
      pool := {};
      var all := AllocSockets(m);
      sockets := all;
      repr := set k | 0 <= k < m :: all[k];
      free_socket := 0;
      tail_socket := m - 1;
      fds := seq(m, k requires 0 <= k < m => if k + 1 < m then k + 1 else -1);
      new;
      InitChain(m, fds);
      Begun();
    }

    /** A table all of whose sockets are new and linked is the initial one. */
    lemma {:induction false} Begun()
      requires 0 < max && sockets.Length == max == o_events.Length == |fds| && st == Init(max)
      requires forall i {:trigger sockets[i]} :: 0 <= i < max ==>
                 && sockets[i] in repr && sockets[i].id == i && sockets[i].queue == [] && sockets[i].fd == fds[i]
                 && sockets[i].Represents(FreshSlot())
      ensures Others(-1)
    {
      hide Core, Socket.Represents;
      InitCore(max);
      assert forall i {:trigger st.slots[i]} :: 0 <= i < max ==> st.slots[i] == FreshSlot();
    }

    /** `_socket`: look a slot up, noting the failure. */
    method Lookup(id: nat) returns (live: bool)
      requires Valid() && id < max
      modifies `err, `st
      ensures Valid() && live == Live(old(st), id)
      ensures st == if live then old(st) else old(st).(err := LS_ERR_NOSOCK)
      ensures live ==> err == old(err)
    {
      hide Core, Chain, Socket.Represents, NetState.Others;
      SameFields(id);
      if sockets[id].status != Invalid {
        return true;
      }
      NoteError(LS_ERR_NOSOCK);
      return false;
    }

    /** `_create_socket`; -1 for a null pointer. */
    method CreateSocket(fd: nat, slimit: int, udata: int, protocol: int) returns (id: int)
      requires Table()
      modifies this, repr
      ensures Table() && err == old(err) && pool == old(pool) && st.err == old(st).err
      ensures var (st', slot) := Create(old(st), fd, slimit, udata, protocol);
              st == st' && id == if slot.Some? then slot.value as int else -1
    {
      hide Core, Chain, Socket.Represents, NetState.Others;
      Whole(-1);
      CreateCore(st, fd, slimit, udata, protocol);
      CoreFacts(st);
      ChainTake(fds, st.free, free_socket, tail_socket, fd);
      var p := if protocol < LS_PROTOCOL_TCP || protocol > LS_PROTOCOL_IPC then LS_PROTOCOL_TCP else protocol;
      if free_socket == -1 {
        return -1;
      }
      id := free_socket;
      SameFields(id);
      TakeHead(id);
      ResetFree(id, fd, p, udata, slimit, protocol);
    }

    /** Advance the head of the free list. */
    method TakeHead(id: nat)
      requires Others(-1) && id < max
      modifies `free_socket
      ensures Others(-1) && free_socket == if fds[id] >= 0 then fds[id] else -1
    {
      hide Core, Socket.Represents;
      if sockets[id].fd >= 0 {
        free_socket := sockets[id].fd;
      } else {
        free_socket := -1;
      }
    }

    /** The rest of `_create_socket`: the slot taken off the free list is made ready, and so is its value. */
    method ResetFree(id: nat, fd: nat, p: int, udata: int, slimit: int, ghost protocol: int)
      requires Others(-1) && st.free != [] && id == st.free[0] < max && p == Protocol(protocol)
      modifies `fds, `st, sockets[id]
      ensures Others(-1) && st == Create(old(st), fd, slimit, udata, protocol).0 && fds == old(fds)[id := fd]
    {
      hide Core, Chain, Socket.Represents;
      CreateCore(st, fd, slimit, udata, protocol);
      CoreFacts(st);
      sockets[id].Reset(fd, p, udata, slimit, st.slots[id]);
      fds := fds[id := fd];
      st := Create(st, fd, slimit, udata, protocol).0;
    }

    /** The end of `_close_socket`: a slot just emptied becomes the tail of the free list. */
    method LinkFree(id: nat, ghost free: seq<nat>, ghost links: seq<int>)
      requires Others(-1) && id < max && |links| == max && fds == links[id := -1]
      requires Chain(links, free, free_socket, tail_socket) && st.free == free + [id]
      requires Distinct(free) && id !in free && forall x :: x in free ==> x < max && st.slots[x].status == Invalid
      modifies `free_socket, `tail_socket, `fds, repr`fd
      ensures Others(-1) && Chain(fds, st.free, free_socket, tail_socket)
    {
      hide Core, Chain, Socket.Represents;
      ChainAdd(links, free, free_socket, tail_socket, id);
      if free_socket == -1 {
        free_socket := id;
      } else {
        sockets[tail_socket].SetLink(id, st.slots[tail_socket]);
        fds := fds[tail_socket := id];
      }
      tail_socket := id;
    }

    /** The middle of `_close_socket`: the slot is emptied, its value closed. */
    method Vacate(id: nat, ghost a: Slot, ghost why: Why, ghost blocks: seq<Block>)
      requires Others(id) && Live(st, id) && a.status != Invalid && Core(Close(Put(st, id, a), id, why))
      requires sockets[id].Fields(a) && sockets[id].Queued(blocks)
      modifies `fds, `st, sockets[id], sockets[id].queue
      ensures Others(-1) && st == Close(Put(old(st), id, a), id, why) && fds == old(fds)[id := -1]
    {
      hide Core, Socket.Represents, Socket.Fields, Socket.Queued;
      sockets[id].Release(a, blocks);
      fds := fds[id := -1];
      st := Close(Put(st, id, a), id, why);
    }

    /** Closing a descriptor makes the kernel forget what was registered for it. */
    method CloseDescriptor(fd: int, ghost but: int)
      requires Others(but)
      modifies `np
      ensures Others(but) && np == old(np) - {fd}
    {
      hide Core, Socket.Represents;
      np := np - {fd};
    }

    /** `_close_socket`. The caller says what the slot had become (`a`) and why it goes; its counter may
        already include a message that was not queued. */
    method CloseSocket(id: nat, ghost a: Slot, ghost why: Why, ghost blocks: seq<Block>)
      requires Others(id) && Chain(fds, st.free, free_socket, tail_socket) && np == st.np && Live(st, id)
      requires sockets[id].Fields(a) && sockets[id].Queued(blocks) && sockets[id].fd == a.fd
      requires a.status != Invalid && 0 <= a.fd && a.wire <= a.sent && (why == Drained ==> a.wire == a.sent)
      modifies this, repr, pool
      ensures Table() && err == old(err) && pool == old(pool)
      ensures st == Close(Put(old(st), id, a), id, why) && st.err == old(st).err
    {
      hide Core, Chain, Socket.Represents, Socket.Fields, Socket.Queued, NetState.Others;
      Whole(id);
      CloseCore(st, id, a, why);
      CoreFacts(st);
      var s := sockets[id];
      if s.fd < 0 {
        return;
      }
      if s.fd > STDERR_FILENO {
        CloseDescriptor(s.fd, id);
      }
      ghost var free, links := st.free, fds;
      Vacate(id, a, why, blocks);
      LinkFree(id, free, links);
    }

    /** The errout path: the slot is closed as what it had become, and the error noted. */
    method CloseWith(id: nat, e: int, ghost a: Slot, ghost why: Why, ghost blocks: seq<Block>)
      requires Others(id) && Chain(fds, st.free, free_socket, tail_socket) && np == st.np && Live(st, id)
      requires sockets[id].Fields(a) && sockets[id].Queued(blocks) && sockets[id].fd == a.fd
      requires a.status != Invalid && 0 <= a.fd && a.wire <= a.sent && (why == Drained ==> a.wire == a.sent)
      modifies this, repr, pool
      ensures Valid() && pool == old(pool) && st == Close(Put(old(st), id, a), id, why).(err := e)
    {
      hide Core, Chain, Socket.Represents, Socket.Fields, Socket.Queued, Close, NetState.Others;
      CloseSocket(id, a, why, blocks);
      NoteError(e);
    }

    /** Close a slot that is as its value says. */
    method CloseAsItIs(id: nat, ghost why: Why)
      requires Table() && Live(st, id) && (why == Drained ==> st.slots[id].queue == [])
      modifies this, repr, pool
      ensures Table() && err == old(err) && pool == old(pool)
      ensures st == Close(old(st), id, why) && st.err == old(st).err
    {
      ghost var a := st.slots[id];
      assert SlotOk(a) && sockets[id].Represents(a);
      assert st.slots[id := a] == st.slots;
      CloseSocket(id, a, why, a.queue);
    }

    /** Nothing but slot `id` and the blocks queued on it has changed. */
    twostate lemma {:induction false} OthersKept(id: nat)
      requires old(Others(-1)) && id < max && unchanged(this) && unchanged(sockets)
      requires forall i {:trigger sockets[i]} :: 0 <= i < max && i != id ==> unchanged(sockets[i])
      requires forall n :: n in old(pool) && n !in old(sockets[id].queue) ==> unchanged(n)
      requires forall i {:trigger sockets[i]} :: 0 <= i < max && i != id ==>
                 Apart(old(sockets[i].queue), old(sockets[id].queue))
      ensures forall i {:trigger sockets[i]} {:trigger st.slots[i]} :: 0 <= i < max && i != id ==>
                sockets[i].Represents(st.slots[i])
    {
      hide Core, Socket.Represents, Socket.Queued;
      forall i | 0 <= i < max && i != id
        ensures sockets[i].Represents(st.slots[i])
      {
        assert sockets[i] == old(sockets[i]) && unchanged(sockets[i]);
        assert Apart(old(sockets[i].queue), old(sockets[id].queue));
        forall n | n in old(sockets[i].queue)
          ensures unchanged(n)
        {
          assert old(Pooled(sockets[i].queue));
        }
        sockets[i].Kept(st.slots[i]);
      }
    }

    /** A field of slot `id` other than `fd` and its queue may have changed, and nothing else. */
    twostate lemma {:induction false} OneChanged(id: nat)
      requires old(Others(-1)) && id < max && unchanged(this) && unchanged(sockets)
      requires sockets[id].fd == old(sockets[id].fd) && sockets[id].queue == old(sockets[id].queue)
      requires forall s :: s in repr && s != sockets[id] ==> unchanged(s)
      requires forall n :: n in old(pool) ==> unchanged(n)
      ensures Others(id)
    {
      hide Core, Socket.Represents;
      forall i | 0 <= i < max && i != id
        ensures sockets[i].Represents(st.slots[i])
      {
        assert sockets[i] in repr && sockets[i] != sockets[id] && unchanged(sockets[i]);
        assert old(Pooled(sockets[i].queue)) && pool == old(pool);
        sockets[i].Kept(st.slots[i]);
      }
    }

    /** Record the poller's registrations. */
    ghost method TakeNp(but: int)
      requires Others(but)
      modifies `st
      ensures Others(but) && st == old(st).(np := np)
    {
      hide Core, Socket.Represents;
      NpIsFree(st, np);
      st := st.(np := np);
    }

    /** Record what the slot has become. */
    ghost method Adopt(id: nat, a: Slot)
      requires Others(id) && Live(st, id) && sockets[id].Represents(a) && SlotOk(a) && a.fd == st.slots[id].fd
      requires sockets[id].fd == fds[id]
      modifies `st
      ensures Others(-1) && st == Put(old(st), id, a)
    {
      hide Core, Chain, Socket.Represents, SlotOk;
      PutCore(st, id, a);
      st := Put(st, id, a);
    }

    /** `_subscribe`, on a slot that stands for `b`. */
    method Register(id: nat, mask: Mask, ok: bool, ghost b: Slot) returns (result: int)
      requires Others(id) && Live(st, id) && b.status != Invalid && sockets[id].Represents(b)
      modifies `np, sockets[id]
      ensures Others(id) && sockets[id].fd == old(sockets[id].fd)
      ensures var (v, r) := NetModel.Subscribe(Put(st, id, b).(np := old(np)), id, mask, ok);
              && result == r && np == v.np && v == Put(st, id, v.slots[id]).(np := np)
              && v.slots[id] == b.(mask := v.slots[id].mask) && sockets[id].Represents(v.slots[id])
    {
      hide Core, Socket.Represents;
      var s := sockets[id];
      assert s.Fields(b) by { FieldsOf(s, b); }
      if mask == s.mask {
        return 0;
      }
      var done;
      if mask == NONE {
        done := ok && s.fd in np;
      } else if s.mask == NONE {
        done := ok && s.fd !in np;
      } else {
        done := ok && s.fd in np;
      }
      if !done {
        return -1;
      }
      np := if mask == NONE then np - {s.fd} else np[s.fd := Reg(mask, id)];
      s.SetMask(mask, b);
      return 0;
    }

    /** `_subscribe`, on a slot that is as its value says. */
    method Subscribe(id: nat, mask: Mask, ok: bool) returns (result: int)
      requires Table() && Live(st, id)
      modifies `np, `st, sockets[id]
      ensures Table() && (st, result) == NetModel.Subscribe(old(st), id, mask, ok) && st.err == old(st).err
    {
      hide Core, Chain, Socket.Represents, NetModel.Subscribe, SlotOk, NetState.Others;
      SameFields(id);
      SubscribeCore(st, id, mask, ok);
      MaskIsFree(st, id, mask, ok);
      assert Put(st, id, st.slots[id]).(np := np) == st by { assert st.slots[id := st.slots[id]] == st.slots; }
      ghost var v := NetModel.Subscribe(st, id, mask, ok).0;
      result := Register(id, mask, ok, st.slots[id]);
      TakeNp(id);
      Adopt(id, v.slots[id]);
    }

    /** Move a live slot to another status. */
    method SetStatus(id: nat, status: Status)
      requires Table() && Live(st, id) && SlotOk(st.slots[id].(status := status))
      modifies `st, sockets[id]
      ensures Table() && st == Put(old(st), id, old(st).slots[id].(status := status))
    {
      hide Core, Chain, Socket.Represents, NetState.Others;
      SameFields(id);
      sockets[id].SetStatus(status, st.slots[id]);
      OneChanged(id);
      Adopt(id, st.slots[id].(status := status));
    }

    /** `socket_close`. */
    method SocketClose(id: nat, force: bool) returns (ret: int)
      requires Valid() && id < max
      modifies this, repr, pool
      ensures Valid() && pool == old(pool) && (st, ret) == NetModel.SocketClose(old(st), id, force)
    {
      hide Core, Chain, Socket.Represents, Close, NetState.Others;
      var live := Lookup(id);
      if !live {
        return 0;
      }
      SameFields(id);
      if force || sockets[id].head == null {
        CloseAsItIs(id, Asked);
        return 0;
      } else {
        SetStatus(id, HalfClose);
        return 1;
      }
    }

    /** `socket_enableread`. */
    method EnableRead(id: nat, read: bool, answer: NpAnswer) returns (ret: int)
      requires Valid() && id < max
      modifies this, repr, pool
      ensures Valid() && pool == old(pool) && (st, ret) == NetModel.EnableRead(old(st), id, read, answer)
    {
      hide Core, Chain, Socket.Represents, NetState.Others;
      var live := Lookup(id);
      if !live {
        return 1;
      }
      SameFields(id);
      ret := Subscribe(id, Mask(read, sockets[id].mask.w), answer.ok);
    }

    /** `socket_udata`. */
    method SetUdata(id: nat, udata: int) returns (ret: int)
      requires Valid() && id < max
      modifies this, repr, pool
      ensures Valid() && pool == old(pool) && (st, ret) == NetModel.SetUdata(old(st), id, udata)
    {
      hide Core, Chain, Socket.Represents, SlotOk, NetState.Others;
      var live := Lookup(id);
      if !live {
        return 1;
      }
      SameFields(id);
      UdataIsFree(st.slots[id], udata);
      label Before:
      sockets[id].SetUdata(udata, st.slots[id]);
      OneChanged@Before(id);
      Adopt(id, st.slots[id].(udata := udata));
      return 0;
    }

    /** `socket_limit`. */
    method SetLimit(id: nat, slimit: int, rlimit: int) returns (ret: int)
      requires Valid() && id < max
      modifies this, repr, pool
      ensures Valid() && pool == old(pool) && (st, ret) == NetModel.SetLimit(old(st), id, slimit, rlimit)
    {
      hide Core, Chain, Socket.Represents, SlotOk, NetState.Others;
      var live := Lookup(id);
      if !live {
        return 1;
      }
      SameFields(id);
      LimitsAreFree(st, id, slimit, rlimit);
      ghost var v := NetModel.SetLimit(st, id, slimit, rlimit).0.slots[id];
      label Before:
      sockets[id].SetLimits(slimit, rlimit, st.slots[id]);
      OneChanged@Before(id);
      Adopt(id, v);
      return 0;
    }

    /** `socket_bind`; the kernel's answer to making the descriptor non-blocking is `blocked`. */
    method Bind(fd: nat, udata: int, protocol: int, blocked: Option<Errno>) returns (ret: int)
      requires Valid()
      modifies this, repr, pool
      ensures Valid() && pool == old(pool) && (st, ret) == NetModel.Bind(old(st), fd, udata, protocol, blocked)
    {
      hide Core, Chain, Socket.Represents, Close, Create, SlotOk, NetState.Others;
      Whole(-1);
      CreateCore(st, fd, 0, udata, protocol);
      var id := CreateSocket(fd, 0, udata, protocol);
      if id == -1 {
        NoteError(LS_ERR_CREATESOCK);
        return -1;
      }
      if blocked.Some? {
        CloseAsItIs(id, SetupFailed);
        NoteError(blocked.value);
        return -1;
      }
      SameFields(id);
      StatusIsFree(st.slots[id], Bound);
      SetStatus(id, Bound);
      return id;
    }

    /** `socket_listen`, from the listening descriptor on. */
    method Listen(fd: nat, udata: int, answer: NpAnswer) returns (ret: int)
      requires Valid()
      modifies this, repr, pool
      ensures Valid() && pool == old(pool) && (st, ret) == NetModel.Listen(old(st), fd, udata, answer)
    {
      hide Core, Chain, Socket.Represents, Close, Create, SlotOk, NetModel.Subscribe, NetState.Others;
      NoteError(0);
      Whole(-1);
      CreateCore(st, fd, 0, udata, LS_PROTOCOL_TCP);
      var id := CreateSocket(fd, 0, udata, LS_PROTOCOL_TCP);
      if id == -1 {
        NoteError(LS_ERR_CREATESOCK);
        return -1;
      }
      SameFields(id);
      SubscribeCore(st, id, Mask(true, false), answer.ok);
      var result := Subscribe(id, Mask(true, false), answer.ok);
      if result != 0 {
        ErrCommutes(st, id, SetupFailed, answer.e);
        NoteError(answer.e);
        CloseAsItIs(id, SetupFailed);
        return -1;
      }
      SameFields(id);
      StatusIsFree(st.slots[id], Listening);
      SetStatus(id, Listening);
      return id;
    }

    /** `socket_connect`, from the connected or connecting descriptor on. */
    method Connect(fd: nat, udata: int, connecting: bool, answer: NpAnswer) returns (ret: int)
      requires Valid()
      modifies this, repr, pool
      ensures Valid() && pool == old(pool) && (st, ret) == NetModel.Connect(old(st), fd, udata, connecting, answer)
    {
      hide Core, Chain, Socket.Represents, Close, Create, SlotOk, NetModel.Subscribe, NetState.Others;
      NoteError(0);
      Whole(-1);
      CreateCore(st, fd, 0, udata, LS_PROTOCOL_TCP);
      var id := CreateSocket(fd, 0, udata, LS_PROTOCOL_TCP);
      if id == -1 {
        NoteError(LS_ERR_CREATESOCK);
        return -1;
      }
      var status := if connecting then Connecting else Connected;
      SameFields(id);
      StatusIsFree(st.slots[id], status);
      SetStatus(id, status);
      if status == Connecting {
        ret := WaitForConnect(id, answer);
      } else {
        ret := id;
      }
    }

    /** The end of a pending `socket_connect`: register for the answer, or give the slot up. */
    method WaitForConnect(id: nat, answer: NpAnswer) returns (ret: int)
      requires Table() && Live(st, id) && st.slots[id].queue == []
      modifies this, repr, pool
      ensures Valid() && pool == old(pool)
      ensures var (v, result) := NetModel.Subscribe(old(st), id, Mask(true, true), answer.ok);
              && Live(v, id)
              && (st, ret) == if result != 0 then (Close(v, id, SetupFailed).(err := answer.e), -1)
                              else (v.(err := LS_CONNECTING), id as int)
    {
      hide Core, Chain, Socket.Represents, Close, SlotOk, NetModel.Subscribe, NetState.Others;
      SameFields(id);
      SubscribeCore(st, id, Mask(true, true), answer.ok);
      var result := Subscribe(id, Mask(true, true), answer.ok);
      if result != 0 {
        ErrCommutes(st, id, SetupFailed, answer.e);
        NoteError(answer.e);
        CloseAsItIs(id, SetupFailed);
        return -1;
      }
      NoteError(LS_CONNECTING);
      return id;
    }

    /** `self->err = e`. */
    method NoteError(e: int)
      requires Table()
      modifies `err, `st
      ensures Valid() && st == old(st).(err := e)
    {
      hide Core, Chain, Socket.Represents;
      err := e;
      ErrIsFree(st, e);
      st := st.(err := e);
    }

    /** Queue the rest of a message on slot `id`, which becomes `a`; or find that its limit is exceeded. */
    method QueueRest(id: nat, sz: int, cfd: int, begin: Data, ptr: nat, ghost a: Slot) returns (over: bool)
      requires Table() && Live(st, id) && 0 < sz && ptr + sz == |Pointed(begin)|
      requires a == st.slots[id].(sent := a.sent, queue := st.slots[id].queue + [Block(Pointed(begin)[ptr..], cfd)])
      requires Total(st.slots[id].queue) + sz <= st.slots[id].slimit ==> SlotOk(a)
      modifies this, repr, pool
      ensures over <==> Total(old(st).slots[id].queue) + sz > old(st).slots[id].slimit
      ensures fresh(pool - old(pool)) && err == old(err)
      ensures !over ==> Table() && st == Put(old(st), id, a)
      ensures over ==>
                && Others(id) && Chain(fds, st.free, free_socket, tail_socket) && np == st.np && st == old(st)
                && sockets[id].Fields(st.slots[id]) && sockets[id].Queued(st.slots[id].queue)
    {
      hide Core, Chain, SlotOk, Socket.Represents, Socket.Fields, Socket.Queued, Total;
      SameFields(id);
      var s := sockets[id];
      QueuesApart(id, st.slots[id].queue);
      label Before:
      over := s.QueueMessage(sz, cfd, begin, ptr, st.slots[id]);
      OthersKept@Before(id);
      pool := pool + (set n | n in s.queue);
      if !over {
        SubmittedIsFree(s, st.slots[id].(queue := a.queue), a);
        Adopt(id, a);
      }
    }

    /** Slot `id` may be given a message with that descriptor. */
    ghost predicate Accepts(id: nat, begin: Data, cfd: int)
      reads this
    {
      && Live(st, id) && Pointed(begin) != []
      && ((st.slots[id].protocol == LS_PROTOCOL_TCP && cfd == -1) || st.slots[id].protocol == LS_PROTOCOL_IPC)
    }

    /** Queue the first rest on a slot and ask for write interest, or close on overflow. */
    method QueueFirst(id: nat, sz: int, cfd: int, begin: Data, ptr: nat, answerNp: NpAnswer, ghost b: Slot)
      returns (over: bool)
      requires Valid() && Live(st, id) && 0 < sz && ptr + sz == |Pointed(begin)| && st.slots[id].queue == []
      requires b == st.slots[id].(sent := b.sent, queue := [] + [Block(Pointed(begin)[ptr..], cfd)])
      requires b.wire <= b.sent && (sz <= st.slots[id].slimit ==> SlotOk(b))
      modifies this, repr, pool
      ensures Valid() && fresh(pool - old(pool)) && (over <==> sz > old(st).slots[id].slimit)
      ensures over ==> st == Close(Put(old(st), id, b.(queue := [])), id, SendFailed).(err := LS_ERR_WBUFOVER)
      ensures !over ==> st == NetModel.Subscribe(Put(old(st), id, b), id, Mask(b.mask.r, true), answerNp.ok).0
    {
      hide Core, Chain, Socket.Represents, Socket.Queued, SlotOk, Close, NetModel.Subscribe, Total, NetState.Others;
      NothingQueued();
      LiveFd(id);
      over := QueueRest(id, sz, cfd, begin, ptr, b);
      if over {
        CloseWith(id, LS_ERR_WBUFOVER, b.(queue := []), SendFailed, []);
      } else {
        SameFields(id);
        var _ := Subscribe(id, Mask(sockets[id].mask.r, true), answerNp.ok);
      }
    }

    /** The senders' first write, when nothing is queued: the slot's value takes in what the kernel took. */
    method WriteFirst(id: nat, begin: Data, cfd: int, answer: WriteAnswer) returns (n: int)
      requires Valid() && Accepts(id, begin, cfd) && st.slots[id].queue == []
      modifies `st, repr`wire
      ensures Valid() && Live(st, id) && n == if answer.Wrote? then Min(answer.n, |Pointed(begin)|) else -1
      ensures st == Put(old(st), id, Taken(old(st).slots[id], Tag(Pointed(begin), cfd), if n >= 0 then n else 0))
    {
      hide Core, Chain, Socket.Represents, Socket.Queued, SlotOk, Tag, Total, NetState.Others;
      ghost var a := st.slots[id];
      SameFields(id);
      assert Pointed(begin)[0..0 + |Pointed(begin)|] == Pointed(begin);
      n := sockets[id].Write(begin, 0, |Pointed(begin)|, cfd, answer);
      OneChanged(id);
      ghost var b := Taken(a, Tag(Pointed(begin), cfd), if n >= 0 then n else 0);
      TakenOk(a, Tag(Pointed(begin), cfd), if n >= 0 then n else 0);
      StandsFor(sockets[id], b);
      Adopt(id, b);
    }

    /** The senders' path when nothing is queued: write directly, queue what is left, close on error or overflow.
        `whole` says the message was written at once. */
    method TransmitDirect(id: nat, begin: Data, cfd: int, answer: WriteAnswer, answerNp: NpAnswer)
      returns (ret: int, whole: bool)
      requires Valid() && Accepts(id, begin, cfd) && st.slots[id].queue == []
      modifies this, repr, pool
      ensures Valid() && fresh(pool - old(pool))
      ensures st == Dispatch(old(st), id, Pointed(begin), cfd, answer, answerNp)
      ensures var o := Transmit(old(st).slots[id], Pointed(begin), cfd, answer);
              ret == o.ret && (whole <==> o.slot.queue == [] && o.err == 0)
    {
      hide Core, Chain, Socket.Represents, Socket.Queued, NetState.Others;
      hide SlotOk, Close, NetModel.Subscribe, Tag, Total;
      hide Taken, Dispatch, Transmit, Refused;
      SameFields(id);
      ghost var before, data := st, Pointed(begin);
      var sz := |Pointed(begin)|;
      var n := WriteFirst(id, begin, cfd, answer);
      SameFields(id);
      LiveFd(id);
      if n >= sz {
        WholeWrite(before, id, data, cfd, answer, answerNp);
        return n, true;
      }
      var ptr, rest := 0, cfd;
      if n > 0 {
        ptr, rest := n, -1;
      } else if answer.Fail? {
        FailedWrite(before, id, data, cfd, answer, answerNp);
        CloseWith(id, answer.e, Refused(before.slots[id], data, cfd), SendFailed, []);
        return -1, false;
      }
      PartWrite(before, id, data, cfd, answer, answerNp);
      var over := QueueFirst(id, sz - ptr, rest, begin, ptr, answerNp, PartQueued(before.slots[id], data, cfd, ptr));
      if over {
        return -1, false;
      }
      return n, false;
    }

    /** The senders' path when something is queued already: queue the message behind it, or close on overflow. */
    method TransmitBehind(id: nat, begin: Data, cfd: int, ghost answer: WriteAnswer, ghost answerNp: NpAnswer)
      returns (ret: int)
      requires Valid() && Accepts(id, begin, cfd) && st.slots[id].queue != []
      modifies this, repr, pool
      ensures Valid() && fresh(pool - old(pool))
      ensures st == Dispatch(old(st), id, Pointed(begin), cfd, answer, answerNp)
      ensures ret == Transmit(old(st).slots[id], Pointed(begin), cfd, answer).ret
    {
      hide Core, Chain, Socket.Represents, Socket.Queued, SlotOk, Close, Tag, Total, NetState.Others;
      ghost var a := st.slots[id];
      ghost var o := Transmit(a, Pointed(begin), cfd, answer);
      SameFields(id);
      LiveFd(id);
      TransmitOk(a, Pointed(begin), cfd, answer);
      assert Pointed(begin)[0..] == Pointed(begin);
      var over := QueueRest(id, |Pointed(begin)|, cfd, begin, 0,
                            a.(sent := o.slot.sent, queue := a.queue + [Block(Pointed(begin)[0..], cfd)]));
      if over {
        CloseWith(id, LS_ERR_WBUFOVER, o.slot, SendFailed, a.queue);
        return -1;
      }
      return 0;
    }

    /** The common part of `socket_send` and `socket_sendfd`. */
    method TransmitMessage(id: nat, begin: Data, cfd: int, answer: WriteAnswer, answerNp: NpAnswer)
      returns (ret: int, whole: bool)
      requires Valid() && Accepts(id, begin, cfd)
      modifies this, repr, pool
      ensures Valid() && fresh(pool - old(pool))
      ensures st == Dispatch(old(st), id, Pointed(begin), cfd, answer, answerNp)
      ensures var a, o := old(st).slots[id], Transmit(old(st).slots[id], Pointed(begin), cfd, answer);
              ret == o.ret && (whole <==> a.queue == [] && o.slot.queue == [] && o.err == 0)
    {
      hide Core, Chain, Socket.Represents, SlotOk, Dispatch, Transmit, NetState.Others;
      SameFields(id);
      if sockets[id].head == null {
        ret, whole := TransmitDirect(id, begin, cfd, answer, answerNp);
      } else {
        ret := TransmitBehind(id, begin, cfd, answer, answerNp);
        whole := false;
      }
    }

    lemma {:induction false} LiveFd(id: nat)
      requires Table() && Live(st, id)
      ensures 0 <= st.slots[id].fd == sockets[id].fd
    {
      SameFields(id);
    }

    /** `socket_send`. */
    method Send(id: nat, data: seq<byte>, answer: WriteAnswer, answerNp: NpAnswer) returns (ret: int)
      requires Valid() && id < max && data != []
      modifies this, repr, pool
      ensures Valid() && fresh(pool - old(pool))
      ensures (st, ret) == NetModel.Send(old(st), id, data, answer, answerNp)
    {
      hide Core, Chain, Socket.Represents, SlotOk, Transmit, Dispatch, NetState.Others;
      var live := Lookup(id);
      if !live {
        return -1;
      }
      SameFields(id);
      if sockets[id].protocol != LS_PROTOCOL_TCP || sockets[id].status == HalfClose {
        NoteError(LS_ERR_STATUS);
        return -1;
      }
      var n, _ := TransmitMessage(id, Mem(data), -1, answer, answerNp);
      return n;
    }

    /** `socket_sendfd`. */
    method SendFd(id: nat, data: Data, cfd: int, answer: WriteAnswer, answerNp: NpAnswer) returns (ret: int)
      requires Valid() && id < max && Pointed(data) != []
      modifies this, repr, pool
      ensures Valid() && fresh(pool - old(pool))
      ensures (st, ret) == NetModel.SendFd(old(st), id, Pointed(data), cfd, answer, answerNp)
    {
      hide Core, Chain, Socket.Represents, SlotOk, Transmit, Dispatch, NetState.Others;
      var live := Lookup(id);
      if !live {
        return -1;
      }
      SameFields(id);
      if sockets[id].protocol != LS_PROTOCOL_IPC {
        NoteError(LS_ERR_STATUS);
        return -1;
      }
      var whole;
      ret, whole := TransmitMessage(id, data, cfd, answer, answerNp);
      if whole {
        return 0;
      }
    }

    /** `_send_buffer`. The slot and the poller end up as in `v`, which is not yet recorded as the table's value
        because a half-closed slot that has just been emptied must not stay. */
    method SendBuffer(id: nat, script: seq<WriteAnswer>, answer: NpAnswer) returns (error: int, ghost v: Net)
      requires Table() && Live(st, id)
      modifies this, repr, pool
      ensures st == old(st) && err == old(err) && pool == old(pool)
      ensures (v, error) == NetModel.SendBuffer(old(st), id, script, answer)
      ensures Others(id) && Chain(fds, st.free, free_socket, tail_socket) && sockets[id].fd == fds[id]
      ensures id < |v.slots| && v == Put(st, id, v.slots[id]).(np := np) && sockets[id].Represents(v.slots[id])
    {
      hide Core, Chain, SlotOk, Socket.Represents, Socket.Queued, Flush, NetModel.Subscribe, Total;
      SameFields(id);
      QueueOkOf(st.slots[id]);
      ghost var a := st.slots[id];
      var s := sockets[id];
      v := st;
      assert st.slots[id := a] == st.slots;
      if s.head == null {
        return 0, v;
      }
      if s.protocol != LS_PROTOCOL_TCP && s.protocol != LS_PROTOCOL_IPC {
        return 0, v;
      }
      QueuesApart(id, a.queue);
      label Before:
      error := s.FlushSlot(script, a);
      OthersKept@Before(id);
      ghost var b := a.(queue := Flush(a.queue, script).queue, wire := a.wire + Flush(a.queue, script).wire);
      v := Put(st, id, b);
      if error == 0 {
        if s.head == null {
          FieldsOf(s, b);
          v := NetModel.Subscribe(v, id, Mask(s.mask.r, false), answer.ok).0;
          var _ := Register(id, Mask(s.mask.r, false), answer.ok, b);
        }
      }
    }

    /** No block is queued on two sockets. */
    lemma {:induction false} QueuesApart(id: nat, blocks: seq<Block>)
      requires Others(id) && id < max && sockets[id].Queued(blocks)
      ensures forall i {:trigger sockets[i]} :: 0 <= i < max && i != id ==> Apart(sockets[i].queue, sockets[id].queue)
    {
      forall i | 0 <= i < max && i != id
        ensures Apart(sockets[i].queue, sockets[id].queue)
      {
        assert sockets[i].Represents(st.slots[i]);
        OwnedApart(sockets[i].queue, sockets[i], sockets[id].queue, sockets[id]);
      }
    }

    /** `_read_close`: the answers up to the first that is not EINTR; 0 unless the peer is gone. */
    method ReadClose(script: seq<ReadAnswer>) returns (e: int)
      ensures match Settled(script)
              case ReadFail(x) => e == x
              case Got(data, _, _) => e == if data == [] then LS_ERR_EOF else 0
              case _ => e == 0
    {
      var i := 0;
      while i < |script|
        invariant 0 <= i <= |script| && Settled(script) == Settled(script[i..])
      {
        var answer := script[i];
        assert script[i..][0] == answer && script[i..][1..] == script[i + 1..];
        i := i + 1;
        match answer {
          case ReadFail(x) => return x;
          case ReadAgain => return 0;
          case ReadIntr =>
          case Got(data, _, _) => return if data == [] then LS_ERR_EOF else 0;
        }
      }
      return 0;
    }

    /** The end of a successful `_read`. */
    method TakeIn(id: nat, n: nat)
      requires Valid() && Live(st, id) && n <= st.slots[id].rbuffersz
      modifies `st, sockets[id]
      ensures Valid() && st == Put(old(st), id, AfterRead(old(st).slots[id], n))
    {
      hide Core, Chain, Socket.Represents, SlotOk, AfterRead, NetState.Others;
      SameFields(id);
      ReadSizePositive(st.slots[id]);
      AfterReadOk(st.slots[id], n);
      KeepsFd(st.slots[id], n);
      sockets[id].AdaptReadSize(n, st.slots[id]);
      OneChanged(id);
      Adopt(id, AfterRead(st.slots[id], n));
    }

    /** The end of a connection met by a read. */
    method EndRead(id: nat, e: int) returns (r: Received)
      requires Valid() && Live(st, id)
      modifies this, repr, pool
      ensures Valid() && pool == old(pool) && st == Close(old(st), id, ReadEnded).(err := e) && r == FAILED
    {
      hide Core, Chain, Socket.Represents, Close, NetState.Others;
      CloseAsItIs(id, ReadEnded);
      NoteError(e);
      return FAILED;
    }

    /** `_read`, on a half-closed stream socket. */
    method ReadHalfClosed(id: nat, script: seq<ReadAnswer>) returns (r: Received)
      requires Valid() && Live(st, id) && st.slots[id].protocol == LS_PROTOCOL_TCP && st.slots[id].status == HalfClose
      modifies this, repr, pool
      ensures Valid() && pool == old(pool) && (st, r) == NetModel.Read(old(st), id, script)
    {
      hide Core, Chain, Socket.Represents, Close, Settled, NetState.Others;
      var e := ReadClose(script);
      if e != 0 {
        r := EndRead(id, e);
      } else {
        NoteError(0);
        r := NOTHING;
      }
    }

    /** `_read`, on a stream socket. */
    method ReadTcp(id: nat, script: seq<ReadAnswer>) returns (r: Received)
      requires Valid() && Live(st, id) && st.slots[id].protocol == LS_PROTOCOL_TCP
      modifies this, repr, pool
      ensures Valid() && pool == old(pool) && (st, r) == NetModel.Read(old(st), id, script)
    {
      hide Core, Chain, Socket.Represents, SlotOk, Close, AfterRead, Settled, NetState.Others;
      SameFields(id);
      ReadSizePositive(st.slots[id]);
      if sockets[id].status == HalfClose {
        r := ReadHalfClosed(id, script);
        return;
      }
      var sz := sockets[id].rbuffersz;
      var i := 0;
      SettledAt(script, 0);
      while i < |script|
        invariant unchanged(this) && unchanged(repr) && unchanged(pool)
        invariant 0 <= i <= |script| && Settled(script) == Settled(script[i..])
      {
        SettledAt(script, i);
        var answer := script[i];
        i := i + 1;
        match answer {
          case ReadFail(e) =>
            r := EndRead(id, e);
            return;
          case ReadAgain =>
            return NOTHING;
          case ReadIntr =>
          case Got(data, _, _) =>
            var n := Min(|data|, sz);
            if n == 0 {
              r := EndRead(id, LS_ERR_EOF);
              return;
            }
            TakeIn(id, n);
            return Received(n, data[..n], None);
        }
      }
      SettledAt(script, |script|);
      return NOTHING;
    }

    /** `_readfd`; its leading protocol check cannot fail where `socket_read` calls it. */
    method ReadFd(id: nat, script: seq<ReadAnswer>) returns (r: Received)
      requires Valid() && Live(st, id) && st.slots[id].protocol == LS_PROTOCOL_IPC
      modifies this, repr, pool
      ensures Valid() && pool == old(pool) && (st, r) == NetModel.Read(old(st), id, script)
    {
      hide Core, Chain, Socket.Represents, SlotOk, Close, Settled, NetState.Others;
      var i := 0;
      while i < |script|
        invariant unchanged(this) && unchanged(repr) && unchanged(pool)
        invariant 0 <= i <= |script| && Settled(script) == Settled(script[i..])
      {
        SettledAt(script, i);
        var answer := script[i];
        i := i + 1;
        match answer {
          case ReadFail(e) =>
            r := EndRead(id, e);
            return;
          case ReadAgain =>
            return NOTHING;
          case ReadIntr =>
          case Got(data, fd, flaw) =>
            var n := Min(|data|, RECVMSG_MAXSIZE);
            if n == 0 {
              r := EndRead(id, LS_ERR_EOF);
              return;
            }
            if flaw != 0 {
              r := EndRead(id, flaw);
              return;
            }
            return Received(if fd.Some? then n + 4 else n, data[..n], fd);
        }
      }
      SettledAt(script, |script|);
      return NOTHING;
    }

    /** `socket_read`. */
    method Read(id: nat, script: seq<ReadAnswer>) returns (r: Received)
      requires Valid() && id < max
      modifies this, repr, pool
      ensures Valid() && pool == old(pool) && (st, r) == NetModel.Read(old(st), id, script)
    {
      hide Core, Chain, Socket.Represents, SlotOk, Close, Settled, AfterRead, NetState.Others;
      var live := Lookup(id);
      if !live {
        return FAILED;
      }
      SameFields(id);
      if sockets[id].protocol == LS_PROTOCOL_TCP {
        r := ReadTcp(id, script);
      } else if sockets[id].protocol == LS_PROTOCOL_IPC {
        r := ReadFd(id, script);
      } else {
        return FAILED;
      }
    }

    /** `_accept`; -1 for a null pointer. */
    method Accept(lis: nat, answer: AcceptAnswer) returns (id: int)
      requires Table() && lis < max
      modifies this, repr, pool
      ensures Table() && err == old(err) && pool == old(pool) && st.err == old(st).err
      ensures var (st', slot) := NetModel.Accept(old(st), lis, answer);
              st == st' && id == if slot.Some? then slot.value as int else -1
    {
      hide Core, Chain, Socket.Represents, Close, Create, SlotOk, NetState.Others;
      SameFields(lis);
      if answer.NoConnection? {
        return -1;
      }
      CreateCore(st, answer.fd, st.slots[lis].slimit, st.slots[lis].udata, LS_PROTOCOL_TCP);
      id := CreateSocket(answer.fd, sockets[lis].slimit, sockets[lis].udata, LS_PROTOCOL_TCP);
      if id == -1 {
        return -1;
      }
      if !answer.nonblocking {
        CloseAsItIs(id, SetupFailed);
        return -1;
      }
      SameFields(id);
      StatusIsFree(st.slots[id], Connected);
      SetStatus(id, Connected);
    }

    /** `_onconnect`. */
    method OnConnect(id: nat, connErr: int, answer: NpAnswer)
      requires Table() && Live(st, id)
      modifies this, repr, pool
      ensures Table() && err == old(err) && pool == old(pool) && st.err == old(st).err
      ensures st == NetModel.OnConnect(old(st), id, connErr, answer)
    {
      hide Core, Chain, Socket.Represents, Close, SlotOk, NetModel.Subscribe, NetState.Others;
      SameFields(id);
      if connErr == 0 {
        StatusIsFree(st.slots[id], Connected);
        SetStatus(id, Connected);
        var _ := Subscribe(id, NONE, answer.ok);
      } else {
        CloseAsItIs(id, ConnectFailed);
      }
    }

    /** The write half of the default case in `socket_poll`: flush, and close on error or when drained. */
    method HandleWrite(w: Wakeup) returns (e: Option<Event>)
      requires Valid() && Live(st, w.id) && w.write
      modifies this, repr, pool
      ensures Valid() && pool == old(pool)
      ensures e.Some? ==> (st, e) == NetModel.HandleReady(old(st), w)
      ensures e.None? ==> NetModel.HandleReady(old(st), w) ==
                          (st, if w.read then Some(Event(LS_EREAD, w.id, old(st).slots[w.id].udata, None)) else None)
      ensures e.None? ==> Live(st, w.id) && st.slots[w.id].udata == old(st).slots[w.id].udata
    {
      hide Core, Chain, Socket.Represents, Socket.Queued, NetState.Others;
      hide Close, SlotOk, NetModel.SendBuffer, NetModel.HandleReady;
      var id := w.id;
      SameFields(id);
      var s := sockets[id];
      FlushFacts(st, w);
      ReadyCases(st, w);
      var udata := s.udata;
      var error, v := SendBuffer(id, w.script, w.np);
      ghost var b := v.slots[id];
      FieldsOf(s, b);
      HeadOf(s, b);
      TakeNp(id);
      assert Put(st, id, b) == v;
      if error != 0 {
        CloseSocket(id, b, SendFailed, b.queue);
        return Some(Event(LS_ESOCKERR, id, udata, Some(error)));
      }
      if s.status == HalfClose && s.head == null {
        CloseSocket(id, b, Drained, b.queue);
        return Some(Event(LS_EWRIDONECLOSE, id, udata, None));
      }
      Adopt(id, b);
      return None;
    }

    /** The default case of the loop in `socket_poll`: flush, then report. */
    method HandleReady(w: Wakeup) returns (e: Option<Event>)
      requires Valid() && Live(st, w.id)
      modifies this, repr, pool
      ensures Valid() && pool == old(pool) && (st, e) == NetModel.HandleReady(old(st), w)
    {
      hide Core, Chain, Socket.Represents, Socket.Queued, SlotOk, NetModel.SendBuffer, NetState.Others;
      if w.write {
        e := HandleWrite(w);
        if e.Some? {
          return e;
        }
      }
      SameFields(w.id);
      if w.read {
        return Some(Event(LS_EREAD, w.id, sockets[w.id].udata, None));
      }
      return None;
    }

    /** One turn of the loop in `socket_poll`. */
    method Handle(w: Wakeup) returns (e: Option<Event>)
      requires Valid() && w.id < max
      modifies this, repr, pool
      ensures Valid() && pool == old(pool) && (st, e) == NetModel.Handle(old(st), w)
    {
      hide Core, Chain, Socket.Represents, Socket.Queued, NetState.Others;
      hide SlotOk, NetModel.HandleReady, NetModel.OnConnect, NetModel.Accept;
      SameFields(w.id);
      var udata := sockets[w.id].udata;
      match sockets[w.id].status {
        case Listening =>
          var id := Accept(w.id, w.accepted);
          if id != -1 {
            AcceptTakesUdata(old(st), w.id, w.accepted);
            SameFields(id);
            return Some(Event(LS_EACCEPT, id, sockets[id].udata, Some(w.id)));
          }
          return None;
        case Connecting =>
          OnConnect(w.id, w.connErr, w.np);
          if w.connErr != 0 {
            return Some(Event(LS_ECONNERR, w.id, udata, Some(w.connErr)));
          } else if w.read {
            return Some(Event(LS_ECONN_THEN_READ, w.id, udata, Some(0)));
          } else {
            return Some(Event(LS_ECONNECT, w.id, udata, Some(0)));
          }
        case Invalid =>
          return None;
        case _ =>
          e := HandleReady(w);
      }
    }

    /** `socket_poll`: the batch is what the poller reports; the events end up at the front of `o_events`. */
    method Poll(batch: seq<Wakeup>) returns (n: nat)
      requires Valid() && |batch| <= max && BatchInRange(st, batch)
      modifies this, repr, pool, o_events
      ensures Valid() && pool == old(pool)
      ensures n <= |batch| && (st, o_events[..n]) == NetPoll.Poll(old(st), batch)
    {
      hide Core, Chain, Socket.Represents, NetModel.Handle, NetPoll.Poll;
      n := 0;
      var i := 0;
      assert batch[0..] == batch;
      assert o_events[..0] + NetPoll.Poll(st, batch).1 == NetPoll.Poll(st, batch).1;
      while i < |batch|
        invariant Valid() && pool == old(pool) && |st.slots| == |old(st).slots|
        invariant n <= i <= |batch|
        invariant BatchInRange(st, batch[i..])
        invariant NetPoll.Poll(old(st), batch) ==
                  (NetPoll.Poll(st, batch[i..]).0, o_events[..n] + NetPoll.Poll(st, batch[i..]).1)
      {
        PollTurn(st, batch, i);
        var e := Handle(batch[i]);
        ghost var before, later := o_events[..n], NetPoll.Poll(st, batch[i + 1..]).1;
        if e.Some? {
          o_events[n] := e.value;
          n := n + 1;
          assert o_events[..n] == before + [e.value];
          assert before + ([e.value] + later) == (before + [e.value]) + later;
        } else {
          assert [] + later == later;
        }
        i := i + 1;
      }
      assert batch[|batch|..] == [];
      PollNone(st);
      assert o_events[..n] + [] == o_events[..n];
    }

    /** The free list as the fields hold it: following `fd` from `free_socket` visits, in order, slots that are
        exactly the ones marked invalid, each once, and ends at `tail_socket` with -1. */
    lemma {:induction false} FreeListIsExact(k: nat)
      requires Valid()
      ensures k <= |st.free| ==> Follow(fds, free_socket, k) == LinkAt(st.free, k)
      ensures Follow(fds, free_socket, |st.free|) == -1
      ensures st.free != [] ==> Follow(fds, free_socket, |st.free| - 1) == tail_socket
      ensures Distinct(st.free)
      ensures forall i: nat {:trigger sockets[i]} :: i < max ==>
                sockets[i].fd == fds[i] && (sockets[i].status == Invalid <==> i in st.free)
    {
      WalkIsFreeList(fds, st.free, free_socket, tail_socket, k);
      forall i: nat | i < max
        ensures sockets[i].status == Invalid <==> i in st.free
      {
        assert sockets[i].Represents(st.slots[i]);
        assert st.slots[i].status == Invalid <==> i in st.free;
      }
    }

    /** The queue as the fields hold it: `sbuffersz` is the number of bytes submitted but not yet on the wire,
        and every queued block still has a positive rest, which is a suffix of what was handed over. */
    lemma {:induction false} CounterIsExact(id: nat)
      requires Valid() && Live(st, id)
      ensures sockets[id].sbuffersz == |st.slots[id].sent| - |st.slots[id].wire|
      ensures forall n :: n in sockets[id].queue ==> 0 < n.sz && n.ptr + n.sz == |Pointed(n.begin)|
    {
      var s, a := sockets[id], st.slots[id];
      assert s.Represents(a) && SlotOk(a);
      ItemsLength(a.queue);
      forall n | n in s.queue
        ensures 0 < n.sz && n.ptr + n.sz == |Pointed(n.begin)|
      {
        var k :| 0 <= k < |s.queue| && s.queue[k] == n;
        assert s.queue[k].sz == |a.queue[k].data|;
      }
    }

    lemma {:induction false} Whole(but: int)
      requires Others(but)
      ensures Core(st) && sockets.Length == max == |st.slots| == |fds|
      ensures forall i :: 0 <= i < max ==> sockets[i] in repr && sockets[i].fd == fds[i] && Pooled(sockets[i].queue)
    {
    }

    /** Slot `id` in particular. */
    lemma {:induction false} SameFields(id: nat)
      requires Others(-1) && (id < max || Live(st, id))
      ensures Others(id) && Core(st) && sockets.Length == max == |st.slots| == o_events.Length == |fds|
      ensures sockets[id] in repr && sockets[id].id == id && sockets[id].fd == fds[id] && Pooled(sockets[id].queue)
      ensures sockets[id].Represents(st.slots[id])
      ensures sockets[id].Fields(st.slots[id]) && sockets[id].Queued(st.slots[id].queue)
      ensures sockets[id].head == null <==> st.slots[id].queue == []
      ensures sockets[id].sbuffersz == Total(st.slots[id].queue)
      ensures Live(st, id) ==> SlotOk(st.slots[id])
    {
      assert sockets[id].Represents(st.slots[id]);
    }
  }

  lemma {:induction false} UdataIsFree(a: Slot, udata: int)
    requires SlotOk(a)
    ensures SlotOk(a.(udata := udata))
  {
  }

  lemma {:induction false} MaskIsFree(st: Net, id: nat, mask: Mask, ok: bool)
    requires Live(st, id) && SlotOk(st.slots[id])
    ensures var v := NetModel.Subscribe(st, id, mask, ok).0; SlotOk(v.slots[id]) && v.slots[id].fd == st.slots[id].fd
  {
  }

  lemma {:induction false} LimitsAreFree(st: Net, id: nat, slimit: int, rlimit: int)
    requires Live(st, id) && SlotOk(st.slots[id])
    ensures var v := NetModel.SetLimit(st, id, slimit, rlimit).0;
            && v.slots[id].fd == st.slots[id].fd && v == Put(st, id, v.slots[id]) && SlotOk(v.slots[id])
  {
    hide Items, QueueOk;
  }

  lemma {:induction false} ErrCommutes(st: Net, id: nat, why: Why, e: int)
    requires Live(st, id)
    ensures Close(st.(err := e), id, why) == Close(st, id, why).(err := e)
  {
  }

  lemma {:induction false} OwnedApart(a: seq<SendBlock>, s: Socket, b: seq<SendBlock>, t: Socket)
    requires Linked(a, s) && Linked(b, t) && s != t
    ensures Apart(a, b)
  {
    forall n | n in a
      ensures n !in b
    {
      var k :| 0 <= k < |a| && a[k] == n;
      assert n.owner == s;
      assert forall m :: 0 <= m < |b| ==> b[m].owner == t;
    }
  }

  ghost predicate Apart(a: seq<SendBlock>, b: seq<SendBlock>) {
    forall n :: n in a ==> n !in b
  }

  lemma {:induction false} QueueOkOf(a: Slot)
    requires SlotOk(a)
    ensures QueueOk(a.queue, a.protocol == LS_PROTOCOL_TCP) && QueueOk(a.queue, false)
  {
  }

  lemma {:induction false} FieldsOf(s: Socket, a: Slot)
    requires s.Represents(a)
    ensures s.Fields(a)
  {
  }

  /** What has been submitted is no part of the socket. */
  lemma {:induction false} SubmittedIsFree(s: Socket, a: Slot, b: Slot)
    requires s.Represents(a) && b == a.(sent := b.sent)
    ensures s.Represents(b)
  {
  }

  /** A slot with nothing queued, once the kernel has taken the first `n` of some items. */
  function Taken(a: Slot, items: seq<Item>, n: nat): Slot
    requires n <= |items|
  {
    a.(wire := a.wire + items[..n], sent := a.sent + items[..n])
  }

  lemma {:induction false} TakenOk(a: Slot, items: seq<Item>, n: nat)
    requires SlotOk(a) && a.queue == [] && n <= |items|
    ensures SlotOk(Taken(a, items, n))
  {
    assert Items(a.queue) == [];
    assert a.wire + [] == a.wire && (a.wire + items[..n]) + [] == a.wire + items[..n];
  }

  /** A slot whose message was refused by the kernel, and one on which the kernel took `n` bytes of it. */
  function Refused(a: Slot, data: seq<byte>, cfd: int): Slot {
    a.(sent := a.sent + Tag(data, cfd))
  }

  function PartQueued(a: Slot, data: seq<byte>, cfd: int, n: nat): Slot
    requires n < |data|
  {
    a.(sent := a.sent + Tag(data, cfd), wire := a.wire + Tag(data, cfd)[..n],
       queue := [] + [Block(data[n..], if n > 0 then -1 else cfd)])
  }

  lemma {:induction false} WholeWrite(st: Net, id: nat, data: seq<byte>, cfd: int, answer: WriteAnswer, np: NpAnswer)
    requires Live(st, id) && data != [] && st.slots[id].queue == [] && answer.Wrote? && answer.n >= |data|
    ensures Dispatch(st, id, data, cfd, answer, np) == Put(st, id, Taken(st.slots[id], Tag(data, cfd), |data|))
    ensures var o := Transmit(st.slots[id], data, cfd, answer); o.slot.queue == [] && o.err == 0 && o.ret == |data|
  {
    hide Tag;
    assert Tag(data, cfd)[..|data|] == Tag(data, cfd);
  }

  lemma {:induction false} FailedWrite(st: Net, id: nat, data: seq<byte>, cfd: int, answer: WriteAnswer, np: NpAnswer)
    requires Core(st) && Live(st, id) && data != [] && st.slots[id].queue == [] && answer.Fail?
    ensures var st1, b := Put(st, id, Taken(st.slots[id], Tag(data, cfd), 0)), Refused(st.slots[id], data, cfd);
            && b.wire <= b.sent && 0 <= b.fd && b.status != Invalid && b.queue == []
            && b == st1.slots[id].(sent := b.sent)
            && Dispatch(st, id, data, cfd, answer, np) == Close(Put(st1, id, b), id, SendFailed).(err := answer.e)
    ensures var o := Transmit(st.slots[id], data, cfd, answer); o.err != 0 && o.ret == -1
  {
    hide Tag, Close;
    var a := st.slots[id];
    assert SlotOk(a);
    PutTwice(st, id, Taken(a, Tag(data, cfd), 0), Refused(a, data, cfd));
    assert a.wire <= a.wire + Items(a.queue) + Tag(data, cfd);
    assert a.wire + Tag(data, cfd)[..0] == a.wire;
  }

  /** The kernel took `n` bytes, fewer than offered; -1 stands for EAGAIN and EINTR. */
  lemma {:induction false} PartWrite(st: Net, id: nat, data: seq<byte>, cfd: int, answer: WriteAnswer, np: NpAnswer)
    requires Core(st) && Live(st, id) && data != [] && st.slots[id].queue == []
    requires (st.slots[id].protocol == LS_PROTOCOL_TCP && cfd == -1) || st.slots[id].protocol == LS_PROTOCOL_IPC
    requires !answer.Fail? && (answer.Wrote? ==> answer.n < |data|)
    ensures var n := if answer.Wrote? then answer.n else 0;
            var a, b := st.slots[id], PartQueued(st.slots[id], data, cfd, n);
            var st1, o := Put(st, id, Taken(a, Tag(data, cfd), n)), Transmit(a, data, cfd, answer);
            && b == st1.slots[id].(sent := b.sent, queue := b.queue) && st1.slots[id].queue == [] && Live(st1, id)
            && b.wire <= b.sent && (|data| - n <= a.slimit ==> SlotOk(b))
            && o.ret == (if |data| - n > a.slimit then -1 else if answer.Wrote? then n else -1)
            && (o.err != 0 || o.slot.queue != [])
            && Dispatch(st, id, data, cfd, answer, np) ==
               if |data| - n > a.slimit then
                 Close(Put(st1, id, b.(queue := [])), id, SendFailed).(err := LS_ERR_WBUFOVER)
               else NetModel.Subscribe(Put(st1, id, b), id, Mask(b.mask.r, true), np.ok).0
  {
    hide Tag, Close, NetModel.Subscribe, SlotOk;
    var n := if answer.Wrote? then answer.n else 0;
    var a, b := st.slots[id], PartQueued(st.slots[id], data, cfd, n);
    assert SlotOk(a);
    TransmitOk(a, data, cfd, answer);
    QueuedOk(a, data, cfd, n);
    assert [] + [Block(data[n..], if n > 0 then -1 else cfd)] == [Block(data[n..], if n > 0 then -1 else cfd)];
    PutTwice(st, id, Taken(a, Tag(data, cfd), n), b);
    PutTwice(st, id, Taken(a, Tag(data, cfd), n), b.(queue := []));
  }

  lemma {:induction false} PutTwice(st: Net, id: nat, a: Slot, b: Slot)
    requires id < |st.slots|
    ensures Put(Put(st, id, a), id, b) == Put(st, id, b)
  {
    assert st.slots[id := a][id := b] == st.slots[id := b];
  }

  lemma {:induction false} KeepsFd(a: Slot, n: nat)
    ensures AfterRead(a, n).fd == a.fd
  {
  }

  /** Reading the script position by position. */
  lemma {:induction false} SettledAt(script: seq<ReadAnswer>, i: nat)
    requires i <= |script|
    ensures script[0..] == script
    ensures i == |script| ==> Settled(script[i..]) == ReadAgain
    ensures i < |script| ==> Settled(script[i..]) == if script[i].ReadIntr? then Settled(script[i + 1..]) else script[i]
  {
    if i < |script| {
      assert script[i..][0] == script[i] && script[i..][1..] == script[i + 1..];
    }
  }

  lemma {:induction false} NpIsFree(st: Net, np: map<int, Reg>)
    requires Core(st)
    ensures Core(st.(np := np))
  {
  }

  lemma {:induction false} StandsFor(s: Socket, b: Slot)
    requires s.Fields(b) && s.Queued(b.queue) && s.sbuffersz == Total(b.queue)
    ensures s.Represents(b)
  {
  }

  lemma {:induction false} HeadOf(s: Socket, b: Slot)
    requires s.Represents(b)
    ensures s.Queued(b.queue) && (s.head == null <==> b.queue == [])
  {
  }

  /** The slot after a flush: its wire is a prefix of what was submitted, all of it when nothing is queued,
      and it may stay unless it is half-closed and empty. */
  lemma {:induction false} FlushFacts(st: Net, w: Wakeup)
    requires Core(st) && Live(st, w.id)
    ensures var (v, error) := NetModel.SendBuffer(st, w.id, w.script, w.np);
            && w.id < |v.slots|
            && var a, b := st.slots[w.id], v.slots[w.id];
            && b.status == a.status && b.fd == a.fd && b.udata == a.udata && 0 <= b.fd
            && b.wire <= b.sent && (b.queue == [] ==> b.wire == b.sent)
            && ((b.status == HalfClose && b.queue == []) || SlotOk(b))
            && (error != 0 ==> b.queue != [])
  {
    SendBufferEffect(st, w.id, w.script, w.np);
    var b := NetModel.SendBuffer(st, w.id, w.script, w.np).0.slots[w.id];
    var f := FlushedSlot(st.slots[w.id], w.script);
    assert SlotOk(st.slots[w.id]);
    FlushedSlotOk(st.slots[w.id], w.script);
    assert SlotOk(f.(status := Connected));
    assert b == f.(mask := b.mask);
    assert b.queue == [] ==> Items(b.queue) == [];
  }

  /** A writable event by what the flush makes of it. */
  lemma {:induction false} ReadyCases(st: Net, w: Wakeup)
    requires Live(st, w.id) && w.write
    ensures var (v, error) := NetModel.SendBuffer(st, w.id, w.script, w.np);
            var s, r := st.slots[w.id], NetModel.HandleReady(st, w);
            && w.id < |v.slots|
            && (error != 0 && Live(v, w.id) ==>
                  r == (Close(v, w.id, SendFailed), Some(Event(LS_ESOCKERR, w.id, s.udata, Some(error)))))
            && (error == 0 && s.status == HalfClose && v.slots[w.id].queue == [] && Live(v, w.id) ==>
                  r == (Close(v, w.id, Drained), Some(Event(LS_EWRIDONECLOSE, w.id, s.udata, None))))
            && (error == 0 && !(s.status == HalfClose && v.slots[w.id].queue == []) ==>
                  r == (v, if w.read then Some(Event(LS_EREAD, w.id, s.udata, None)) else None))
  {
  }

  lemma {:induction false} AcceptTakesUdata(st: Net, lis: nat, answer: AcceptAnswer)
    requires Core(st) && Live(st, lis)
    ensures var (st', slot) := NetModel.Accept(st, lis, answer);
            slot.Some? ==> Live(st', slot.value) && st'.slots[slot.value].udata == st.slots[lis].udata
  {
  }

  lemma {:induction false} PollNone(st: Net)
    requires Core(st)
    ensures NetPoll.Poll(st, []) == (st, [])
  {
  }

  /** A poll by position in its batch. */
  lemma {:induction false} PollTurn(st: Net, batch: seq<Wakeup>, i: nat)
    requires Core(st) && i < |batch| && BatchInRange(st, batch[i..])
    ensures batch[i].id < |st.slots|
    ensures var (st1, e) := NetModel.Handle(st, batch[i]);
            && Core(st1) && |st1.slots| == |st.slots| && BatchInRange(st1, batch[i + 1..])
            && NetPoll.Poll(st, batch[i..]) ==
               (NetPoll.Poll(st1, batch[i + 1..]).0, AsSeq(e) + NetPoll.Poll(st1, batch[i + 1..]).1)
  {
    hide SlotOk, ClosedOk, Distinct, NetModel.Handle;
    assert batch[i..][0] == batch[i] && batch[i..][1..] == batch[i + 1..];
    HandleCore(st, batch[i]);
    HandleFrame(st, batch[i]);
    forall k {:trigger batch[i + 1..][k]} | 0 <= k < |batch[i + 1..]|
      ensures batch[i + 1..][k].id < |st.slots|
    {
      assert batch[i + 1..][k] == batch[i..][k + 1];
    }
  }
}
