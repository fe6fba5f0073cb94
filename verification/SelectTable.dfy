/** The select backend: owners in a growable array indexed by descriptor, two descriptor sets and the cached
    greatest descriptor. It is proved to be a map from descriptor to mask and owner. */
module SelectTable {
  import opened Bytes
  import opened Interest

  const FD_SETSIZE := 1024

  /** One `np_event`: whose descriptor, and what it is ready for. */
  datatype Ready = Ready(owner: nat, read: bool, write: bool)

  /** The kernel's answer to `select`: the descriptors it finds ready, or an error. */
  datatype Answer = Found(readable: set<int>, writable: set<int>) | Failed

  predicate ValidFd(fd: int) {
    0 <= fd < FD_SETSIZE
  }

  /** The registered descriptors below `k` that are ready, in ascending order. */
  function ReadyFds(owners: map<int, nat>, r: set<int>, w: set<int>, k: nat): (fds: seq<int>)
    ensures forall i :: 0 <= i < |fds| ==> fds[i] in owners
  {
    if k == 0 then []
    else ReadyFds(owners, r, w, k - 1) + if k - 1 in owners && (k - 1 in r || k - 1 in w) then [k - 1] else []
  }

  /** The record says whose descriptor it is and what it is ready for, among what it is watched for. */
  predicate Records(view: map<int, Reg>, readable: set<int>, writable: set<int>, fd: int, e: Ready) {
    && fd in view && e.owner == view[fd].owner
    && (e.read <==> view[fd].mask.r && fd in readable)
    && (e.write <==> view[fd].mask.w && fd in writable)
  }

  /** Exactly the ready registered descriptors are listed, each once, in ascending order. */
  lemma {:induction false} ReadyFdsAreExact(owners: map<int, nat>, r: set<int>, w: set<int>, k: nat)
    ensures forall fd :: fd in ReadyFds(owners, r, w, k) <==> 0 <= fd < k && fd in owners && (fd in r || fd in w)
    ensures forall i, j :: 0 <= i < j < |ReadyFds(owners, r, w, k)| ==>
              ReadyFds(owners, r, w, k)[i] < ReadyFds(owners, r, w, k)[j]
  {
    if k > 0 {
      ReadyFdsAreExact(owners, r, w, k - 1);
      var before := ReadyFds(owners, r, w, k - 1);
      assert forall i :: 0 <= i < |before| ==> before[i] in before;
    }
  }

  lemma {:induction false} ReadyFdsNone(owners: map<int, nat>, r: set<int>, w: set<int>)
    ensures ReadyFds(owners, r, w, 0) == []
  {
  }

  lemma {:induction false} ReadyFdsStep(owners: map<int, nat>, r: set<int>, w: set<int>, k: nat, m: nat)
    requires k < m
    ensures var before, all := ReadyFds(owners, r, w, k), ReadyFds(owners, r, w, m);
            if k in owners && (k in r || k in w)
            then |ReadyFds(owners, r, w, k + 1)| == |before| + 1 <= |all| && all[|before|] == k
            else ReadyFds(owners, r, w, k + 1) == before
  {
    ReadyFdsGrow(owners, r, w, k + 1, m);
  }

  lemma {:induction false} ReadyFdsGrow(owners: map<int, nat>, r: set<int>, w: set<int>, k: nat, m: nat)
    requires k <= m
    ensures ReadyFds(owners, r, w, k) <= ReadyFds(owners, r, w, m)
  {
    if k < m {
      ReadyFdsGrow(owners, r, w, k, m - 1);
    }
  }

  function ReadySet(owners: map<int, nat>, r: set<int>, w: set<int>, k: nat): set<int> {
    set fd | fd in owners && 0 <= fd < k && (fd in r || fd in w)
  }

  lemma {:induction false} ReadyFdsSize(owners: map<int, nat>, r: set<int>, w: set<int>, k: nat)
    ensures |ReadyFds(owners, r, w, k)| == |ReadySet(owners, r, w, k)|
  {
    if k > 0 {
      ReadyFdsSize(owners, r, w, k - 1);
      var before := ReadySet(owners, r, w, k - 1);
      if k - 1 in owners && (k - 1 in r || k - 1 in w) {
        assert ReadySet(owners, r, w, k) == before + {k - 1};
      } else {
        assert ReadySet(owners, r, w, k) == before;
      }
    }
  }

  lemma {:induction false} SubsetSize(a: set<int>, b: set<int>)
    requires a <= b
    ensures |a| <= |b|
  {
    assert b == a + (b - a);
  }

  lemma {:induction false} WatchedBoundsReady(owners: map<int, nat>, r: set<int>, w: set<int>,
      rs: set<int>, ws: set<int>, k: nat)
    ensures |ReadyFds(owners, r * rs, w * ws, k)| <= |r + w|
  {
    ReadyFdsSize(owners, r * rs, w * ws, k);
    SubsetSize(ReadySet(owners, r * rs, w * ws, k), r + w);
  }

  lemma {:induction false} AllReady(owners: map<int, nat>, r: set<int>, w: set<int>, k: nat)
    requires Tracked(owners, r, w) && forall fd :: fd in owners ==> 0 <= fd < k
    ensures |ReadyFds(owners, r, w, k)| == |r + w|
  {
    ReadyFdsSize(owners, r, w, k);
    assert ReadySet(owners, r, w, k) == r + w;
  }

  /** The owners an array of descriptor entries records. */
  function OwnersOf(ud: seq<Option<nat>>): map<int, nat> {
    map fd | 0 <= fd < |ud| && ud[fd].Some? :: ud[fd].value
  }

  lemma {:induction false} OwnersSet(ud: seq<Option<nat>>, fd: nat, owner: nat)
    requires fd < |ud|
    ensures OwnersOf(ud[fd := Some(owner)]) == OwnersOf(ud)[fd := owner]
    ensures OwnersOf(ud[fd := None]) == OwnersOf(ud) - {fd}
  {
  }

  lemma {:induction false} OwnersAt(ud: seq<Option<nat>>, fd: nat)
    requires fd < |ud|
    ensures fd in OwnersOf(ud) <==> ud[fd].Some?
    ensures fd in OwnersOf(ud) ==> OwnersOf(ud)[fd] == ud[fd].value
  {
  }

  lemma {:induction false} OwnersPad(ud: seq<Option<nat>>, bigger: seq<Option<nat>>)
    requires |ud| <= |bigger| && bigger[..|ud|] == ud
    requires forall k :: |ud| <= k < |bigger| ==> bigger[k].None?
    ensures OwnersOf(bigger) == OwnersOf(ud)
  {
    assert forall k :: 0 <= k < |ud| ==> bigger[k] == bigger[..|ud|][k];
  }

  /** Owners and the two sets, read as one map from descriptor to mask and owner. */
  function ViewOf(owners: map<int, nat>, r: set<int>, w: set<int>): map<int, Reg> {
    map fd | fd in owners :: Reg(Mask(fd in r, fd in w), owners[fd])
  }

  /** No descriptor is watched without being registered. */
  predicate Tracked(owners: map<int, nat>, r: set<int>, w: set<int>) {
    r <= owners.Keys && w <= owners.Keys
  }

  function SetBit(s: set<int>, fd: int, on: bool): set<int> {
    if on then s + {fd} else s - {fd}
  }

  lemma {:induction false} AddView(owners: map<int, nat>, r: set<int>, w: set<int>, fd: int, reg: Reg)
    requires Tracked(owners, r, w)
    ensures var r', w' := r + (if reg.mask.r then {fd} else {}), w + (if reg.mask.w then {fd} else {});
            && Tracked(owners[fd := reg.owner], r', w')
            && (fd !in owners ==> ViewOf(owners[fd := reg.owner], r', w') == ViewOf(owners, r, w)[fd := reg])
  {
  }

  lemma {:induction false} ModView(owners: map<int, nat>, r: set<int>, w: set<int>, fd: int, mask: Mask)
    requires Tracked(owners, r, w) && fd in owners
    ensures Tracked(owners, SetBit(r, fd, mask.r), SetBit(w, fd, mask.w))
    ensures ViewOf(owners, SetBit(r, fd, mask.r), SetBit(w, fd, mask.w)) ==
            ViewOf(owners, r, w)[fd := Reg(mask, owners[fd])]
  {
  }

  lemma {:induction false} DelView(owners: map<int, nat>, r: set<int>, w: set<int>, fd: int)
    requires Tracked(owners, r, w)
    ensures Tracked(owners - {fd}, r - {fd}, w - {fd})
    ensures ViewOf(owners - {fd}, r - {fd}, w - {fd}) == ViewOf(owners, r, w) - {fd}
  {
  }

  class SelectState {
    var cap: int
    var ud: array<Option<nat>>
    var maxfd: int
    var rfds: set<int>
    var wfds: set<int>

    ghost predicate Valid()
      reads this, ud
    {
      && 1 <= cap == ud.Length
      && -1 <= maxfd < cap
      && (0 <= maxfd ==> ud[maxfd].Some?)
      && (forall fd :: maxfd < fd < ud.Length ==> ud[fd].None?)
      && (forall fd :: fd in rfds || fd in wfds ==> ValidFd(fd))
    }

    ghost function Owners(): map<int, nat>
      reads this, ud
    {
      OwnersOf(ud[..])
    }

    ghost predicate Clean()
      reads this, ud
    {
      Tracked(Owners(), rfds, wfds)
    }

    /** The table as a map from descriptor to mask and owner. */
    ghost function View(): map<int, Reg>
      reads this, ud
    {
      ViewOf(Owners(), rfds, wfds)
    }

    /** `np_init`. */
    constructor (max: int)
      ensures Valid() && Clean() && View() == map[] && maxfd == -1 && fresh(ud)
      ensures max <= cap && (cap == 1 || cap < 2 * max)
    {
      var c := 1;
      while c < max
        invariant 1 <= c && (c == 1 || c < 2 * max)
      {
        c := c * 2;
      }
      cap := c;
      ud := new Option<nat>[c](_ => None);
      maxfd := -1;
      rfds, wfds := {}, {};
      new;
      assert Owners() == map[];
    }

    /** `_grow`: room for descriptor `fd`, every registration kept. */
    method Grow(fd: int)
      requires Valid() && cap <= fd
      modifies `cap, `ud
      ensures Valid() && fd < cap && fresh(ud) && Owners() == old(Owners())
    {
      var c := cap;
      while c <= fd
        invariant cap <= c
        decreases fd - c
      {
        c := c * 2;
      }
      var oldUd := ud;
      ud := new Option<nat>[c](i requires 0 <= i reads this, oldUd => if i < oldUd.Length then oldUd[i] else None);
      cap := c;
      OwnersPad(oldUd[..], ud[..]);
    }

    /** The part of `np_add` that records the owner. */
    method Store(fd: nat, owner: nat)
      requires Valid()
      modifies `cap, `ud, `maxfd, ud
      ensures Valid() && (ud == old(ud) || fresh(ud)) && Owners() == old(Owners())[fd := owner]
    {
      hide OwnersOf;
      if fd >= cap {
        Grow(fd);
      }
      OwnersSet(ud[..], fd, owner);
      ghost var before := ud[..];
      ud[fd] := Some(owner);
      assert ud[..] == before[fd := Some(owner)];
      if maxfd < fd {
        maxfd := fd;
      }
    }

    /** `np_add`. */
    method Add(fd: int, mask: Mask, owner: nat) returns (result: int)
      requires Valid()
      modifies this, ud
      ensures Valid() && (ud == old(ud) || fresh(ud))
      ensures result == if ValidFd(fd) then 0 else -1
      ensures !ValidFd(fd) || mask == NONE ==>
                Owners() == old(Owners()) && rfds == old(rfds) && wfds == old(wfds) && maxfd == old(maxfd)
      ensures ValidFd(fd) && mask != NONE ==>
                && Owners() == old(Owners())[fd := owner]
                && rfds == old(rfds) + (if mask.r then {fd} else {})
                && wfds == old(wfds) + (if mask.w then {fd} else {})
      ensures old(Clean()) ==> Clean()
      ensures old(Clean()) && fd !in old(View()) && ValidFd(fd) && mask != NONE ==>
                View() == old(View())[fd := Reg(mask, owner)]
    {
      hide OwnersOf, Tracked;
      if !ValidFd(fd) {
        return -1;
      }
      var watched := false;
      if mask.r {
        rfds := rfds + {fd};
        watched := true;
      }
      if mask.w {
        wfds := wfds + {fd};
        watched := true;
      }
      if watched {
        Store(fd, owner);
        if old(Clean()) {
          AddView(old(Owners()), old(rfds), old(wfds), fd, Reg(mask, owner));
        }
      }
      return 0;
    }

    /** `np_mod`: only the two sets change. */
    method Mod(fd: int, mask: Mask) returns (result: int)
      requires Valid()
      modifies `rfds, `wfds
      ensures Valid() && result == if ValidFd(fd) then 0 else -1
      ensures !ValidFd(fd) ==> rfds == old(rfds) && wfds == old(wfds)
      ensures ValidFd(fd) ==> rfds == SetBit(old(rfds), fd, mask.r) && wfds == SetBit(old(wfds), fd, mask.w)
      ensures old(Clean()) && fd in old(View()) && ValidFd(fd) ==>
                Clean() && View() == old(View())[fd := Reg(mask, old(Owners())[fd])]
    {
      if !ValidFd(fd) {
        return -1;
      }
      if mask.r {
        rfds := rfds + {fd};
      } else {
        rfds := rfds - {fd};
      }
      if mask.w {
        wfds := wfds + {fd};
      } else {
        wfds := wfds - {fd};
      }
      if old(Clean()) && fd in Owners() {
        ModView(Owners(), old(rfds), old(wfds), fd, mask);
      }
      return 0;
    }

    /** `np_del`; the source asserts that the descriptor is within the array. */
    method Del(fd: int) returns (result: int)
      requires Valid() && (ValidFd(fd) ==> fd < cap)
      modifies this, ud
      ensures Valid() && ud == old(ud) && result == if ValidFd(fd) then 0 else -1
      ensures !ValidFd(fd) ==> Owners() == old(Owners()) && rfds == old(rfds) && wfds == old(wfds)
      ensures ValidFd(fd) ==>
                Owners() == old(Owners()) - {fd} && rfds == old(rfds) - {fd} && wfds == old(wfds) - {fd}
      ensures old(Clean()) ==> Clean()
      ensures old(Clean()) && ValidFd(fd) ==> View() == old(View()) - {fd}
    {
      if !ValidFd(fd) {
        return -1;
      }
      rfds := rfds - {fd};
      wfds := wfds - {fd};
      OwnersSet(ud[..], fd, 0);
      ud[fd] := None;
      assert ud[..] == old(ud[..])[fd := None];
      if fd == maxfd {
        var i := maxfd - 1;
        while i >= 0
          invariant -1 <= i < maxfd
          invariant forall k :: i < k < ud.Length ==> ud[k].None?
        {
          if ud[i].Some? {
            break;
          }
          i := i - 1;
        }
        maxfd := i;
      }
      if old(Clean()) {
        DelView(old(Owners()), old(rfds), old(wfds), fd);
      }
      return 0;
    }

    /** `np_poll`: the records written from the start of the event array on, one for each ready registered descriptor
        in ascending order. The code never looks at `max`, the array's size. */
    method Poll(max: int, answer: Answer) returns (e: seq<Ready>)
      requires Valid()
      ensures answer.Failed? ==> e == []
      ensures answer.Found? ==>
                var fds := ReadyFds(Owners(), rfds * answer.readable, wfds * answer.writable, maxfd + 1);
                && |e| == |fds|
                && forall i :: 0 <= i < |e| ==> Records(View(), answer.readable, answer.writable, fds[i], e[i])
    {
      e := [];
      if maxfd == -1 {
        return;
      }
      if answer.Failed? {
        return;
      }
      var rtmp, wtmp := rfds * answer.readable, wfds * answer.writable;
      e := Collect(rtmp, wtmp);
      forall i | 0 <= i < |e|
        ensures Records(View(), answer.readable, answer.writable,
                        ReadyFds(Owners(), rtmp, wtmp, maxfd + 1)[i], e[i])
      {
      }
    }

    /** The scan over the descriptors up to the cached maximum. */
    method Collect(rtmp: set<int>, wtmp: set<int>) returns (e: seq<Ready>)
      requires Valid()
      ensures var fds := ReadyFds(Owners(), rtmp, wtmp, maxfd + 1);
              && |e| == |fds|
              && forall i :: 0 <= i < |e| ==> e[i] == Ready(Owners()[fds[i]], fds[i] in rtmp, fds[i] in wtmp)
    {
      hide OwnersOf, ReadyFds;
      ghost var owners := Owners();
      ghost var fds := ReadyFds(owners, rtmp, wtmp, maxfd + 1);
      e := [];
      ReadyFdsNone(owners, rtmp, wtmp);
      var i := 0;
      while i <= maxfd
        invariant 0 <= i <= maxfd + 1
        invariant |e| == |ReadyFds(owners, rtmp, wtmp, i)| <= |fds|
        invariant forall j :: 0 <= j < |e| ==> e[j] == Ready(owners[fds[j]], fds[j] in rtmp, fds[j] in wtmp)
      {
        ReadyFdsStep(owners, rtmp, wtmp, i, maxfd + 1);
        OwnersAt(ud[..], i);
        var read, write := i in rtmp, i in wtmp;
        if read || write {
          if ud[i].Some? {
            e := e + [Ready(ud[i].value, read, write)];
          }
        }
        i := i + 1;
      }
    }

    /** No answer makes a poll write past the event array exactly when the array has room for every descriptor that
        is watched for something. */
    lemma {:induction false} PollFitsExactly(max: int)
      requires Valid() && Clean()
      ensures (forall readable: set<int>, writable: set<int> ::
                 |ReadyFds(Owners(), rfds * readable, wfds * writable, maxfd + 1)| <= max) <==> |rfds + wfds| <= max
    {
      hide OwnersOf, ReadyFds, Tracked;
      forall readable: set<int>, writable: set<int>
        ensures |ReadyFds(Owners(), rfds * readable, wfds * writable, maxfd + 1)| <= |rfds + wfds|
      {
        WatchedBoundsReady(Owners(), rfds, wfds, readable, writable, maxfd + 1);
      }
      MaxFdIsGreatest();
      AllReady(Owners(), rfds, wfds, maxfd + 1);
      assert rfds * rfds == rfds && wfds * wfds == wfds;
    }

    /** The cached maximum is the greatest registered descriptor, and -1 when there is none. */
    lemma {:induction false} MaxFdIsGreatest()
      requires Valid()
      ensures maxfd == -1 <==> Owners() == map[]
      ensures 0 <= maxfd ==> maxfd in Owners()
      ensures forall fd :: fd in Owners() ==> 0 <= fd <= maxfd
    {
      assert 0 <= maxfd ==> maxfd in Owners();
    }

    /** A poll reports a descriptor's owner exactly when the descriptor is registered and ready for something
        in its mask. */
    lemma {:induction false} PollIsExact(answer: Answer)
      requires Valid() && Clean() && answer.Found?
      ensures var fds := ReadyFds(Owners(), rfds * answer.readable, wfds * answer.writable, maxfd + 1);
              && (forall fd :: fd in fds <==>
                    && fd in View()
                    && ((View()[fd].mask.r && fd in answer.readable) || (View()[fd].mask.w && fd in answer.writable)))
              && (forall i, j :: 0 <= i < j < |fds| ==> fds[i] < fds[j])
    {
      MaxFdIsGreatest();
      ReadyFdsAreExact(Owners(), rfds * answer.readable, wfds * answer.writable, maxfd + 1);
    }
  }
}
