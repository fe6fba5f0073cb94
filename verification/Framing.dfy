/** Separator framing on one flat byte sequence: what searching, splitting and framing mean
    before any chunking enters the picture. */
module Framing {
  import opened Bytes

  predicate MatchAt(s: seq<byte>, sep: seq<byte>, i: nat) {
    i + |sep| <= |s| && s[i..i + |sep|] == sep
  }

  function FindFrom(s: seq<byte>, sep: seq<byte>, i: nat): (r: Option<nat>)
    requires i <= |s|
    ensures r.Some? ==> i <= r.value && MatchAt(s, sep, r.value)
    decreases |s| - i
  {
    if MatchAt(s, sep, i) then Some(i)
    else if i == |s| then None
    else FindFrom(s, sep, i + 1)
  }

  /** The position of the first occurrence of `sep`, if there is one. */
  function Find(s: seq<byte>, sep: seq<byte>): (r: Option<nat>)
    ensures r.Some? ==> MatchAt(s, sep, r.value)
  {
    FindFrom(s, sep, 0)
  }

  lemma {:induction false} FindFromIsFirst(s: seq<byte>, sep: seq<byte>, i: nat, j: nat)
    requires i <= j && i <= |s| && MatchAt(s, sep, j)
    ensures FindFrom(s, sep, i).Some? && FindFrom(s, sep, i).value <= j
    decreases |s| - i
  {
    if !MatchAt(s, sep, i) {
      FindFromIsFirst(s, sep, i + 1, j);
    }
  }

  /** An occurrence is never missed and never preceded by the one reported. */
  lemma {:induction false} FindIsFirst(s: seq<byte>, sep: seq<byte>, j: nat)
    requires MatchAt(s, sep, j)
    ensures Find(s, sep).Some? && Find(s, sep).value <= j
  {
    FindFromIsFirst(s, sep, 0, j);
  }

  /** Take the bytes before the first occurrence and drop the occurrence with them. */
  function PopFlat(s: seq<byte>, sep: seq<byte>): (seq<byte>, Option<seq<byte>>) {
    match Find(s, sep)
    case None => (s, None)
    case Some(i) => (s[i + |sep|..], Some(s[..i]))
  }

  /** Later input cannot disturb a match already found. */
  lemma {:induction false} FindStable(s: seq<byte>, t: seq<byte>, sep: seq<byte>)
    requires Find(s, sep).Some?
    ensures Find(s + t, sep) == Find(s, sep)
  {
    var i := Find(s, sep).value;
    assert (s + t)[i..i + |sep|] == s[i..i + |sep|];
    FindIsFirst(s + t, sep, i);
    var j := Find(s + t, sep).value;
    assert (s + t)[j..j + |sep|] == s[j..j + |sep|];
    FindIsFirst(s, sep, j);
  }

  /** Every complete frame of `s`, cut at first occurrences from the left. */
  function Split(s: seq<byte>, sep: seq<byte>): seq<seq<byte>>
    requires sep != []
    decreases |s|
  {
    match Find(s, sep)
    case None => []
    case Some(i) => [s[..i]] + Split(s[i + |sep|..], sep)
  }

  /** What is left of `s` behind its last complete frame. */
  function Residue(s: seq<byte>, sep: seq<byte>): seq<byte>
    requires sep != []
    decreases |s|
  {
    match Find(s, sep)
    case None => s
    case Some(i) => Residue(s[i + |sep|..], sep)
  }

  /** The bytes a sender submits for a list of messages. */
  function Frame(msgs: seq<seq<byte>>, sep: seq<byte>): seq<byte> {
    if msgs == [] then [] else msgs[0] + sep + Frame(msgs[1..], sep)
  }

  /** Popping one frame takes exactly the first frame off the split, whatever is still to come. */
  lemma {:induction false} SplitPop(s: seq<byte>, sep: seq<byte>, later: seq<byte>)
    requires sep != []
    ensures var (rest, out) := PopFlat(s, sep);
            Split(s + later, sep) == (if out.Some? then [out.value] else []) + Split(rest + later, sep)
  {
    hide FindFrom;
    if Find(s, sep).Some? {
      var i := Find(s, sep).value;
      FindStable(s, later, sep);
      assert (s + later)[..i] == s[..i];
      assert (s + later)[i + |sep|..] == s[i + |sep|..] + later;
    }
  }

  /** More input only adds frames behind those already complete. */
  lemma {:induction false} SplitAppend(s: seq<byte>, t: seq<byte>, sep: seq<byte>)
    requires sep != []
    ensures Split(s + t, sep) == Split(s, sep) + Split(Residue(s, sep) + t, sep)
    decreases |s|
  {
    if Find(s, sep).Some? {
      var i := Find(s, sep).value;
      FindStable(s, t, sep);
      assert (s + t)[..i] == s[..i];
      assert (s + t)[i + |sep|..] == s[i + |sep|..] + t;
      SplitAppend(s[i + |sep|..], t, sep);
    }
  }

  lemma {:induction false} SplitPrefix(s: seq<byte>, total: seq<byte>, sep: seq<byte>)
    requires sep != [] && s <= total
    ensures Split(s, sep) <= Split(total, sep)
  {
    assert total == s + total[|s|..];
    SplitAppend(s, total[|s|..], sep);
  }

  lemma {:induction false} Recompose(s: seq<byte>, i: nat, sep: seq<byte>, frames: seq<byte>, residue: seq<byte>)
    requires MatchAt(s, sep, i) && frames + residue == s[i + |sep|..]
    ensures (s[..i] + sep + frames) + residue == s
  {
    assert (s[..i] + sep + frames) + residue == s[..i] + sep + (frames + residue);
    assert s[..i] + s[i..i + |sep|] + s[i + |sep|..] == s;
  }

  lemma {:induction false} NoFrames(sep: seq<byte>, s: seq<byte>)
    ensures Frame([], sep) + s == s
  {
  }

  lemma {:induction false} FrameCons(m: seq<byte>, msgs: seq<seq<byte>>, sep: seq<byte>)
    ensures Frame([m] + msgs, sep) == m + sep + Frame(msgs, sep)
  {
    assert ([m] + msgs)[1..] == msgs;
  }

  /** Splitting and re-framing loses nothing: the frames and the residue are the input. */
  lemma {:induction false} SplitFrames(s: seq<byte>, sep: seq<byte>)
    requires sep != []
    ensures Frame(Split(s, sep), sep) + Residue(s, sep) == s
    decreases |s|
  {
    hide Find, Frame;
    if Find(s, sep).Some? {
      var i := Find(s, sep).value;
      var rest := s[i + |sep|..];
      SplitFrames(rest, sep);
      FrameCons(s[..i], Split(rest, sep), sep);
      Recompose(s, i, sep, Frame(Split(rest, sep), sep), Residue(rest, sep));
    } else {
      NoFrames(sep, s);
    }
  }

  /** A message survives framing when the separator is first seen at the message's own end. */
  predicate Frameable(m: seq<byte>, sep: seq<byte>) {
    Find(m + sep, sep) == Some(|m|)
  }

  lemma {:induction false} SplitFramedHead(m: seq<byte>, rest: seq<byte>, sep: seq<byte>)
    requires sep != []
    ensures var frames := Split(m + sep + rest, sep);
            if Frameable(m, sep) then frames == [m] + Split(rest, sep)
            else frames != [] && |frames[0]| < |m|
  {
    FindIsFirst(m + sep, sep, |m|);
    FindStable(m + sep, rest, sep);
    var i := Find(m + sep, sep).value;
    assert (m + sep + rest)[..|m|] == m;
    assert (m + sep + rest)[|m| + |sep|..] == rest;
    assert i <= |m|;
  }

  /** Splitting recovers the messages exactly when every one of them is frameable. */
  lemma {:induction false} SplitInvertsFrame(msgs: seq<seq<byte>>, sep: seq<byte>)
    requires sep != []
    ensures Split(Frame(msgs, sep), sep) == msgs <==> forall m :: m in msgs ==> Frameable(m, sep)
  {
    if msgs != [] {
      var m, rest := msgs[0], msgs[1..];
      SplitFramedHead(m, Frame(rest, sep), sep);
      SplitInvertsFrame(rest, sep);
      assert msgs == [m] + rest;
      if Frameable(m, sep) {
        assert Split(Frame(msgs, sep), sep) == [m] + Split(Frame(rest, sep), sep);
      } else {
        assert m in msgs;
      }
    }
  }

  /** A message without the separator's first byte is always frameable, whatever follows in the separator. */
  lemma {:induction false} FreeOfFirstByteIsFrameable(m: seq<byte>, sep: seq<byte>)
    requires sep != [] && sep[0] !in m
    ensures Frameable(m, sep)
  {
    FindIsFirst(m + sep, sep, |m|);
    var i := Find(m + sep, sep).value;
    assert (m + sep)[i..i + |sep|][0] == sep[0];
    assert (m + sep)[i] == sep[0];
  }
}
