/** Bytes, optional values and flattened chunk lists: the vocabulary every other module shares. */
module Bytes {

  newtype byte = x: int | 0 <= x < 256

  datatype Option<+T> = None | Some(value: T)

  function Min(a: int, b: int): int {
    if a <= b then a else b
  }

  /** The one sequence a list of chunks stands for. */
  function Flatten<T>(chunks: seq<seq<T>>): seq<T> {
    if chunks == [] then [] else chunks[0] + Flatten(chunks[1..])
  }

  lemma {:induction false} FlattenHead<T>(chunks: seq<seq<T>>)
    requires chunks != []
    ensures |Flatten(chunks)| == |chunks[0]| + |Flatten(chunks[1..])|
  {
  }

  lemma {:induction false} FlattenConcat<T>(a: seq<seq<T>>, b: seq<seq<T>>)
    ensures Flatten(a + b) == Flatten(a) + Flatten(b)
  {
    if a == [] {
      assert a + b == b;
    } else {
      assert (a + b)[1..] == a[1..] + b;
      FlattenConcat(a[1..], b);
    }
  }

  lemma {:induction false} FlattenSnoc<T>(a: seq<seq<T>>, x: seq<T>)
    ensures Flatten(a + [x]) == Flatten(a) + x
  {
    FlattenConcat(a, [x]);
    assert Flatten([x]) == x + Flatten<T>([]);
  }

  /** Where chunk `k` begins in the flattened sequence. */
  function Start<T>(chunks: seq<seq<T>>, k: nat): nat
    requires k <= |chunks|
  {
    |Flatten(chunks[..k])|
  }

  lemma {:induction false} StartZero<T>(chunks: seq<seq<T>>)
    ensures Start(chunks, 0) == 0
  {
    assert chunks[..0] == [];
  }

  lemma {:induction false} StartTail<T>(chunks: seq<seq<T>>, k: nat)
    requires 0 < k <= |chunks|
    ensures Start(chunks, k) == |chunks[0]| + Start(chunks[1..], k - 1)
  {
    assert chunks[..k][0] == chunks[0] && chunks[..k][1..] == chunks[1..][..k - 1];
  }

  lemma {:induction false} StartFull<T>(chunks: seq<seq<T>>)
    ensures Start(chunks, |chunks|) == |Flatten(chunks)|
  {
    assert chunks[..|chunks|] == chunks;
  }

  lemma {:induction false} StartStep<T>(chunks: seq<seq<T>>, k: nat)
    requires k < |chunks|
    ensures Start(chunks, k + 1) == Start(chunks, k) + |chunks[k]|
    ensures Start(chunks, k + 1) <= |Flatten(chunks)|
    ensures Flatten(chunks)[Start(chunks, k)..Start(chunks, k + 1)] == chunks[k]
  {
    assert chunks[..k + 1] == chunks[..k] + [chunks[k]];
    FlattenSnoc(chunks[..k], chunks[k]);
    assert chunks == chunks[..k + 1] + chunks[k + 1..];
    FlattenConcat(chunks[..k + 1], chunks[k + 1..]);
  }

  lemma {:induction false} StartEnd<T>(chunks: seq<seq<T>>, k: nat)
    requires k <= |chunks|
    ensures Start(chunks, k) + |Flatten(chunks[k..])| == |Flatten(chunks)|
    ensures Flatten(chunks)[Start(chunks, k)..] == Flatten(chunks[k..])
  {
    assert chunks == chunks[..k] + chunks[k..];
    FlattenConcat(chunks[..k], chunks[k..]);
  }

  lemma {:induction false} Reassociate<T>(a: seq<T>, b: seq<T>, c: seq<T>, d: seq<T>, e: seq<T>, f: seq<T>, g: seq<T>)
    requires a + b == c + d && d + e == f + g
    ensures a + (b + e) == (c + f) + g
  {
    assert a + (b + e) == (a + b) + e;
    assert (c + d) + e == c + (d + e);
    assert c + (f + g) == (c + f) + g;
  }

  lemma {:induction false} DropOne<T>(a: seq<T>, j: nat)
    requires j < |a|
    ensures a[j..][1..] == a[j + 1..] && a[j..][0] == a[j]
  {
  }

  /** Comparing `n + k` elements is comparing `n` and then the next `k`. */
  lemma {:induction false} CompareSplit<T>(a: seq<T>, i: nat, b: seq<T>, n: nat, k: nat)
    requires i + n + k <= |a| && n + k <= |b|
    ensures a[i..i + n + k] == b[..n + k] <==> a[i..i + n] == b[..n] && a[i + n..i + n + k] == b[n..n + k]
  {
    assert a[i..i + n + k] == a[i..i + n] + a[i + n..i + n + k];
    assert b[..n + k] == b[..n] + b[n..n + k];
  }

  /** Equal stretches are equal segment by segment. */
  lemma {:induction false} CompareSegment<T>(a: seq<T>, i: nat, b: seq<T>, r: nat, n: nat, k: nat)
    requires i + r <= |a| && r <= |b| && n + k <= r && a[i..i + r] == b[..r]
    ensures a[i + n..i + n + k] == b[n..n + k]
  {
    CompareSplit(a, i, b, n + k, r - n - k);
    CompareSplit(a, i, b, n, k);
  }

  lemma {:induction false} SliceJoin<T>(a: seq<T>, i: nat, j: nat, k: nat)
    requires i <= j <= k <= |a|
    ensures a[i..j] + a[j..k] == a[i..k]
  {
  }

  /** Slicing behind a dropped prefix. */
  lemma {:induction false} SliceOfDrop<T>(a: seq<T>, d: nat, i: nat, j: nat)
    requires d + i <= d + j <= |a|
    ensures a[d..][i..j] == a[d + i..d + j] && a[d..][..j] == a[d..d + j] && a[d..][j..] == a[d + j..]
  {
  }

  /** Comparing `n` elements behind a dropped prefix is comparing the first `l` of them and then the others. */
  lemma {:induction false} CompareBehind<T>(a: seq<T>, d: nat, i: nat, b: seq<T>, l: nat, n: nat)
    requires l <= n <= |b| && d + i + n <= |a|
    ensures a[d + i..d + i + n] == b[..n] <==> a[d..][i..i + l] == b[..l] && a[d..][i + l..i + n] == b[l..n]
  {
    CompareSplit(a, d + i, b, l, n - l);
    SliceOfDrop(a, d, i, i + l);
    SliceOfDrop(a, d, i + l, i + n);
  }

  /** A slice of a chunk is a slice of the flattened sequence. */
  lemma {:induction false} ChunkSlice<T>(chunks: seq<seq<T>>, k: nat, i: nat, j: nat)
    requires k < |chunks| && i <= j <= |chunks[k]|
    ensures Start(chunks, k) + j <= |Flatten(chunks)|
    ensures chunks[k][i..j] == Flatten(chunks)[Start(chunks, k) + i..Start(chunks, k) + j]
  {
    StartStep(chunks, k);
    var all, s := Flatten(chunks), Start(chunks, k);
    SliceOfDrop(all, s, i, j);
    SliceOfDrop(all, s, 0, |chunks[k]|);
    assert all[s..][..|chunks[k]|][i..j] == all[s..][i..j];
  }

  /** Appending a slice of chunk `k` to the slice of the flattened sequence that ends where it begins. */
  lemma {:induction false} ChunkJoin<T>(chunks: seq<seq<T>>, from: nat, k: nat, i: nat, j: nat)
    requires k < |chunks| && i <= j <= |chunks[k]| && from <= Start(chunks, k) + i
    ensures Start(chunks, k) + j <= |Flatten(chunks)|
    ensures Flatten(chunks)[from..Start(chunks, k) + i] + chunks[k][i..j] == Flatten(chunks)[from..Start(chunks, k) + j]
    ensures Start(chunks, k + 1) == Start(chunks, k) + |chunks[k]|
  {
    StartStep(chunks, k);
    ChunkSlice(chunks, k, i, j);
    SliceJoin(Flatten(chunks), from, Start(chunks, k) + i, Start(chunks, k) + j);
  }
}
