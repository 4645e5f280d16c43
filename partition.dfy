/** How the body records are cut into output files.
    `Chunks` is the parallel strategy (`par_chunks_mut`): contiguous slices of
    m records, the last one shorter, none at all for an empty body.
    `Batches` is what the sequential strategy writes: one batch per call of
    `write_batch`, which stops only after a call that found fewer than m
    records, so an exact multiple of m ends with an empty batch. */
module Partition {

  function Min(a: int, b: int): (r: int) {
    if a <= b then a else b
  }

  function Max(a: int, b: int): (r: int) {
    if a <= b then b else a
  }

  /** The batches joined back together, in order. */
  function Flatten<T>(bss: seq<seq<T>>): (s: seq<T>) {
    if bss == [] then [] else bss[0] + Flatten(bss[1..])
  }

  /** `par_chunks_mut(m)`: contiguous slices of m records, the last one
      shorter; none for an empty body, and the first is the first m records. */
  function Chunks<T>(s: seq<T>, m: nat): (cs: seq<seq<T>>)
    requires m > 0
    ensures cs == [] <==> s == []
    ensures cs != [] ==> cs[0] == s[..Min(m, |s|)]
    decreases |s|
  {
    if s == [] then []
    else if |s| <= m then [s]
    else [s[..m]] + Chunks(s[m..], m)
  }

  /** One batch per `write_batch` call: full batches of m while at least m
      records remain, then the call that finds fewer than m (possibly none)
      and ends the loop. */
  function Batches<T>(s: seq<T>, m: nat): (bs: seq<seq<T>>)
    requires m > 0
    ensures |bs| >= 1
    decreases |s|
  {
    if |s| < m then [s] else [s[..m]] + Batches(s[m..], m)
  }

  lemma MulStep(k: int, m: int)
    ensures (k + 1) * m == k * m + m
  {
  }

  lemma MulLe(a: int, b: int, m: int)
    requires a <= b && m >= 0
    ensures a * m <= b * m
  {
    assert b * m - a * m == (b - a) * m;
  }

  lemma SliceOfSuffix<T>(s: seq<T>, k: nat, lo: nat, hi: nat)
    requires k <= |s| && lo <= hi <= |s| - k
    ensures s[k..][lo..hi] == s[k + lo .. k + hi]
  {
  }

  /** Quotient and remainder are determined by a == q * m + r with 0 <= r < m. */
  lemma DivModUnique(a: int, m: int, q: int, r: int)
    requires m > 0 && 0 <= r < m && a == q * m + r
    ensures a / m == q && a % m == r
  {
    var q', r' := a / m, a % m;
    assert a == q' * m + r';
    assert (q' - q) * m == q' * m - q * m;
    if q' > q {
      MulLe(1, q' - q, m);
    } else if q' < q {
      MulLe(1, q - q', m);
    }
  }

  lemma DivModShift(a: nat, m: nat)
    requires m > 0
    ensures (a + m) / m == a / m + 1
    ensures (a + m) % m == a % m
  {
    assert a + m == (a / m + 1) * m + a % m;
    DivModUnique(a + m, m, a / m + 1, a % m);
  }

  lemma {:induction false} FlattenAppend<T>(a: seq<seq<T>>, b: seq<seq<T>>)
    ensures Flatten(a + b) == Flatten(a) + Flatten(b)
    decreases |a|
  {
    if a == [] {
      assert a + b == b;
    } else {
      assert (a + b)[0] == a[0];
      assert (a + b)[1..] == a[1..] + b;
      FlattenAppend(a[1..], b);
    }
  }

  /** The chunks put back together are the body: nothing lost, repeated or reordered. */
  lemma {:induction false} ChunksFlatten<T>(s: seq<T>, m: nat)
    requires m > 0
    ensures Flatten(Chunks(s, m)) == s
    decreases |s|
  {
    if s != [] && |s| > m {
      ChunksFlatten(s[m..], m);
      assert s[..m] + s[m..] == s;
    }
  }

  /** There are ceil(|s| / m) chunks, so none for an empty body. */
  lemma {:induction false} ChunksCount<T>(s: seq<T>, m: nat)
    requires m > 0
    ensures |Chunks(s, m)| == (|s| + m - 1) / m
    decreases |s|
  {
    if s == [] {
      DivModUnique(m - 1, m, 0, m - 1);
    } else if |s| <= m {
      DivModUnique(|s| + m - 1, m, 1, |s| - 1);
    } else {
      ChunksCount(s[m..], m);
      DivModShift(|s| - 1, m);
    }
  }

  /** Chunk i (from 0) is the slice [i*m, min((i+1)*m, |s|)) of the body. */
  lemma {:induction false} ChunkAt<T>(s: seq<T>, m: nat, i: nat)
    requires m > 0
    requires i < |Chunks(s, m)|
    ensures 0 <= i * m < Min((i + 1) * m, |s|) <= |s|
    ensures Chunks(s, m)[i] == s[i * m .. Min((i + 1) * m, |s|)]
    decreases |s|
  {
    MulStep(i, m);
    if i > 0 {
      var lo, hi := (i - 1) * m, Min(i * m, |s| - m);
      ChunkAt(s[m..], m, i - 1);
      MulStep(i - 1, m);
      assert lo + m == i * m;
      assert hi + m == Min((i + 1) * m, |s|);
      SliceOfSuffix(s, m, lo, hi);
    }
  }

  /** Where chunk i ends: a full m records after its start, except for the last chunk. */
  lemma ChunkBounds(len: nat, m: nat, i: nat)
    requires m > 0 && i < (len + m - 1) / m
    ensures i < (len + m - 1) / m - 1 ==> Min((i + 1) * m, len) == i * m + m
    ensures Min((i + 1) * m, len) <= i * m + m
  {
    MulStep(i, m);
    if i < (len + m - 1) / m - 1 {
      var q := (len + m - 1) / m;
      assert q * m <= len + m - 1;
      MulLe(i + 2, q, m);
      MulStep(i + 1, m);
    }
  }

  /** Every chunk but the last holds exactly m records; the last holds 1 to m. */
  lemma ChunkSizes<T>(s: seq<T>, m: nat, i: nat)
    requires m > 0
    requires i < |Chunks(s, m)|
    ensures i < |Chunks(s, m)| - 1 ==> |Chunks(s, m)[i]| == m
    ensures 0 < |Chunks(s, m)[i]| <= m
  {
    ChunkAt(s, m, i);
    ChunksCount(s, m);
    ChunkBounds(|s|, m, i);
  }

  /** Cutting the chunk [start, end) off the front of s[start..], after the
      chunks already cut. */
  lemma ChunksStep<T>(s: seq<T>, done: seq<seq<T>>, start: nat, end: nat, m: nat)
    requires m > 0 && start < |s| && end == Min(start + m, |s|)
    requires Chunks(s, m) == done + Chunks(s[start..], m)
    ensures Chunks(s, m) == done + [s[start..end]] + Chunks(s[end..], m)
  {
    var r := s[start..];
    if |r| > m {
      assert r[..m] == s[start..end];
      assert r[m..] == s[end..];
    } else {
      assert r == s[start..end];
      assert s[end..] == [];
    }
    assert Chunks(r, m) == [s[start..end]] + Chunks(s[end..], m);
  }

  /** The last batch, from the call that ends the loop, holds fewer than m
      records; every earlier one holds exactly m. */
  lemma {:induction false} BatchesLastShort<T>(s: seq<T>, m: nat)
    requires m > 0
    ensures |Batches(s, m)[|Batches(s, m)| - 1]| < m
    ensures forall i :: 0 <= i < |Batches(s, m)| - 1 ==> |Batches(s, m)[i]| == m
    decreases |s|
  {
    if |s| >= m {
      BatchesLastShort(s[m..], m);
    }
  }

  /** The sequential batches put back together are the body. */
  lemma {:induction false} BatchesFlatten<T>(s: seq<T>, m: nat)
    requires m > 0
    ensures Flatten(Batches(s, m)) == s
    decreases |s|
  {
    if |s| >= m {
      BatchesFlatten(s[m..], m);
      assert s[..m] + s[m..] == s;
    }
  }

  /** The sequential strategy writes |s| / m + 1 batches. */
  lemma {:induction false} BatchesCount<T>(s: seq<T>, m: nat)
    requires m > 0
    ensures |Batches(s, m)| == |s| / m + 1
    decreases |s|
  {
    if |s| >= m {
      BatchesCount(s[m..], m);
      DivModShift(|s| - m, m);
    }
  }

  /** Batch i (from 0) is the slice [i*m, min((i+1)*m, |s|)) of the body; the
      last one starts at |s| / m * m and may be empty. */
  lemma {:induction false} BatchAt<T>(s: seq<T>, m: nat, i: nat)
    requires m > 0
    requires i < |Batches(s, m)|
    ensures 0 <= i * m <= Min((i + 1) * m, |s|) <= |s|
    ensures Batches(s, m)[i] == s[i * m .. Min((i + 1) * m, |s|)]
    decreases |s|
  {
    MulStep(i, m);
    if i > 0 {
      var lo, hi := (i - 1) * m, Min(i * m, |s| - m);
      BatchAt(s[m..], m, i - 1);
      MulStep(i - 1, m);
      assert lo + m == i * m;
      assert hi + m == Min((i + 1) * m, |s|);
      SliceOfSuffix(s, m, lo, hi);
    }
  }

  /** The sequential batches are the chunks, plus one empty batch exactly
      when the body length is a multiple of m (zero included). */
  lemma {:induction false} BatchesAreChunks<T>(s: seq<T>, m: nat)
    requires m > 0
    ensures Batches(s, m) == Chunks(s, m) + (if |s| % m == 0 then [[]] else [])
    decreases |s|
  {
    if |s| >= m {
      BatchesAreChunks(s[m..], m);
      DivModShift(|s| - m, m);
      if |s| == m {
        assert s[m..] == [];
        assert s[..m] == s;
      }
    } else if s != [] {
      assert |s| % m == |s|;
    }
  }

  /** Where batch i ends: a full m records after its start for i < len / m;
      the end of the body, |len| mod m records after its start, for i = len / m. */
  lemma BatchBounds(len: nat, m: nat, i: nat)
    requires m > 0 && i <= len / m
    ensures i < len / m ==> Min((i + 1) * m, len) == i * m + m
    ensures i == len / m ==> Min((i + 1) * m, len) == len && len - i * m == len % m
  {
    var q, r := len / m, len % m;
    assert len == q * m + r;
    MulStep(i, m);
    if i < q {
      MulLe(i + 1, q, m);
    }
  }

  /** Batches 0 .. |s|/m - 1 are full; the last holds |s| mod m records, so it
      is empty exactly when m divides |s|. */
  lemma BatchSizes<T>(s: seq<T>, m: nat, i: nat)
    requires m > 0
    requires i < |Batches(s, m)|
    ensures i < |s| / m ==> |Batches(s, m)[i]| == m
    ensures i == |s| / m ==> |Batches(s, m)[i]| == |s| % m
  {
    BatchAt(s, m, i);
    BatchesCount(s, m);
    BatchBounds(|s|, m, i);
  }
}
