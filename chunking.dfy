/**
 * How hash_check's read loop cuts a file into chunks: every read asks for
 * `read_blocks` bytes and gets `min(read_blocks, remaining)`; the loop ends
 * at the first empty read.
 */
module Chunking {

  /** `ceil(a / b)` of hash.py:497, on integers. */
  function CeilDiv(a: nat, b: nat): (r: nat)
    requires b > 0
    ensures r * b >= a
    ensures r == 0 || (r - 1) * b < a
  {
    (a + b - 1) / b
  }

  /** The non-empty chunks successive reads of `n` bytes return, in read order. */
  function Chunks(s: seq<bv8>, n: nat): seq<seq<bv8>>
    requires n > 0
    decreases |s|
  {
    if |s| == 0 then []
    else if |s| <= n then [s]
    else [s[..n]] + Chunks(s[n..], n)
  }

  /** All chunks joined in order. */
  function Concat(chunks: seq<seq<bv8>>): seq<bv8> {
    if chunks == [] then [] else chunks[0] + Concat(chunks[1..])
  }

  lemma {:induction false} ConcatAppend(a: seq<seq<bv8>>, b: seq<seq<bv8>>)
    ensures Concat(a + b) == Concat(a) + Concat(b)
  {
    if a != [] {
      assert (a + b)[1..] == a[1..] + b;
      ConcatAppend(a[1..], b);
    } else {
      assert a + b == b;
    }
  }

  /** Chunking loses and duplicates nothing: the chunks join back into the file. */
  lemma {:induction false} ChunksConcat(s: seq<bv8>, n: nat)
    requires n > 0
    ensures Concat(Chunks(s, n)) == s
    decreases |s|
  {
    if |s| > n {
      ChunksConcat(s[n..], n);
      assert s == s[..n] + s[n..];
    }
  }

  /** Every chunk holds between 1 and `n` bytes, and all but the last hold exactly `n`. */
  lemma {:induction false} ChunkSizes(s: seq<bv8>, n: nat)
    requires n > 0
    ensures forall i :: 0 <= i < |Chunks(s, n)| ==> 0 < |Chunks(s, n)[i]| <= n
    ensures forall i :: 0 <= i < |Chunks(s, n)| - 1 ==> |Chunks(s, n)[i]| == n
    decreases |s|
  {
    if |s| > n {
      ChunkSizes(s[n..], n);
      var c := Chunks(s, n);
      assert c == [s[..n]] + Chunks(s[n..], n);
      forall i | 0 < i < |c| ensures 0 < |c[i]| <= n && (i < |c| - 1 ==> |c[i]| == n) {
        assert c[i] == Chunks(s[n..], n)[i - 1];
      }
    }
  }

  /** The number of data-bearing reads is `ceil(|s| / n)`. */
  lemma {:induction false} ChunkCount(s: seq<bv8>, n: nat)
    requires n > 0
    ensures |Chunks(s, n)| == CeilDiv(|s|, n)
    decreases |s|
  {
    if |s| == 0 {
      CeilDivUnique(0, n, 0);
    } else if |s| <= n {
      CeilDivUnique(|s|, n, 1);
    } else {
      ChunkCount(s[n..], n);
      var r := CeilDiv(|s| - n, n);
      assert r * n + n == (r + 1) * n;
      assert r != 0;
      assert (r - 1) * n + n == r * n;
      CeilDivUnique(|s|, n, r + 1);
    }
  }

  /** The two properties in CeilDiv's contract determine it. */
  lemma CeilDivUnique(a: nat, b: nat, r: nat)
    requires b > 0
    requires r * b >= a && (r == 0 || (r - 1) * b < a)
    ensures r == CeilDiv(a, b)
  {
    var c := CeilDiv(a, b);
    if r < c {
      MulMonotone(r, c - 1, b);
    } else if c < r {
      MulMonotone(c, r - 1, b);
    }
  }

  lemma MulMonotone(x: nat, y: nat, b: nat)
    requires x <= y
    ensures x * b <= y * b
  {
  }

  /** Reading at `pos` returns the first chunk of what remains, and the chunks of the rest follow. */
  lemma NextChunk(s: seq<bv8>, n: nat, pos: nat)
    requires n > 0 && pos < |s|
    ensures var next := if pos + n <= |s| then pos + n else |s|;
      Chunks(s[pos..], n) == [s[pos..next]] + Chunks(s[next..], n)
  {
    var next := if pos + n <= |s| then pos + n else |s|;
    if pos + n < |s| {
      assert s[pos..][..n] == s[pos..next];
      assert s[pos..][n..] == s[next..];
    } else {
      assert s[pos..] == s[pos..next];
      assert s[next..] == [];
    }
  }

  /**
   * After reading up to `pos`: the chunks read so far are the first chunks of
   * `s`, the chunks of the rest follow them, and they join to `s[..pos]`.
   */
  ghost predicate ChunksSoFar(s: seq<bv8>, n: nat, pos: nat, chunks: seq<seq<bv8>>)
    requires n > 0
  {
    && pos <= |s|
    && chunks + Chunks(s[pos..], n) == Chunks(s, n)
    && Concat(chunks) == s[..pos]
  }

  /** One successful non-empty read keeps ChunksSoFar. */
  lemma Advance(s: seq<bv8>, n: nat, chunks: seq<seq<bv8>>, pos: nat)
    requires n > 0 && pos < |s|
    requires ChunksSoFar(s, n, pos, chunks)
    ensures var next := if pos + n <= |s| then pos + n else |s|;
      && ChunksSoFar(s, n, next, chunks + [s[pos..next]])
      && Concat(chunks + [s[pos..next]]) == Concat(chunks) + s[pos..next]
  {
    var next := if pos + n <= |s| then pos + n else |s|;
    NextChunk(s, n, pos);
    ConcatAppend(chunks, [s[pos..next]]);
    assert Concat([s[pos..next]]) == s[pos..next];
    assert s[..next] == s[..pos] + s[pos..next];
    assert chunks + [s[pos..next]] + Chunks(s[next..], n) == chunks + ([s[pos..next]] + Chunks(s[next..], n));
  }

  /** At the end of the file the chunks read are all of the file's chunks. */
  lemma AtEnd(s: seq<bv8>, n: nat, chunks: seq<seq<bv8>>, pos: nat)
    requires n > 0 && pos == |s|
    requires ChunksSoFar(s, n, pos, chunks)
    ensures chunks == Chunks(s, n) && Concat(chunks) == s
  {
    assert s[pos..] == [];
    assert chunks + [] == chunks;
    assert s[..pos] == s;
  }

  /** The chunks read so far are the first |chunks| of the file's chunks. */
  lemma SoFarIsPrefix(s: seq<bv8>, n: nat, chunks: seq<seq<bv8>>, pos: nat)
    requires n > 0
    requires ChunksSoFar(s, n, pos, chunks)
    ensures |chunks| <= |Chunks(s, n)| && Chunks(s, n)[..|chunks|] == chunks
  {
    assert (chunks + Chunks(s[pos..], n))[..|chunks|] == chunks;
  }
}
