/**
 * The chunk planner of compress_file: from the input size and the requested
 * thread count it chooses a chunk size (with a 64 KiB floor) and a chunk
 * count, then reads the input into consecutive chunks of that size, the last
 * one clipped.
 */
module Planner {
  import opened Bytes
  import opened Streams

  /** The minimum chunk size, 64 KiB. */
  const MIN_CHUNK: nat := 64 * 1024

  /** The range of the C++ `int` holding the thread count. */
  const INT_MAX: int := 0x7fff_ffff

  function Min(a: nat, b: nat): nat
  {
    if a < b then a else b
  }

  function Max(a: int, b: int): int
  {
    if a < b then b else a
  }

  /** Division rounding up, as `(a + b - 1) / b` computes it. */
  function CeilDiv(a: nat, b: nat): nat
    requires b > 0
  {
    (a + b - 1) / b
  }

  /** `CeilDiv(a, b)` is the least `c` with `a <= b * c`. */
  lemma CeilDivLeast(a: nat, b: nat, c: nat)
    requires b > 0
    ensures CeilDiv(a, b) <= c <==> a <= b * c
  {
    var q, r := (a + b - 1) / b, (a + b - 1) % b;
    assert a + b - 1 == b * q + r && 0 <= r < b;
    if q <= c {
      assert b * q <= b * c by { MulMonotone(b, q, c); }
    } else {
      assert b * (c + 1) <= b * q by { MulMonotone(b, c + 1, q); }
    }
  }

  lemma MulMonotone(b: nat, x: nat, y: nat)
    requires x <= y
    ensures b * x <= b * y
  {
  }

  /** Chunk `i` starts inside the input exactly when `i` is below the chunk count. */
  lemma StartInsideIff(n: nat, k: nat, i: nat)
    requires k > 0
    ensures i * k < n <==> i < CeilDiv(n, k)
  {
    CeilDivLeast(n, k, i);
    assert k * i == i * k;
  }

  /** The chunk size and the thread count compress_file settles on. */
  datatype Layout = Layout(idealChunk: nat, nthreads: nat)

  /**
   * `ideal_chunk` is the input size over the thread count, rounded up; below
   * the floor it becomes the floor (or the whole input, when smaller) and the
   * thread count is recomputed from it.
   */
  function ChunkLayout(totalSize: nat, threadsRequested: int): (l: Layout)
    requires totalSize > 0
    ensures 0 < l.idealChunk && 1 <= l.nthreads
  {
    var nthreads := Max(1, threadsRequested);
    var idealChunk := CeilDiv(totalSize, nthreads);
    if idealChunk < MIN_CHUNK then
      var floored := Min(MIN_CHUNK, totalSize);
      Layout(floored, Max(1, CeilDiv(totalSize, floored)))
    else
      Layout(idealChunk, nthreads)
  }

  /** The inputs on which the source's integer arithmetic does not overflow. */
  ghost predicate InRange(totalSize: nat, threadsRequested: int)
  {
    threadsRequested <= INT_MAX && totalSize + Max(1, threadsRequested) - 1 < TWO_TO_THE_64
  }

  /** The input cut into consecutive pieces of `k` bytes, the last one clipped. */
  function Split(data: seq<byte>, k: nat): (pieces: seq<seq<byte>>)
    requires k > 0
    ensures |pieces| <= |data| && (pieces == [] <==> data == [])
    decreases |data|
  {
    if |data| == 0 then []
    else if |data| <= k then [data]
    else [data[..k]] + Split(data[k..], k)
  }

  /** `c` is `CeilDiv(a, b)` when `b * c` reaches `a` and `b * (c - 1)` does not. */
  lemma CeilDivUnique(a: nat, b: nat, c: nat)
    requires b > 0 && a <= b * c && (c == 0 || b * (c - 1) < a)
    ensures CeilDiv(a, b) == c
  {
    CeilDivLeast(a, b, c);
    if c > 0 {
      CeilDivLeast(a, b, c - 1);
    }
  }

  /** `k` times the piece count reaches the input size, and one piece fewer does not. */
  lemma SplitCountBounds(data: seq<byte>, k: nat)
    requires k > 0
    ensures |data| <= k * |Split(data, k)|
    ensures |Split(data, k)| == 0 || k * (|Split(data, k)| - 1) < |data|
  {
    var n := |Split(data, k)|;
    SplitCountOffsets(data, k);
    OffsetIsProduct(n, k);
    if n > 0 {
      OffsetIsProduct(n - 1, k);
    }
  }

  /** The pieces, `k` bytes each, reach the end of the input; one piece fewer does not. */
  lemma {:induction false} SplitCountOffsets(data: seq<byte>, k: nat)
    requires k > 0
    ensures |data| <= Offset(|Split(data, k)|, k)
    ensures |Split(data, k)| == 0 || Offset(|Split(data, k)| - 1, k) < |data|
    decreases |data|
  {
    if |data| > k {
      SplitCountOffsets(data[k..], k);
      var m := |Split(data[k..], k)|;
      assert |Split(data, k)| == m + 1;
      assert Offset(m + 1, k) == Offset(m, k) + k;
      if m > 0 {
        assert Offset(m, k) == Offset(m - 1, k) + k;
      }
    }
  }

  /** There are `ceil(|data| / k)` pieces. */
  lemma SplitCount(data: seq<byte>, k: nat)
    requires k > 0
    ensures |Split(data, k)| == CeilDiv(|data|, k)
  {
    SplitCountBounds(data, k);
    CeilDivUnique(|data|, k, |Split(data, k)|);
  }

  /** Piece `i` is the range `[i*k, min(i*k + k, |data|))` of the input. */
  lemma SplitPiece(data: seq<byte>, k: nat, i: nat)
    requires k > 0 && i < |Split(data, k)|
    ensures i * k < |data|
    ensures Split(data, k)[i] == data[i * k .. Min(i * k + k, |data|)]
  {
    SplitPieceAt(data, k, i);
    OffsetIsProduct(i, k);
  }

  /** `i` steps of `k`, added up one at a time as the planning loop advances. */
  function Offset(i: nat, k: nat): nat
  {
    if i == 0 then 0 else Offset(i - 1, k) + k
  }

  lemma {:induction false} OffsetIsProduct(i: nat, k: nat)
    ensures Offset(i, k) == i * k
  {
    if i > 0 {
      OffsetIsProduct(i - 1, k);
      assert i * k == (i - 1) * k + k;
    }
  }

  /** Piece `i` starts `i` steps of `k` into the input. */
  lemma {:induction false} SplitPieceAt(data: seq<byte>, k: nat, i: nat)
    requires k > 0 && i < |Split(data, k)|
    ensures Offset(i, k) < |data|
    ensures Split(data, k)[i] == data[Offset(i, k) .. Min(Offset(i, k) + k, |data|)]
    decreases i
  {
    if i == 0 {
      SplitHead(data, k);
    } else {
      SplitTail(data, k, i);
      var rest := data[k..];
      SplitPieceAt(rest, k, i - 1);
      var j := Offset(i - 1, k);
      var e := Min(j + k, |rest|);
      assert Offset(i, k) == j + k && Min(j + k + k, |data|) == e + k;
      DropSlice(data, k, j, e);
    }
  }

  /** The first piece is the first chunk's worth of the input, or all of it. */
  lemma SplitHead(data: seq<byte>, k: nat)
    requires k > 0 && 0 < |Split(data, k)|
    ensures 0 < |data| && Split(data, k)[0] == data[0 .. Min(k, |data|)]
  {
    if |data| <= k {
      assert data[0 .. |data|] == data;
    }
  }

  /** Piece `i > 0` of the input is piece `i - 1` of what follows the first piece. */
  lemma SplitTail(data: seq<byte>, k: nat, i: nat)
    requires k > 0 && 0 < i < |Split(data, k)|
    ensures k < |data| && i - 1 < |Split(data[k..], k)|
    ensures Split(data, k)[i] == Split(data[k..], k)[i - 1]
  {
    assert Split(data, k) == [data[..k]] + Split(data[k..], k);
  }

  /** A range of the input after its first `k` bytes is the range `k` further on. */
  lemma DropSlice(data: seq<byte>, k: nat, j: nat, e: nat)
    requires k <= |data| && j <= e <= |data| - k
    ensures data[k..][j .. e] == data[j + k .. e + k]
  {
    assert forall t :: 0 <= t < e - j ==> data[k..][j .. e][t] == data[j + k .. e + k][t];
  }

  /** Putting the pieces back together gives the input. */
  lemma {:induction false} SplitFlatten(data: seq<byte>, k: nat)
    requires k > 0
    ensures Flatten(Split(data, k)) == data
    decreases |data|
  {
    if |data| > k {
      SplitFlatten(data[k..], k);
      assert Flatten(Split(data, k)) == data[..k] + Flatten(Split(data[k..], k));
    } else if |data| > 0 {
      assert Flatten([data]) == data + Flatten([]);
    }
  }

  /** Every piece is non-empty and at most `k` bytes; all but the last are exactly `k`. */
  lemma SplitLengths(data: seq<byte>, k: nat, i: nat)
    requires k > 0 && i < |Split(data, k)|
    ensures 0 < |Split(data, k)[i]| <= k
    ensures i < |Split(data, k)| - 1 ==> |Split(data, k)[i]| == k
  {
    SplitPieceAt(data, k, i);
    if i < |Split(data, k)| - 1 {
      SplitPieceAt(data, k, i + 1);
      assert Offset(i + 1, k) == Offset(i, k) + k;
    }
  }

  /**
   * The layout never plans more chunks than threads: `nthreads` chunks of
   * `idealChunk` bytes cover the input, and at most `max(1, threadsRequested)`
   * chunks are planned. The chunk size is at least the floor or the whole input.
   */
  lemma LayoutBounds(totalSize: nat, threadsRequested: int)
    requires totalSize > 0
    ensures var l := ChunkLayout(totalSize, threadsRequested);
            l.idealChunk > 0 &&
            l.idealChunk >= Min(MIN_CHUNK, totalSize) &&
            1 <= CeilDiv(totalSize, l.idealChunk) <= l.nthreads <= Max(1, threadsRequested)
  {
    var n := Max(1, threadsRequested);
    var ideal := CeilDiv(totalSize, n);
    CeilDivLeast(totalSize, n, ideal);
    CeilDivLeast(totalSize, n, 0);
    var l := ChunkLayout(totalSize, threadsRequested);
    CeilDivLeast(totalSize, l.idealChunk, 0);
    if ideal < MIN_CHUNK {
      var floored := Min(MIN_CHUNK, totalSize);
      if floored == MIN_CHUNK {
        // totalSize <= n * ideal <= n * (MIN_CHUNK - 1) < MIN_CHUNK * n
        MulMonotone(n, ideal, MIN_CHUNK - 1);
        CeilDivLeast(totalSize, MIN_CHUNK, n);
      } else {
        CeilDivLeast(totalSize, totalSize, 1);
      }
    } else {
      CeilDivLeast(totalSize, ideal, n);
    }
  }

  /**
   * The floor rule: when the per-thread share is below 64 KiB, the chunk size
   * becomes `min(64 KiB, totalSize)` and the count `ceil(totalSize / chunk)`.
   */
  lemma FloorRule(totalSize: nat, threadsRequested: int)
    requires totalSize > 0
    requires CeilDiv(totalSize, Max(1, threadsRequested)) < MIN_CHUNK
    ensures ChunkLayout(totalSize, threadsRequested) ==
              Layout(Min(MIN_CHUNK, totalSize), CeilDiv(totalSize, Min(MIN_CHUNK, totalSize)))
  {
    CeilDivLeast(totalSize, Min(MIN_CHUNK, totalSize), 0);
  }

  /**
   * One step of the planning loop: chunk `i` starts at `i * k`, inside the
   * input, and is `min(k, remaining)` bytes long; unless it is the last
   * chunk, the next one starts right after it.
   */
  lemma PlanStep(data: seq<byte>, k: nat, i: nat)
    requires k > 0 && i * k < |data|
    ensures i < |Split(data, k)|
    ensures Split(data, k)[i] == data[i * k .. i * k + Min(k, |data| - i * k)]
    ensures i + 1 < |Split(data, k)| ==> i * k + Min(k, |data| - i * k) == (i + 1) * k
  {
    var start := i * k;
    SplitStartInside(data, k, i);
    SplitPiece(data, k, i);
    assert Min(start + k, |data|) == start + Min(k, |data| - start);
    if i + 1 < |Split(data, k)| {
      SplitPiece(data, k, i + 1);
      assert (i + 1) * k == start + k;
    }
  }

  /** A chunk that starts inside the input is one of the pieces. */
  lemma {:induction false} SplitStartInside(data: seq<byte>, k: nat, i: nat)
    requires k > 0 && i * k < |data|
    ensures i < |Split(data, k)|
    decreases i
  {
    if i > 0 {
      var j := (i - 1) * k;
      assert j + k == i * k;
      SplitStartInside(data[k..], k, i - 1);
    }
  }

  /**
   * The planning block of compress_file: chooses the layout, then reads the
   * input into the chunks it plans.
   */
  method ReadChunks(input: seq<byte>, threadsRequested: int) returns (chunks: seq<seq<byte>>, origSizes: seq<nat>)
    requires |input| > 0 && InRange(|input|, threadsRequested)
    ensures chunks == Split(input, ChunkLayout(|input|, threadsRequested).idealChunk)
    ensures |origSizes| == |chunks| && forall i :: 0 <= i < |chunks| ==> origSizes[i] == |chunks[i]|
  {
    var totalSize := |input|;
    var inp := new InStream(input);
    var layout := ChunkLayout(totalSize, threadsRequested);
    LayoutBounds(totalSize, threadsRequested);
    SplitCount(input, layout.idealChunk);
    chunks, origSizes := ReadPlanned(inp, totalSize, layout.idealChunk, layout.nthreads);
  }

  /**
   * The chunk loop: fills `nthreads` slots, reading chunk `i` from offset
   * `i * idealChunk`, and shrinks both lists as soon as a chunk would start at
   * or past the end of the input.
   */
  method ReadPlanned(inp: InStream, totalSize: nat, idealChunk: nat, nthreads: nat)
    returns (chunks: seq<seq<byte>>, origSizes: seq<nat>)
    requires inp.Valid() && inp.pos == 0 && totalSize == |inp.data|
    requires idealChunk > 0 && |Split(inp.data, idealChunk)| <= nthreads
    modifies inp
    ensures chunks == Split(inp.data, idealChunk)
    ensures |origSizes| == |chunks| && forall i :: 0 <= i < |chunks| ==> origSizes[i] == |chunks[i]|
  {
    ghost var pieces := Split(inp.data, idealChunk);
    chunks := seq(nthreads, _ => []);
    origSizes := seq(nthreads, _ => 0);
    var i := 0;
    while i < nthreads
      invariant 0 <= i <= |pieces|
      invariant |chunks| == |origSizes| == nthreads
      invariant forall j :: 0 <= j < i ==> chunks[j] == pieces[j] && origSizes[j] == |pieces[j]|
      invariant inp.Valid()
      invariant i < |pieces| ==> inp.pos == i * idealChunk
    {
      var start := i * idealChunk;
      if start >= totalSize {
        StartInsideIff(totalSize, idealChunk, i);
        SplitCount(inp.data, idealChunk);
        chunks, origSizes := chunks[..i], origSizes[..i];
        break;
      }
      PlanStep(inp.data, idealChunk, i);
      var remain := totalSize - start;
      var sz := Min(idealChunk, remain);
      origSizes := origSizes[i := sz];
      var _, got := inp.Read(sz);
      assert got == pieces[i] && sz == |pieces[i]|;
      chunks := chunks[i := got];
      i := i + 1;
    }
  }

  /**
   * A 200000-byte input with 4 threads requested: the per-thread share of
   * 50000 bytes is below the floor, so the input is cut into four chunks of
   * 65536, 65536, 65536 and 3392 bytes.
   */
  lemma FourChunksOf200000(data: seq<byte>)
    requires |data| == 200000
    ensures ChunkLayout(|data|, 4) == Layout(MIN_CHUNK, 4)
    ensures var pieces := Split(data, MIN_CHUNK);
            |pieces| == 4 && |pieces[0]| == |pieces[1]| == |pieces[2]| == MIN_CHUNK && |pieces[3]| == 3392
  {
    assert CeilDiv(200000, 4) == 50000;
    assert CeilDiv(200000, MIN_CHUNK) == 4;
    SplitCount(data, MIN_CHUNK);
    SplitLengths(data, MIN_CHUNK, 0);
    SplitLengths(data, MIN_CHUNK, 1);
    SplitLengths(data, MIN_CHUNK, 2);
    SplitPiece(data, MIN_CHUNK, 3);
  }

  /** An input no larger than the floor is one chunk, whatever the thread count. */
  lemma SmallInputOneChunk(data: seq<byte>, threadsRequested: int)
    requires 0 < |data| <= MIN_CHUNK
    ensures ChunkLayout(|data|, threadsRequested) == Layout(|data|, 1)
    ensures Split(data, |data|) == [data]
  {
    var t := |data|;
    var n := Max(1, threadsRequested);
    assert t <= n * t by { MulMonotone(t, 1, n); }
    CeilDivLeast(t, n, t);
    CeilDivUnique(t, t, 1);
    if CeilDiv(t, n) < MIN_CHUNK {
      assert Min(MIN_CHUNK, t) == t;
    } else {
      assert t == MIN_CHUNK && CeilDiv(t, n) == t;
      CeilDivLeast(t, n, t - 1);
    }
  }
}
