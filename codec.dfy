/**
 * The per-chunk codec: compress_chunk and decompress_chunk around zlib's
 * one-shot calls. zlib itself (compressBound, compress2, uncompress) is a
 * parameter of the model, a value of type Zlib, and what the compressor relies
 * on from it is the predicate Lawful.
 */
module Codec {
  import opened Bytes

  const Z_OK: int := 0
  const Z_BUF_ERROR: int := -5
  const Z_MEM_ERROR: int := -4
  const Z_BEST_COMPRESSION: int := 9

  /**
   * What a one-shot zlib call leaves behind: its status, the length it stores
   * through its `destLen` pointer, and the whole destination buffer (whose
   * size the caller chose before the call).
   */
  datatype ZOut = ZOut(status: int, destLen: nat, dest: seq<byte>)

  /**
   * zlib's entry points. `compress2(src, capacity, level)` and
   * `uncompress(src, capacity)` take the destination capacity the caller
   * allocated.
   */
  datatype Zlib = Zlib(
    compressBound: u64 -> u64,
    compress2: (seq<byte>, u64, int) -> ZOut,
    uncompress: (seq<byte>, u64) -> ZOut)

  /**
   * The contract of zlib that the compressor depends on: the calls write into
   * a buffer of the capacity they are given and report at most that many
   * bytes, and uncompressing what compress2 produced into a buffer of the
   * original size gives the original bytes back.
   */
  ghost predicate Lawful(z: Zlib)
  {
    (forall src, cap, level ::
       |z.compress2(src, cap, level).dest| == cap &&
       (z.compress2(src, cap, level).status == Z_OK ==> z.compress2(src, cap, level).destLen <= cap)) &&
    (forall src, cap ::
       |z.uncompress(src, cap).dest| == cap &&
       (z.uncompress(src, cap).status == Z_OK ==> z.uncompress(src, cap).destLen <= cap)) &&
    (forall raw: seq<byte>, level | |raw| < TWO_TO_THE_64 ::
       var r := z.compress2(raw, z.compressBound(|raw|), level);
       r.status == Z_OK ==>
         z.uncompress(r.dest[..r.destLen], |raw|) == ZOut(Z_OK, |raw|, raw))
  }

  /** A result slot: whether the call succeeded, and the buffer it left. */
  datatype Slot = Slot(ok: bool, buf: seq<byte>)

  /**
   * What compress_chunk returns and leaves in its output buffer: the buffer is
   * sized to compressBound before the call and trimmed to the bytes produced
   * only on success.
   */
  function Deflate(z: Zlib, raw: seq<byte>, level: int): (s: Slot)
    requires Lawful(z) && |raw| < TWO_TO_THE_64
    ensures s.ok ==> |s.buf| <= z.compressBound(|raw|)
    ensures !s.ok ==> |s.buf| == z.compressBound(|raw|)
  {
    var r := z.compress2(raw, z.compressBound(|raw|), level);
    if r.status != Z_OK then Slot(false, r.dest) else Slot(true, r.dest[..r.destLen])
  }

  /**
   * What decompress_chunk returns and leaves in its output buffer: the buffer
   * is sized to the expected size before the call and is never resized, so it
   * holds exactly that many bytes whether or not the call succeeded.
   */
  function Inflate(z: Zlib, compressed: seq<byte>, expected: u64): (s: Slot)
    requires Lawful(z)
    ensures |s.buf| == expected
  {
    var r := z.uncompress(compressed, expected);
    Slot(r.status == Z_OK && r.destLen == expected, r.dest)
  }

  /** compress_chunk. */
  method CompressChunk(z: Zlib, inbuf: seq<byte>, level: int) returns (ok: bool, outbuf: seq<byte>)
    requires Lawful(z) && |inbuf| < TWO_TO_THE_64
    ensures Slot(ok, outbuf) == Deflate(z, inbuf, level)
  {
    var srcLen := |inbuf|;
    var bound := z.compressBound(srcLen);
    var r := z.compress2(inbuf, bound, level);
    outbuf := r.dest;
    if r.status != Z_OK {
      return false, outbuf;
    }
    outbuf := outbuf[..r.destLen];
    ok := true;
  }

  /** decompress_chunk. */
  method DecompressChunk(z: Zlib, inbuf: seq<byte>, expectedSize: u64) returns (ok: bool, outbuf: seq<byte>)
    requires Lawful(z)
    ensures Slot(ok, outbuf) == Inflate(z, inbuf, expectedSize)
  {
    var r := z.uncompress(inbuf, expectedSize);
    outbuf := r.dest;
    if r.status != Z_OK {
      return false, outbuf;
    }
    if r.destLen != expectedSize {
      return false, outbuf;
    }
    ok := true;
  }

  /**
   * The size-integrity rule of decompress_chunk, stated on its own: it
   * succeeds exactly when zlib reports success with the expected number of
   * bytes, and the buffer is then zlib's output. It follows directly from
   * Inflate and needs no proof; it is kept as the named statement of that rule.
   */
  lemma InflateSizeIntegrity(z: Zlib, compressed: seq<byte>, expected: u64)
    requires Lawful(z)
    ensures Inflate(z, compressed, expected).ok <==>
              (z.uncompress(compressed, expected).status == Z_OK &&
               z.uncompress(compressed, expected).destLen == expected)
    ensures Inflate(z, compressed, expected).ok ==>
              Inflate(z, compressed, expected).buf == z.uncompress(compressed, expected).dest[..expected]
  {
  }

  /**
   * Decompressing a successfully compressed chunk against its original size
   * succeeds and gives the chunk back, at any compression level.
   */
  lemma ChunkRoundTrip(z: Zlib, raw: seq<byte>, level: int)
    requires Lawful(z) && |raw| < TWO_TO_THE_64
    requires Deflate(z, raw, level).ok
    ensures Inflate(z, Deflate(z, raw, level).buf, |raw|) == Slot(true, raw)
  {
    var r := z.compress2(raw, z.compressBound(|raw|), level);
    assert z.uncompress(r.dest[..r.destLen], |raw|) == ZOut(Z_OK, |raw|, raw);
  }

  /**
   * A stand-in for zlib that stores its input uncompressed. It meets the
   * contract, so the contract can be met.
   */
  function StoredZlib(): Zlib
  {
    Zlib(
      (n: u64) => n,
      (src: seq<byte>, cap: u64, level: int) => Store(src, cap),
      (src: seq<byte>, cap: u64) => Store(src, cap))
  }

  /** Copies `src` into a zeroed buffer of `cap` bytes when it fits. */
  function Store(src: seq<byte>, cap: u64): (r: ZOut)
    ensures |r.dest| == cap && (r.status == Z_OK <==> |src| <= cap)
    ensures r.status == Z_OK ==> r.destLen == |src| && r.dest[..r.destLen] == src
  {
    if |src| <= cap then ZOut(Z_OK, |src|, src + Zeros(cap - |src|))
    else ZOut(Z_BUF_ERROR, 0, Zeros(cap))
  }

  lemma StoredZlibLawful()
    ensures Lawful(StoredZlib())
  {
    var z := StoredZlib();
    forall raw: seq<byte>, level | |raw| < TWO_TO_THE_64
      ensures var r := z.compress2(raw, z.compressBound(|raw|), level);
              r.status == Z_OK ==> z.uncompress(r.dest[..r.destLen], |raw|) == ZOut(Z_OK, |raw|, raw)
    {
      assert z.compress2(raw, |raw|, level) == Store(raw, |raw|);
      assert raw + Zeros(0) == raw;
    }
  }
}
