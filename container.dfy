/**
 * The container format: a header (magic "MTZ1", version 1 as a u32, the
 * chunk count as a u64, then per chunk its compressed and original sizes as
 * u64s) followed by the compressed blocks back to back in chunk order.
 */
module Container {
  import opened Bytes
  import opened Streams

  /** The magic tag 'M', 'T', 'Z', '1'. */
  const MAGIC: seq<byte> := [77, 84, 90, 49]
  const VERSION: u32 := 1

  /** The per-chunk metadata record. */
  datatype ChunkMeta = ChunkMeta(compressedSize: u64, originalSize: u64)

  /** One metadata record on disk: compressed size, then original size. */
  function EntryBytes(m: ChunkMeta): (s: seq<byte>)
    ensures |s| == 16
  {
    U64Bytes(m.compressedSize) + U64Bytes(m.originalSize)
  }

  /** The metadata table on disk, records in chunk order. */
  function EntriesBytes(metas: seq<ChunkMeta>): (s: seq<byte>)
    ensures |s| == 16 * |metas|
  {
    if metas == [] then [] else EntryBytes(metas[0]) + EntriesBytes(metas[1..])
  }

  /** The bytes write_header emits. */
  function HeaderBytes(metas: seq<ChunkMeta>): (h: seq<byte>)
    requires |metas| < TWO_TO_THE_64
    ensures |h| == 16 + 16 * |metas| && h[..4] == MAGIC
  {
    MAGIC + U32Bytes(VERSION) + U64Bytes(|metas|) + EntriesBytes(metas)
  }

  /** The outcome of read_header: the metadata and the unread input, or failure. */
  datatype Parse = Parsed(metas: seq<ChunkMeta>, rest: seq<byte>) | Invalid

  /** Prefixes the records `ms` to a successful parse. */
  function Prepend(ms: seq<ChunkMeta>, p: Parse): Parse
  {
    match p
    case Invalid => Invalid
    case Parsed(more, rest) => Parsed(ms + more, rest)
  }

  /** Reads `cnt` records of 16 bytes each. */
  function ParseEntries(s: seq<byte>, cnt: nat): (r: Parse)
    ensures r.Parsed? ==> |r.metas| == cnt
    decreases cnt
  {
    if cnt == 0 then Parsed([], s)
    else if |s| < 16 then Invalid
    else Prepend([ChunkMeta(ReadU64(s[..8]), ReadU64(s[8..16]))], ParseEntries(s[16..], cnt - 1))
  }

  /**
   * read_header: the magic, then the version, then the count, each check
   * failing when the input ends early, then the records.
   */
  function ParseHeader(s: seq<byte>): (r: Parse)
    ensures r.Parsed? ==> |s| >= 16 && s[..4] == MAGIC
  {
    if |s| < 4 then Invalid
    else if s[..4] != MAGIC then Invalid
    else if |s| < 8 then Invalid
    else if ReadU32(s[4..8]) != VERSION then Invalid
    else if |s| < 16 then Invalid
    else ParseEntries(s[16..], ReadU64(s[8..16]))
  }

  lemma {:induction false} EntriesBytesSnoc(metas: seq<ChunkMeta>, m: ChunkMeta)
    ensures EntriesBytes(metas + [m]) == EntriesBytes(metas) + EntryBytes(m)
  {
    if metas != [] {
      assert (metas + [m])[1..] == metas[1..] + [m];
      EntriesBytesSnoc(metas[1..], m);
    }
  }

  /** Record `i` sits at offset `16 * i` of the table, compressed size first. */
  lemma {:induction false} EntriesLayout(metas: seq<ChunkMeta>, i: nat)
    requires i < |metas|
    ensures |EntriesBytes(metas)| == 16 * |metas|
    ensures EntriesBytes(metas)[16 * i .. 16 * i + 8] == U64Bytes(metas[i].compressedSize)
    ensures EntriesBytes(metas)[16 * i + 8 .. 16 * i + 16] == U64Bytes(metas[i].originalSize)
  {
    var t := EntriesBytes(metas[1..]);
    if |metas| > 1 {
      EntriesLayout(metas[1..], if i == 0 then 0 else i - 1);
    } else {
      assert t == [];
    }
    assert EntriesBytes(metas) == EntryBytes(metas[0]) + t;
    if i > 0 {
      var j := 16 * (i - 1);
      assert 16 * i == 16 + j;
      assert EntriesBytes(metas)[16 * i .. 16 * i + 8] == t[j .. j + 8];
      assert EntriesBytes(metas)[16 * i + 8 .. 16 * i + 16] == t[j + 8 .. j + 16];
    }
  }

  /**
   * write_header emits `16 + 16 * n` bytes: the magic, version 1, the count
   * `n`, then each record's compressed size and original size, in order.
   */
  lemma HeaderLayout(metas: seq<ChunkMeta>)
    requires |metas| < TWO_TO_THE_64
    ensures var h := HeaderBytes(metas);
            |h| == 16 + 16 * |metas| &&
            h[..4] == MAGIC && h[4..8] == U32Bytes(VERSION) && h[8..16] == U64Bytes(|metas|) &&
            forall i :: 0 <= i < |metas| ==>
              h[16 + 16 * i .. 24 + 16 * i] == U64Bytes(metas[i].compressedSize) &&
              h[24 + 16 * i .. 32 + 16 * i] == U64Bytes(metas[i].originalSize)
  {
    var h := HeaderBytes(metas);
    var e := EntriesBytes(metas);
    if metas == [] {
      assert e == [];
    } else {
      EntriesLayout(metas, 0);
    }
    assert h == (MAGIC + U32Bytes(VERSION) + U64Bytes(|metas|)) + e;
    forall i | 0 <= i < |metas|
      ensures h[16 + 16 * i .. 24 + 16 * i] == U64Bytes(metas[i].compressedSize)
      ensures h[24 + 16 * i .. 32 + 16 * i] == U64Bytes(metas[i].originalSize)
    {
      EntriesLayout(metas, i);
      assert h[16 + 16 * i .. 24 + 16 * i] == e[16 * i .. 16 * i + 8];
      assert h[24 + 16 * i .. 32 + 16 * i] == e[16 * i + 8 .. 16 * i + 16];
    }
  }

  /** Parsing the table of `metas` followed by anything gives `metas` back and leaves the rest. */
  lemma {:induction false} EntriesRoundTrip(metas: seq<ChunkMeta>, rest: seq<byte>)
    ensures ParseEntries(EntriesBytes(metas) + rest, |metas|) == Parsed(metas, rest)
  {
    if metas != [] {
      var m := metas[0];
      var s := EntriesBytes(metas) + rest;
      assert s == U64Bytes(m.compressedSize) + U64Bytes(m.originalSize) + (EntriesBytes(metas[1..]) + rest);
      assert s[..8] == U64Bytes(m.compressedSize);
      assert s[8..16] == U64Bytes(m.originalSize);
      assert s[16..] == EntriesBytes(metas[1..]) + rest;
      U64RoundTrip(m.compressedSize);
      U64RoundTrip(m.originalSize);
      EntriesRoundTrip(metas[1..], rest);
      assert [m] + metas[1..] == metas;
    }
  }

  /** Header round trip: read_header after write_header gives the records back and leaves the rest unread. */
  lemma HeaderRoundTrip(metas: seq<ChunkMeta>, rest: seq<byte>)
    requires |metas| < TWO_TO_THE_64
    ensures ParseHeader(HeaderBytes(metas) + rest) == Parsed(metas, rest)
  {
    var s := HeaderBytes(metas) + rest;
    assert s == MAGIC + U32Bytes(VERSION) + U64Bytes(|metas|) + (EntriesBytes(metas) + rest);
    assert s[..4] == MAGIC;
    assert s[4..8] == U32Bytes(VERSION);
    assert s[8..16] == U64Bytes(|metas|);
    assert s[16..] == EntriesBytes(metas) + rest;
    U32RoundTrip(VERSION);
    U64RoundTrip(|metas|);
    EntriesRoundTrip(metas, rest);
  }

  /**
   * Reading `cnt` records succeeds exactly when `16 * cnt` bytes are there;
   * the input is then the table of the records returned followed by the rest.
   */
  lemma {:induction false} ParseEntriesIff(s: seq<byte>, cnt: nat)
    ensures ParseEntries(s, cnt).Parsed? <==> 16 * cnt <= |s|
    ensures ParseEntries(s, cnt).Parsed? ==>
              |ParseEntries(s, cnt).metas| == cnt && ParseEntries(s, cnt).rest == s[16 * cnt..]
    ensures ParseEntries(s, cnt).Parsed? ==>
              s == EntriesBytes(ParseEntries(s, cnt).metas) + ParseEntries(s, cnt).rest
    decreases cnt
  {
    if cnt > 0 && |s| >= 16 {
      ParseEntriesIff(s[16..], cnt - 1);
    }
    var r := ParseEntries(s, cnt);
    if r.Parsed? {
      ParseEntriesBytes(s, cnt, r.metas, r.rest);
    }
  }

  /** What a successful read of `cnt` records consumed is the table of the records it returned. */
  lemma {:induction false} ParseEntriesBytes(s: seq<byte>, cnt: nat, metas: seq<ChunkMeta>, rest: seq<byte>)
    requires ParseEntries(s, cnt) == Parsed(metas, rest)
    ensures s == EntriesBytes(metas) + rest
    decreases cnt
  {
    if cnt > 0 {
      var m := ChunkMeta(ReadU64(s[..8]), ReadU64(s[8..16]));
      var p := ParseEntries(s[16..], cnt - 1);
      assert p.Parsed? && metas == [m] + p.metas && rest == p.rest;
      ParseEntriesBytes(s[16..], cnt - 1, p.metas, p.rest);
      EntryThenTable(s, p.metas, p.rest);
    }
  }

  /** Sixteen bytes of a record in front of a table make the table with that record first. */
  lemma EntryThenTable(s: seq<byte>, metas: seq<ChunkMeta>, rest: seq<byte>)
    requires |s| >= 16 && s[16..] == EntriesBytes(metas) + rest
    ensures s == EntriesBytes([ChunkMeta(ReadU64(s[..8]), ReadU64(s[8..16]))] + metas) + rest
  {
    var m := ChunkMeta(ReadU64(s[..8]), ReadU64(s[8..16]));
    calc {
      EntriesBytes([m] + metas) + rest;
    == { EntriesBytesCons(m, metas); }
      EntryBytes(m) + (EntriesBytes(metas) + rest);
    == { EntryOfRead(s); }
      s[..16] + s[16..];
    ==
      s;
    }
  }

  /** Sixteen bytes are the on-disk record of the sizes they stand for. */
  lemma EntryOfRead(s: seq<byte>)
    requires |s| >= 16
    ensures EntryBytes(ChunkMeta(ReadU64(s[..8]), ReadU64(s[8..16]))) == s[..16]
  {
    U64BytesOfRead(s[..8]);
    U64BytesOfRead(s[8..16]);
    assert s[..16] == s[..8] + s[8..16];
  }

  lemma EntriesBytesCons(m: ChunkMeta, metas: seq<ChunkMeta>)
    ensures EntriesBytes([m] + metas) == EntryBytes(m) + EntriesBytes(metas)
  {
    assert ([m] + metas)[1..] == metas;
  }

  /**
   * read_header succeeds exactly when the magic and the version match and the
   * input holds the 16 fixed bytes and all `cnt` records; it then returns
   * `cnt` records, the input being exactly the header of those records
   * followed by what is left unread. It fails otherwise: a
   * wrong magic, a wrong version, or an input ending before the magic, the
   * version, the count or any record is complete.
   */
  lemma ParseHeaderIff(s: seq<byte>)
    ensures ParseHeader(s).Parsed? <==>
              |s| >= 16 && s[..4] == MAGIC && ReadU32(s[4..8]) == VERSION &&
              |s| >= 16 + 16 * ReadU64(s[8..16])
    ensures ParseHeader(s).Parsed? ==>
              |ParseHeader(s).metas| == ReadU64(s[8..16]) &&
              ParseHeader(s).rest == s[16 + 16 * ReadU64(s[8..16])..]
    ensures ParseHeader(s).Parsed? ==>
              |ParseHeader(s).metas| < TWO_TO_THE_64 &&
              s == HeaderBytes(ParseHeader(s).metas) + ParseHeader(s).rest
  {
    if |s| >= 16 {
      ParseEntriesIff(s[16..], ReadU64(s[8..16]));
    }
    var r := ParseHeader(s);
    if r.Parsed? {
      ParseHeaderBytes(s, r.metas, r.rest);
    }
  }

  /** What a successful read_header consumed is the header of the records it returned. */
  lemma ParseHeaderBytes(s: seq<byte>, metas: seq<ChunkMeta>, rest: seq<byte>)
    requires ParseHeader(s) == Parsed(metas, rest)
    ensures |metas| < TWO_TO_THE_64 && s == HeaderBytes(metas) + rest
  {
    var cnt := ReadU64(s[8..16]);
    assert ParseEntries(s[16..], cnt) == Parsed(metas, rest);
    ParseEntriesBytes(s[16..], cnt, metas, rest);
    U32BytesOfRead(s[4..8]);
    U64BytesOfRead(s[8..16]);
    HeaderThenTable(s, metas, rest);
  }

  /** The fixed 16 bytes of a header in front of a table make the header of its records. */
  lemma HeaderThenTable(s: seq<byte>, metas: seq<ChunkMeta>, rest: seq<byte>)
    requires |s| >= 16 && |metas| < TWO_TO_THE_64
    requires s[..4] == MAGIC && s[4..8] == U32Bytes(VERSION) && s[8..16] == U64Bytes(|metas|)
    requires s[16..] == EntriesBytes(metas) + rest
    ensures s == HeaderBytes(metas) + rest
  {
    Reassemble(s, MAGIC, U32Bytes(VERSION), U64Bytes(|metas|), EntriesBytes(metas) + rest);
  }

  /**
   * A header announcing three chunks but holding only two records is
   * rejected.
   */
  lemma ShortTableRejected(metas: seq<ChunkMeta>)
    requires |metas| == 2
    ensures ParseHeader(MAGIC + U32Bytes(VERSION) + U64Bytes(3) + EntriesBytes(metas)) == Invalid
  {
    var s := MAGIC + U32Bytes(VERSION) + U64Bytes(3) + EntriesBytes(metas);
    assert s[8..16] == U64Bytes(3);
    U64RoundTrip(3);
    EntriesLayout(metas, 0);
    ParseHeaderIff(s);
  }

  /** write_header: the magic, the version, the count, then the records one by one. */
  method WriteHeader(out: OutStream, metas: seq<ChunkMeta>)
    requires |metas| < TWO_TO_THE_64
    modifies out
    ensures out.written == old(out.written) + HeaderBytes(metas)
  {
    ghost var w := out.written;
    out.Write(MAGIC);
    var ver := VERSION;
    out.Write(U32Bytes(ver));
    var cnt := |metas|;
    out.Write(U64Bytes(cnt));
    ghost var fixed := MAGIC + U32Bytes(ver) + U64Bytes(cnt);
    assert out.written == w + fixed;
    WriteEntries(out, metas);
    assert out.written == w + (fixed + EntriesBytes(metas));
  }

  /** The record loop of write_header: each record's compressed size, then its original size. */
  method WriteEntries(out: OutStream, metas: seq<ChunkMeta>)
    modifies out
    ensures out.written == old(out.written) + EntriesBytes(metas)
  {
    for i := 0 to |metas|
      invariant out.written == old(out.written) + EntriesBytes(metas[..i])
    {
      ghost var before := out.written;
      out.Write(U64Bytes(metas[i].compressedSize));
      out.Write(U64Bytes(metas[i].originalSize));
      assert out.written == before + EntryBytes(metas[i]);
      EntriesBytesSnoc(metas[..i], metas[i]);
      assert metas[..i + 1] == metas[..i] + [metas[i]];
    }
    assert metas[..|metas|] == metas;
  }

  /**
   * read_header: reads and checks the fixed fields, sizes the record list to
   * the count, then fills it record by record, failing on the first short
   * read.
   */
  method ReadHeader(inp: InStream) returns (ok: bool, metas: seq<ChunkMeta>)
    requires inp.Valid()
    modifies inp
    ensures inp.Valid()
    ensures ParseHeader(old(inp.Remaining())) == if ok then Parsed(metas, inp.Remaining()) else Invalid
  {
    ghost var s := inp.Remaining();
    var got, magic := inp.Read(4);
    if !got {
      assert |s| < 4;
      return false, [];
    }
    if magic != MAGIC {
      assert s[..4] == magic;
      return false, [];
    }
    var verBytes;
    got, verBytes := inp.Read(4);
    if !got {
      assert |s| < 8;
      return false, [];
    }
    assert s[4..8] == verBytes;
    if ReadU32(verBytes) != VERSION {
      return false, [];
    }
    var cntBytes;
    got, cntBytes := inp.Read(8);
    if !got {
      return false, [];
    }
    var cnt := ReadU64(cntBytes);
    assert s[4..8] == verBytes && s[8..16] == cntBytes && inp.Remaining() == s[16..];
    ok, metas := ReadEntries(inp, cnt);
  }

  /**
   * The record loop of read_header: sizes the list to the count, then fills
   * it record by record, failing on the first short read.
   */
  method ReadEntries(inp: InStream, cnt: nat) returns (ok: bool, metas: seq<ChunkMeta>)
    requires inp.Valid()
    modifies inp
    ensures inp.Valid()
    ensures ParseEntries(old(inp.Remaining()), cnt) == if ok then Parsed(metas, inp.Remaining()) else Invalid
  {
    ghost var s := inp.Remaining();
    metas := seq(cnt, _ => ChunkMeta(0, 0));
    PrependNothing(ParseEntries(s, cnt));
    assert metas[..0] == [];
    var i := 0;
    while i < cnt
      invariant inp.Valid() && 0 <= i <= cnt && |metas| == cnt
      invariant ParseEntries(s, cnt) == Prepend(metas[..i], ParseEntries(inp.Remaining(), cnt - i))
    {
      ghost var r := inp.Remaining();
      var got, a, b;
      got, a := inp.Read(8);
      if !got {
        return false, metas;
      }
      got, b := inp.Read(8);
      if !got {
        return false, metas;
      }
      TwoReads(r);
      assert r[..8] == a && r[8..16] == b && inp.Remaining() == r[16..];
      var m := ChunkMeta(ReadU64(a), ReadU64(b));
      EntriesStep(s, cnt, metas[..i], r, i);
      ghost var done := metas[..i];
      metas := metas[i := m];
      assert metas[..i + 1] == done + [m];
      i := i + 1;
    }
    assert metas[..i] == metas;
    return true, metas;
  }

  /** The compressed blocks read back, and the input after them. */
  datatype Blocks = Blocks(blocks: seq<seq<byte>>, rest: seq<byte>)

  /** The sum of the records' compressed sizes: the payload length the header announces. */
  function SumCompressed(metas: seq<ChunkMeta>): nat
  {
    if metas == [] then 0 else metas[0].compressedSize + SumCompressed(metas[1..])
  }

  /** Reads one block per record, of its compressed size, in order; a short read fails. */
  function Unframe(s: seq<byte>, metas: seq<ChunkMeta>): (r: Option<Blocks>)
    ensures r.Some? ==> |r.value.blocks| == |metas|
  {
    if metas == [] then Some(Blocks([], s))
    else if |s| < metas[0].compressedSize then None
    else match Unframe(s[metas[0].compressedSize..], metas[1..])
      case None => None
      case Some(Blocks(more, rest)) => Some(Blocks([s[..metas[0].compressedSize]] + more, rest))
  }

  /** Each block is as long as its record says. */
  ghost predicate SizedBy(blocks: seq<seq<byte>>, metas: seq<ChunkMeta>)
  {
    |blocks| == |metas| && forall i :: 0 <= i < |blocks| ==> |blocks[i]| == metas[i].compressedSize
  }

  /** Payload framing round trip: blocks written back to back are read back identical and in order. */
  lemma {:induction false} UnframeRoundTrip(blocks: seq<seq<byte>>, metas: seq<ChunkMeta>, rest: seq<byte>)
    requires SizedBy(blocks, metas)
    ensures Unframe(Flatten(blocks) + rest, metas) == Some(Blocks(blocks, rest))
  {
    if metas != [] {
      var s := Flatten(blocks) + rest;
      assert s == blocks[0] + (Flatten(blocks[1..]) + rest);
      assert s[..metas[0].compressedSize] == blocks[0];
      assert s[metas[0].compressedSize..] == Flatten(blocks[1..]) + rest;
      UnframeRoundTrip(blocks[1..], metas[1..], rest);
      assert [blocks[0]] + blocks[1..] == blocks;
    } else {
      assert Flatten(blocks) + rest == rest;
    }
  }

  /**
   * Reading the blocks succeeds exactly when the input holds the sum of the
   * compressed sizes; the blocks then have those sizes and, with the rest,
   * make up the input.
   */
  lemma UnframeIff(s: seq<byte>, metas: seq<ChunkMeta>)
    ensures Unframe(s, metas).Some? <==> SumCompressed(metas) <= |s|
    ensures Unframe(s, metas).Some? ==>
              SizedBy(Unframe(s, metas).value.blocks, metas) &&
              Flatten(Unframe(s, metas).value.blocks) + Unframe(s, metas).value.rest == s
  {
    UnframeSucceeds(s, metas);
    UnframeSized(s, metas);
    if Unframe(s, metas).Some? {
      var r := Unframe(s, metas).value;
      UnframeRecomposes(s, metas, r.blocks, r.rest);
    }
  }

  /** Reading the blocks succeeds exactly when the input holds their total size. */
  lemma {:induction false} UnframeSucceeds(s: seq<byte>, metas: seq<ChunkMeta>)
    ensures Unframe(s, metas).Some? <==> SumCompressed(metas) <= |s|
  {
    if metas != [] {
      var c := metas[0].compressedSize;
      if |s| >= c {
        UnframeSucceeds(s[c..], metas[1..]);
      }
    }
  }

  /** Each block read is as long as its record says. */
  lemma {:induction false} UnframeSized(s: seq<byte>, metas: seq<ChunkMeta>)
    ensures Unframe(s, metas).Some? ==> SizedBy(Unframe(s, metas).value.blocks, metas)
  {
    if metas != [] {
      var c := metas[0].compressedSize;
      var r := if |s| >= c then Unframe(s[c..], metas[1..]) else None;
      if r.Some? {
        UnframeSized(s[c..], metas[1..]);
        var bs := [s[..c]] + r.value.blocks;
        assert Unframe(s, metas).value.blocks == bs;
        forall i | 0 <= i < |bs|
          ensures |bs[i]| == metas[i].compressedSize
        {
          if i > 0 {
            assert bs[i] == r.value.blocks[i - 1] && metas[i] == metas[1..][i - 1];
          }
        }
      }
    }
  }

  /** The blocks read, followed by what is left, are the input. */
  lemma {:induction false} UnframeRecomposes(s: seq<byte>, metas: seq<ChunkMeta>, blocks: seq<seq<byte>>, rest: seq<byte>)
    requires Unframe(s, metas) == Some(Blocks(blocks, rest))
    ensures Flatten(blocks) + rest == s
  {
    if metas != [] {
      var c := metas[0].compressedSize;
      assert |s| >= c;
      var r := Unframe(s[c..], metas[1..]).value;
      assert blocks == [s[..c]] + r.blocks && rest == r.rest;
      UnframeRecomposes(s[c..], metas[1..], r.blocks, r.rest);
      BlockThenRest(s, c, r.blocks, r.rest);
    }
  }

  /** A block of `c` bytes in front of blocks that make up the rest of the input. */
  lemma BlockThenRest(s: seq<byte>, c: nat, blocks: seq<seq<byte>>, rest: seq<byte>)
    requires c <= |s| && s[c..] == Flatten(blocks) + rest
    ensures Flatten([s[..c]] + blocks) + rest == s
  {
    FlattenCons(s[..c], blocks);
    calc {
      Flatten([s[..c]] + blocks) + rest;
    ==
      (s[..c] + Flatten(blocks)) + rest;
    ==
      s[..c] + (Flatten(blocks) + rest);
    ==
      s;
    }
  }

  /** Prefixes the blocks `bs` to a successful read. */
  function PrependBlocks(bs: seq<seq<byte>>, r: Option<Blocks>): Option<Blocks>
  {
    match r
    case None => None
    case Some(Blocks(more, rest)) => Some(Blocks(bs + more, rest))
  }

  lemma PrependBlocksNone(r: Option<Blocks>)
    ensures PrependBlocks([], r) == r
  {
    if r.Some? {
      assert [] + r.value.blocks == r.value.blocks;
    }
  }

  lemma PrependBlocksTwice(a: seq<seq<byte>>, b: seq<seq<byte>>, r: Option<Blocks>)
    ensures PrependBlocks(a, PrependBlocks(b, r)) == PrependBlocks(a + b, r)
  {
    if r.Some? {
      assert a + (b + r.value.blocks) == (a + b) + r.value.blocks;
    }
  }

  /** One step of the record loop: the next 16 bytes are the next record. */
  lemma EntriesStep(s: seq<byte>, cnt: nat, done: seq<ChunkMeta>, r: seq<byte>, i: nat)
    requires i < cnt && |r| >= 16
    requires ParseEntries(s, cnt) == Prepend(done, ParseEntries(r, cnt - i))
    ensures ParseEntries(s, cnt) ==
              Prepend(done + [ChunkMeta(ReadU64(r[..8]), ReadU64(r[8..16]))], ParseEntries(r[16..], cnt - (i + 1)))
  {
    PrependTwice(done, [ChunkMeta(ReadU64(r[..8]), ReadU64(r[8..16]))], ParseEntries(r[16..], cnt - (i + 1)));
  }

  /** Two reads of 8 bytes take the first 16 bytes, in two halves. */
  lemma TwoReads(r: seq<byte>)
    requires |r| >= 16
    ensures r[8..][..8] == r[8..16] && r[8..][8..] == r[16..]
  {
  }

  lemma PrependNothing(p: Parse)
    ensures Prepend([], p) == p
  {
    if p.Parsed? {
      assert [] + p.metas == p.metas;
    }
  }

  lemma PrependTwice(a: seq<ChunkMeta>, b: seq<ChunkMeta>, p: Parse)
    ensures Prepend(a, Prepend(b, p)) == Prepend(a + b, p)
  {
    if p.Parsed? {
      assert a + (b + p.metas) == (a + b) + p.metas;
    }
  }

  /**
   * Reads the compressed blocks of decompress_file: one slot per record,
   * sized to its compressed size and filled from the stream; a short read
   * fails the whole read.
   */
  method ReadBlocks(inp: InStream, metas: seq<ChunkMeta>) returns (ok: bool, blocks: seq<seq<byte>>)
    requires inp.Valid()
    modifies inp
    ensures inp.Valid()
    ensures |blocks| == |metas|
    ensures Unframe(old(inp.Remaining()), metas) == if ok then Some(Blocks(blocks, inp.Remaining())) else None
  {
    ghost var s := inp.Remaining();
    blocks := seq(|metas|, _ => []);
    PrependBlocksNone(Unframe(s, metas));
    for i := 0 to |metas|
      invariant inp.Valid() && |blocks| == |metas|
      invariant Unframe(s, metas) == PrependBlocks(blocks[..i], Unframe(inp.Remaining(), metas[i..]))
    {
      ghost var r := inp.Remaining();
      var got, block := inp.Read(metas[i].compressedSize);
      if !got {
        return false, blocks;
      }
      assert metas[i..][1..] == metas[i + 1..];
      assert Unframe(r, metas[i..]) == PrependBlocks([block], Unframe(inp.Remaining(), metas[i + 1..]));
      PrependBlocksTwice(blocks[..i], [block], Unframe(inp.Remaining(), metas[i + 1..]));
      blocks := blocks[i := block];
      assert blocks[..i + 1] == blocks[..i] + [block];
    }
    assert blocks[..|metas|] == blocks && metas[|metas|..] == [];
    assert blocks + [] == blocks;
    ok := true;
  }

  /**
   * The container invariant: the header parses and the payload that follows
   * is exactly as long as the compressed sizes it announces.
   */
  ghost predicate WellFramed(c: seq<byte>)
  {
    ParseHeader(c).Parsed? && |ParseHeader(c).rest| == SumCompressed(ParseHeader(c).metas)
  }
}
