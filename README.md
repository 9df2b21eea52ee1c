# mtcompress in Dafny

A model of the core of `mtcompress`, a command-line tool that splits a file into
chunks and compresses each chunk with zlib on its own thread. It writes a small
container: the magic `MTZ1`, version 1, the chunk count, one record per chunk
holding the compressed and original sizes, and then the compressed blocks back
to back. Decompression reads the header and the blocks, decompresses each block
on its own thread, and writes the pieces in order.

The model covers four parts of `multithreaded_compressor.cpp`:

- **Chunk planner** (`planner.dfy`, module `Planner`). It picks the chunk size:
  the input size over the thread count, rounded up, with a 64 KiB floor. It then
  reads the input into consecutive chunks, the last one clipped. `ReadChunks`
  and its loop `ReadPlanned` read from an input stream and are proved equal to
  the function `Split`. `LayoutBounds` proves the layout never plans more chunks
  than threads and that the chunk size is at least the floor or the whole input.
- **Container header** (`container.dfy`, module `Container`). `write_header`
  and `read_header` are methods over the stream classes of `streams.dfy`. They
  are proved against the byte image `HeaderBytes` and the parser `ParseHeader`.
  The two round-trip in both directions: parsing what was written gives the
  records back (`HeaderRoundTrip`), and whatever `read_header` accepts is the
  header of the records it returned (`ParseHeaderBytes`). `ParseHeaderIff`
  states exactly which inputs `read_header` accepts.
- **Payload framing** (`container.dfy`). The blocks are written back to back
  and read back by their recorded compressed sizes (`Unframe`, `ReadBlocks`).
- **Per-chunk codec, fan-out and reassembly** (`codec.dfy`, `pipeline.dfy`,
  `driver.dfy`).
  - zlib is a parameter of the model, a value of type `Zlib`. What the tool
    relies on from zlib is the predicate `Lawful`. `StoredZlib` is a stand-in
    that meets it, which shows the predicate can be met.
  - `compress_chunk` and `decompress_chunk` are methods proved against the
    functions `Deflate` and `Inflate`.
  - The threads become a loop over chunk indices, one slot per index. Each
    thread writes only its own slots, so the result is the same.
  - `compress_file` and `decompress_file` are methods proved equal to the
    functions `Encode` and `Decode`.
  - `RoundTrip` proves that when every chunk compresses, decompressing the
    container gives back the original input with exit code 0.

Faithful to the code as written:

- A chunk that fails to compress gets the record compressed size 0. The run
  still writes the file and exits with 0.
- A chunk that fails to decompress is only reported. Its slot is still written
  and the run exits with 0.

Both behaviours are modelled as written. The "## Findings" section explains
why each is a bug and proves a corrected version next to it (`findings.dfy`).

Two further points:

- 200000 bytes with 4 threads gives four chunks of 65536, 65536, 65536 and
  3392 bytes (`FourChunksOf200000`, `multithreaded_compressor.cpp:121-143`).
- The code writes integers in host byte order. The model fixes little-endian,
  the byte order of x86-64 and ARM64 hosts.

## Model

| member | source | states |
|---|---|---|
| Bytes.LittleEndian | multithreaded_compressor.cpp:81-87 | A fixed-width integer field occupies exactly its width in bytes |
| Bytes.FromLittleEndianInverse | multithreaded_compressor.cpp:96-104 | Reading back a field written at its width gives the same integer |
| Bytes.LittleEndianInverse | multithreaded_compressor.cpp:96-104 | Any bytes read as an integer field are exactly the encoding of the integer they are read as |
| Bytes.LittleEndianInjective | multithreaded_compressor.cpp:81-87 | Two different integers of the same width never have the same bytes |
| Bytes.U64RoundTrip | multithreaded_compressor.cpp:99-104 | A uint64_t written to the header reads back unchanged |
| Bytes.U32RoundTrip | multithreaded_compressor.cpp:96-98 | The uint32_t version field reads back unchanged |
| Bytes.FlattenAppend | multithreaded_compressor.cpp:177-179 | Writing two lists of blocks one after the other writes the concatenation of their contents |
| Bytes.FlattenLength | multithreaded_compressor.cpp:231-233 | The bytes written for a list of blocks are as many as their lengths add up to |
| Streams.InStream.Read | multithreaded_compressor.cpp:94 | `istream::read` of n bytes succeeds exactly when n bytes remain; it then returns them and advances past them, and otherwise takes what is left and fails |
| Streams.OutStream.Write | multithreaded_compressor.cpp:80 | `ostream::write` appends the bytes to what the file holds |
| Codec.Deflate | multithreaded_compressor.cpp:58-66 | The buffer of a successful compression is at most compressBound bytes; a failed one keeps all compressBound bytes |
| Codec.Inflate | multithreaded_compressor.cpp:69-76 | The decompressed buffer always holds exactly the expected size, whether or not the call succeeded |
| Codec.CompressChunk | multithreaded_compressor.cpp:58-66 | compress_chunk's result and buffer are those of Deflate: sized to compressBound, and trimmed to the produced length only on success |
| Codec.DecompressChunk | multithreaded_compressor.cpp:69-76 | decompress_chunk's result and buffer are those of Inflate: success needs Z_OK and exactly the expected size |
| Codec.InflateSizeIntegrity | multithreaded_compressor.cpp:72-75 | Decompression succeeds if and only if zlib returns Z_OK with exactly the expected length, and then the buffer is zlib's output |
| Codec.ChunkRoundTrip | multithreaded_compressor.cpp:58-76 | Decompressing a successfully compressed chunk against its original size succeeds and gives the chunk back |
| Codec.StoredZlibLawful | multithreaded_compressor.cpp:60-72 | The stand-in zlib meets the contract the tool relies on, so that contract can be met |
| Planner.ChunkLayout | multithreaded_compressor.cpp:121-129 | The chunk size and thread count compress_file settles on: the size over max(1, threads_requested) rounded up, raised below 64 KiB to min(64 KiB, size) with the count recomputed; the chunk size is positive and the count at least 1 |
| Planner.CeilDivLeast | multithreaded_compressor.cpp:123 | `(a + b - 1) / b` is the least c with a <= b * c |
| Planner.StartInsideIff | multithreaded_compressor.cpp:136-137 | Chunk i starts inside the input exactly when i is below the chunk count |
| Planner.LayoutBounds | multithreaded_compressor.cpp:121-129 | The chunk size is positive and at least min(64 KiB, size); the chunks it needs are at least 1 and at most the thread count, which is at most max(1, threads_requested) |
| Planner.FloorRule | multithreaded_compressor.cpp:126-129 | Below the floor, the chunk size is min(64 KiB, size) and the count is the size over it, rounded up |
| Planner.Split | multithreaded_compressor.cpp:135-143 | The input cut into consecutive pieces of the chunk size, the last clipped; there are never more pieces than bytes, and no pieces exactly when the input is empty |
| Planner.SplitCountBounds | multithreaded_compressor.cpp:135-143 | The pieces cover the input, and one piece fewer would not |
| Planner.SplitCount | multithreaded_compressor.cpp:135-143 | There are ceil(size / chunk) pieces |
| Planner.SplitPiece | multithreaded_compressor.cpp:136-142 | Piece i starts at i * chunk inside the input and is the range [i * chunk, min(i * chunk + chunk, size)) |
| Planner.SplitFlatten | multithreaded_compressor.cpp:135-143 | The pieces put back together are the input |
| Planner.SplitLengths | multithreaded_compressor.cpp:138-140 | Every piece is non-empty and at most one chunk long; all but the last are exactly one chunk |
| Planner.SplitStartInside | multithreaded_compressor.cpp:136-137 | A chunk whose start is inside the input is one of the planned pieces |
| Planner.PlanStep | multithreaded_compressor.cpp:136-142 | One loop step: chunk i starts at i * chunk, is min(chunk, remain) bytes long, and the next chunk starts right after it |
| Planner.ReadChunks | multithreaded_compressor.cpp:121-143 | The chunks read are Split of the input at the planned chunk size, and orig_sizes holds their lengths |
| Planner.ReadPlanned | multithreaded_compressor.cpp:131-143 | The chunk loop, including the early shrink, reads exactly the pieces of Split, and each recorded size is its chunk's length |
| Planner.FourChunksOf200000 | multithreaded_compressor.cpp:121-143 | 200000 bytes with 4 threads gives four chunks of 65536, 65536, 65536 and 3392 bytes |
| Planner.SmallInputOneChunk | multithreaded_compressor.cpp:126-129 | An input of at most 64 KiB is one chunk, whatever the thread count |
| Container.HeaderBytes | multithreaded_compressor.cpp:79-89 | The bytes write_header emits: 16 + 16n of them, starting with the magic |
| Container.ParseEntries | multithreaded_compressor.cpp:101-106 | The record loop of read_header: 16 bytes per record, compressed size first, failing on a short read; on success it returns exactly cnt records |
| Container.ParseHeader | multithreaded_compressor.cpp:92-107 | read_header: magic, version, count and records, each failing on a short read or a mismatch; on success the input held at least 16 bytes starting with the magic |
| Container.EntryBytes | multithreaded_compressor.cpp:86-87 | A record occupies 16 bytes |
| Container.EntriesBytesSnoc | multithreaded_compressor.cpp:85-88 | Writing one more record appends its 16 bytes to the table |
| Container.EntriesLayout | multithreaded_compressor.cpp:85-88 | The table is 16 bytes per record; record i sits at offset 16 * i, compressed size first, then original size |
| Container.HeaderLayout | multithreaded_compressor.cpp:78-89 | The header is 16 + 16n bytes: magic, version 1, the count n, then each record's two sizes in order |
| Container.EntriesRoundTrip | multithreaded_compressor.cpp:102-105 | Reading n records back from their bytes gives them back and leaves what follows unread |
| Container.HeaderRoundTrip | multithreaded_compressor.cpp:79-107 | read_header of what write_header wrote, with anything after it, returns the records and leaves the rest unread |
| Container.ParseEntriesIff | multithreaded_compressor.cpp:101-106 | Reading n records succeeds exactly when 16n bytes remain; it then returns n records and the rest, and the input is exactly the table of those records followed by the rest |
| Container.ParseHeaderIff | multithreaded_compressor.cpp:92-107 | read_header succeeds if and only if the magic, version 1, a count n and 16n bytes of records are present; it then returns n records and the rest, and the input is exactly the header of those records followed by the rest |
| Container.ParseEntriesBytes | multithreaded_compressor.cpp:101-106 | The bytes a successful record loop consumed are exactly the table of the records it returned |
| Container.ParseHeaderBytes | multithreaded_compressor.cpp:92-107 | The bytes a successful read_header consumed are exactly the header write_header would emit for the records it returned |
| Container.ShortTableRejected | multithreaded_compressor.cpp:100-105 | A header that announces 3 records but holds 2 is rejected |
| Container.WriteHeader | multithreaded_compressor.cpp:79-89 | write_header appends exactly HeaderBytes of the records to the file |
| Container.WriteEntries | multithreaded_compressor.cpp:85-88 | The record loop appends each record's compressed size and original size in order |
| Container.ReadHeader | multithreaded_compressor.cpp:92-107 | read_header succeeds exactly when ParseHeader does, returns its records and leaves the stream at its rest |
| Container.ReadEntries | multithreaded_compressor.cpp:101-106 | The record loop succeeds exactly when ParseEntries does and returns the same records |
| Container.EntriesStep | multithreaded_compressor.cpp:103-104 | One record step: the next 16 bytes are the next record, compressed size first |
| Container.Unframe | multithreaded_compressor.cpp:202-208 | The block loop: one block per record, of its compressed size, failing when fewer bytes remain; on success there is one block per record |
| Container.UnframeRoundTrip | multithreaded_compressor.cpp:177-179 | Blocks written back to back are read back unchanged by their recorded sizes, leaving the rest |
| Container.UnframeIff | multithreaded_compressor.cpp:202-208 | Reading the blocks succeeds if and only if the input holds the sum of the compressed sizes; the blocks then have those sizes and, with the rest, make up the input |
| Container.ReadBlocks | multithreaded_compressor.cpp:202-208 | The block loop reads one block per record and succeeds exactly when Unframe does, returning its blocks |
| Pipeline.CompressChunks | multithreaded_compressor.cpp:155-168 | After the join, slot i holds chunk i compressed at Z_BEST_COMPRESSION, and record i holds its metadata |
| Pipeline.DecompressChunks | multithreaded_compressor.cpp:215-223 | After the join, slot i holds block i decompressed against record i's original size, failed or not |
| Pipeline.MetaOf | multithreaded_compressor.cpp:158-165 | The record a compress task stores: original size the chunk length, compressed size the produced length on success and 0 on failure, never above compressBound |
| Pipeline.MetaSlotsDescribe | multithreaded_compressor.cpp:157-165 | Each record's original size is its chunk's length; its compressed size is its slot's length on success, and 0 on failure while the slot keeps compressBound bytes |
| Pipeline.SlotsRoundTrip | multithreaded_compressor.cpp:155-168 | When every chunk compressed, decompressing each slot against its record gives the chunks back, in order |
| Driver.ChunksFit | multithreaded_compressor.cpp:131-143 | The planned chunks are 1 to max(1, threads_requested) in number, and each one's length fits a uint64_t |
| Driver.Encode | multithreaded_compressor.cpp:110-189 | compress_file: exit code 0 exactly when the input is non-empty, and an output file exactly on exit code 0 |
| Driver.Decode | multithreaded_compressor.cpp:192-239 | decompress_file: exit code 0 or 1, an output file exactly on exit code 0, and exit code 1 whenever the header cannot be read |
| Driver.DecodeReadable | multithreaded_compressor.cpp:197-233 | A container whose header and blocks can be read decodes, with exit code 0, to its decompressed slots written in order |
| Driver.WriteBlocks | multithreaded_compressor.cpp:177-179 | The blocks are appended to the file one after another, in slot order |
| Driver.CompressAndWrite | multithreaded_compressor.cpp:155-180 | The compress fan-out, the header and the blocks together write exactly the container of the chunks |
| Driver.CompressFile | multithreaded_compressor.cpp:110-189 | compress_file: an empty input exits with 1 and writes nothing; otherwise it writes the container of the planned chunks and exits with 0 |
| Driver.DecompressFile | multithreaded_compressor.cpp:192-239 | decompress_file: an unreadable header or block exits with 1 and writes nothing; otherwise it writes the decompressed slots in order and exits with 0 |
| Driver.EncodedHeader | multithreaded_compressor.cpp:110-180 | The container of a non-empty input has a readable header with 1 to max(1, threads_requested) records; each original size is non-zero and together they add up to the input size |
| Driver.SumOriginalLengths | multithreaded_compressor.cpp:161-164 | The records' original sizes add up to the chunks' total length |
| Driver.EncodedWellFramed | multithreaded_compressor.cpp:173-179 | When every chunk compressed, the container holds exactly the payload its header announces |
| Driver.SumCompressedLengths | multithreaded_compressor.cpp:163 | Blocks sized by their records have the sum of the compressed sizes as their total length |
| Driver.RoundTrip | multithreaded_compressor.cpp:110-239 | When every chunk compressed, decompressing the container compress_file wrote exits with 0 and writes the original input |
| Driver.DecodedLength | multithreaded_compressor.cpp:197-233 | Decompression exits with 0 if and only if the header is readable and the payload holds the announced sizes; it then writes as many bytes as the original sizes add up to, and otherwise writes nothing |
| Driver.SumOriginalSlots | multithreaded_compressor.cpp:218 | Slots sized to their records' original sizes have the sum of those sizes as their total length |
| Findings.AllDeflatedIff | multithreaded_compressor.cpp:158 | The post-join check passes exactly when every chunk compressed |
| Findings.AllInflatedIff | multithreaded_compressor.cpp:218 | The post-join check passes exactly when every block decompressed |
| Findings.PayloadLonger | multithreaded_compressor.cpp:160 | A record that under-reports its slot makes the payload longer than the header announces |
| Findings.PayloadNotShorter | multithreaded_compressor.cpp:163 | Records that never over-report their slots announce no more payload than is written |
| Findings.FailedChunkBreaksFraming | multithreaded_compressor.cpp:158-179 | As written, a chunk that fails to compress still gives exit code 0, and the container written is not well framed |
| Findings.OneByteOutOfMemory | multithreaded_compressor.cpp:158-179 | A one-byte input with a compress2 that runs out of memory exits with 0 and writes a container that is not well framed |
| Findings.EncodeCheckedSound | multithreaded_compressor.cpp:158-188 | With the corrected check, compression exits with 0 exactly when the input is non-empty and every chunk compressed; it then writes a well-framed container that decompresses to the input, and otherwise writes nothing |
| Findings.FailedDecompressionStillSucceeds | multithreaded_compressor.cpp:218-238 | As written, a block that fails to decompress still gives exit code 0 and an output file |
| Findings.EmptyBlockDecodesToZeros | multithreaded_compressor.cpp:218-238 | A one-record container announcing an empty block exits with 0 and writes n zero bytes that were never compressed |
| Findings.EmptyRecordReadable | multithreaded_compressor.cpp:92-107 | The header with one record of compressed size 0 reads back in full |
| Findings.EmptyBlockFramed | multithreaded_compressor.cpp:202-208 | With nothing after that header, its one block is read as empty |
| Findings.EmptySlotZeros | multithreaded_compressor.cpp:218-233 | The slot of that failed block holds n zero bytes |
| Findings.StoredInflateEmpty | multithreaded_compressor.cpp:69-76 | Decompressing an empty block to a non-zero expected size fails and leaves that many zero bytes |
| Findings.DecodeCheckedSound | multithreaded_compressor.cpp:215-238 | With the corrected check, decompression exits with 0 exactly when the as-written run does and every block decompressed, and then writes the same bytes; otherwise it writes nothing |
| Findings.CheckedRoundTrip | multithreaded_compressor.cpp:110-239 | Whatever the corrected compressor writes, the corrected decompressor turns back into the input with exit code 0 |

## Left out

- zlib itself is left out: compressBound, compress2 and uncompress are the parameter `z`. The model relies only on the predicate `Lawful`.
- Threads and joining are left out. Each task writes only its own slot, so the fan-out is modelled as a loop over indices.
- File I/O is left out: opening, closing and open failures, namely the input file that cannot be opened at lines 118 and 194 and the output file that cannot be opened at lines 175 and 230. A file is a byte sequence read through `InStream` or written through `OutStream`.
- `file_size` is left out: it returns 0 for a missing file, so a missing input takes the same "empty input" exit. The input is passed as a byte sequence.
- Timing, the console messages, `total_compressed` (summed only to be printed) and the command line (`main`, `print_usage`, `stoi`) are left out.
- Driver.CompressFile: the model fixes the requested thread count to an `int` and the input size to one where `total_size + nthreads - 1` fits a uint64_t (`InRange`). It does not model what the code does past those bounds.
- Planner.ReadChunks: a short read of the input file (the file shrinking between `file_size` and the read) is left out. The input is the byte sequence whose size was measured.
- Container.ReadEntries: the allocation that `metas.resize(cnt)` makes for a huge count, and how it fails, are left out.
- Container.ReadBlocks: `comp_blocks[i].resize(metas[i].compressed_size)` and the `(streamsize)` cast at lines 204-205 take their size from the header. A huge size makes the allocation throw and the process abort; the model instead reads the block or fails cleanly with exit code 1.
- Codec.DecompressChunk: `outbuf.resize(dest_len)` at line 71 takes its size from the header. A huge size makes the allocation throw and the process abort; the model instead fills a slot of that size.
- Container.ReadHeader: the model reads little-endian. The code reads in host byte order.
- Streams.InStream.Read: a read of 0 bytes at the end of the stream succeeds. This matches `istream::read` when no earlier read has failed, and the container code only reads after successful reads.
- `orig_sizes` is computed as in the code but is not used afterwards, and that matches the code.

## Findings

| source | as written | input that shows it | evidently intended | confidence | as-written member | corrected member |
|---|---|---|---|---|---|---|
| multithreaded_compressor.cpp:158-179 | A chunk whose compress2 fails gets record compressed_size 0. Its slot still holds the compressBound bytes it was sized to, and they are written to the file; the run exits with 0. | A one-byte input, 1 thread, and a compress2 that returns Z_MEM_ERROR: the header announces a 0-byte payload and 14 bytes follow it | Fail the run when any chunk fails, and write no container | not executed | Findings.OneByteOutOfMemory | Findings.EncodeCheckedSound |
| multithreaded_compressor.cpp:218-238 | A chunk whose decompression fails is only reported; its slot, sized to the expected size, is written out and the run exits with 0. | A container with one record (compressed size 0, original size n > 0) and no payload: uncompress of an empty block fails, yet n zero bytes are written with exit code 0 | Fail the run when any chunk fails, and write no output | not executed | Findings.EmptyBlockDecodesToZeros | Findings.DecodeCheckedSound |
