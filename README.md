# MultiblockSHA256 in Dafny

MultiblockSHA256 is a command-line tool. It cuts a file into blocks of a chosen
size and computes the SHA-256 digest of every block on a pool of worker threads.
It then writes the digests out in block order. This project models the core of
`Program.cs` and proves what that core does:

- **Partitioning** (`partition.dfy`) models the block partition in
  `Main(string, long)` and the `BlockInfo` class. The partition runs under
  C#'s `checked` arithmetic with a truncating `long` division.
  - `Partition` builds the list of `BlockInfo` objects with the source's loop.
  - It is proved against the function `Partitioned`.
  - Lemmas state the block count, the layout, and exact coverage of the file.
  - Further lemmas cover the overflow conditions for positive and negative
    block sizes, and what a negative block size does. A zero block size throws
    `DivideByZero`, as the contract of `Partitioned` states.
- **Streaming** (`streaming.dfy`) models the body of the `ThreadProcess` worker
  for one block:
  - the buffer size capped at 16 MiB;
  - the number of reads and the length of the last read;
  - the seek, the chunked reads, and the `TransformBlock`/`TransformFinalBlock`
    calls;
  - the exception when a read returns fewer bytes than asked for.

  `FileStream` and `SHA256Managed` are small classes. The read loop is proved
  to compute the hash of exactly the block's bytes, or the short read that
  stops it.
- **Dispatch** (`dispatch.dfy`) models the rest of `Main`:
  - every block goes into the queue;
  - `min(ProcessorCount, blocks)` workers each drain the queue;
  - the stored digests are read out in `OrderBy(x => x.Sequence)` order.

  `Run` is proved to return exactly `ExpectedDigests`: the partition's
  exception, the first failing block's exception, or the digest of every block
  in block order.
- **Runtime** (`runtime.dfy`) holds the C# ranges of `int` and `long`, C#'s `/`
  and `%`, and the exceptions as values.

SHA-256 itself is a parameter `hash: seq<byte> -> Digest`. The file's content
is a `seq<byte>` that is given separately from the length read earlier. A file
that shrinks between the two therefore leads to the short-read exception, as in
the source.

The program does not validate its arguments or widen its counters:

- A block size of zero is not rejected up front. The division throws
  `DivideByZeroException`.
- A negative block size is not rejected either. C#'s truncating division yields
  at most one block, holding the last `fileLength % -blockSize` bytes. When the
  file is at least `-blockSize` bytes long, its leading bytes are never hashed
  (see `NegativeBlockSizeSkipsPrefix` and `NegativeBlockSizeExample`), and a
  file whose length `-blockSize` divides yields no blocks at all. A shorter
  non-empty file becomes one block at offset 0 and is hashed whole (see
  `NegativeBlockSizeShortFile`).
- Sequence numbers are 32-bit `int`. With a negative block size, the `(int)`
  cast of the final block's sequence number throws `OverflowException` instead
  of widening (see `NegativeBlockSizeOverflow`). With a positive block size the
  program cannot reach that exception: see "Left out" on the list's maximum
  length.
- A worker's exception is not collected and reported. It escapes the worker
  thread and ends the process.

## Model

| member | source | states |
|---|---|---|
| Runtime.Div | src/MultiblockSHA256/Program.cs:53 | `fileLength / blockSize` truncates toward zero: `0 <= b*q <= a < b*q + |b|` for a non-negative length `a`. |
| Runtime.Rem | src/MultiblockSHA256/Program.cs:54 | `fileLength % blockSize` is what the truncating division leaves over: `a == b*q + r` and `0 <= r < |b|`. |
| Runtime.DivRemNonNegative | src/MultiblockSHA256/Program.cs:53-54 | For a length, C#'s `/` and `%` equal the Euclidean ones when the divisor is positive. When it is negative, they are those of the divisor's absolute value with the quotient negated. |
| Partitioning.BlockInfo.constructor | src/MultiblockSHA256/Program.cs:170-186 | A new `BlockInfo` holds the given sequence, offset and size, and no digest yet. |
| Partitioning.AddFullBlocks | src/MultiblockSHA256/Program.cs:58-64 | The counted loop adds blocks `(i, i*blockSize, blockSize)` for `i` from 0, as fresh distinct objects without digests. It throws `Overflow` exactly when there are more than `int.MaxValue` full blocks (the checked `i++`). |
| Partitioning.Partitioned | src/MultiblockSHA256/Program.cs:53-69 | The partition throws `DivideByZero` exactly when the block size is zero. The only other exception it can throw is `Overflow`. |
| Partitioning.Partition | src/MultiblockSHA256/Program.cs:53-69 | The partition fails exactly when `Partitioned` fails, with the same exception. Otherwise its blocks describe exactly the list of `Partitioned`, are distinct fresh objects, and carry no digest. |
| Partitioning.PartitionOverflow | src/MultiblockSHA256/Program.cs:58-63 | With a positive block size, the partition fails exactly when `fileLength / blockSize > int.MaxValue`, and then with `Overflow`. |
| Partitioning.PartitionCount | src/MultiblockSHA256/Program.cs:53-68 | The block count is the number of full blocks plus one exactly when there is a remainder. That is `fileLength / blockSize` rounded up, and it is zero for an empty file. |
| Partitioning.PartitionLayout | src/MultiblockSHA256/Program.cs:60-67 | Block `i` has sequence `i` and offset `i*blockSize`. Its size is `min(blockSize, fileLength - i*blockSize)`, between 1 and `blockSize`. Only the last block can be short, and only when there is a remainder. |
| Partitioning.PartitionCoversFile | src/MultiblockSHA256/Program.cs:53-69 | With a positive block size, the blocks lie end to end from 0 to `fileLength`, and their sizes add up to `fileLength`. |
| Partitioning.PartitionWellFormed | src/MultiblockSHA256/Program.cs:53-69 | For every block size the partition accepts, each block is non-empty and lies inside the file, and the sequence numbers strictly increase. |
| Partitioning.NegativeBlockSizeSkipsPrefix | src/MultiblockSHA256/Program.cs:53-67 | A negative block size yields at most one block, of size `fileLength % -blockSize`. When the file is at least `-blockSize` long, the blocks cover less than the file. |
| Partitioning.NegativeBlockSizeOverflow | src/MultiblockSHA256/Program.cs:53-67 | With a negative block size, the partition fails exactly when there is a remainder and `fileLength / -blockSize` exceeds `2^31`, so that the `(int)` cast of the negated count leaves the 32-bit range. It then fails with `Overflow`. |
| Partitioning.NegativeBlockSizeShortFile | src/MultiblockSHA256/Program.cs:53-67 | With a negative block size, a non-empty file shorter than `-blockSize` becomes the single block `(0, 0, fileLength)`, which covers the whole file. |
| Partitioning.NegativeBlockSizeExample | src/MultiblockSHA256/Program.cs:53-67 | A 10-byte file with block size -3 yields the single block `(-3, 9, 1)`. |
| Streaming.Available | src/MultiblockSHA256/Program.cs:144 | A read returns all the bytes asked for exactly when the file holds them, otherwise fewer. It never returns more than asked. |
| Streaming.FileStream.constructor | src/MultiblockSHA256/Program.cs:117 | A newly opened stream reads the given file content and starts at position 0. |
| Streaming.FileStream.Seek | src/MultiblockSHA256/Program.cs:126 | Setting `Position` moves the next read to the block's offset. |
| Streaming.FileStream.Read | src/MultiblockSHA256/Program.cs:144 | `Read(buffer, 0, count)` returns `Available` bytes, copies exactly the file's bytes at the position into the front of the buffer, and advances the position by the count returned. |
| Streaming.Sha256Managed.constructor | src/MultiblockSHA256/Program.cs:121 | A new hash object has absorbed nothing and has no hash yet. |
| Streaming.Sha256Managed.TransformBlock | src/MultiblockSHA256/Program.cs:157 | `TransformBlock` appends the first `count` bytes of the buffer to the absorbed input. |
| Streaming.Sha256Managed.TransformFinalBlock | src/MultiblockSHA256/Program.cs:153 | `TransformFinalBlock` appends the last chunk and makes `Hash` the digest of everything absorbed. |
| Streaming.Chunks | src/MultiblockSHA256/Program.cs:140-159 | The reference cutting of a block into reads has at least one read. Each read is 1 to `bufferSize` bytes, and together they add up to the block size. |
| Streaming.ChunksShape | src/MultiblockSHA256/Program.cs:128-143 | `steps` reads of which all but the last are a full buffer, the last being `finalReadCount`, are exactly the reference cutting of `(steps-1)*bufferSize + finalReadCount` bytes. |
| Streaming.PlanReads | src/MultiblockSHA256/Program.cs:123-138 | The buffer is `min(size, 16 MiB)`. `steps` is the size divided by the buffer rounded up. The last read is `size - (steps-1)*bufferSize` bytes, a full buffer exactly when the buffer divides the size. The reads the loop makes are the reference cutting. |
| Streaming.ReadAll | src/MultiblockSHA256/Program.cs:140-149 | Reading consecutive chunks returns as many bytes as the chunks add up to, and all of them lie in the file. A failure is always a short read that returned fewer bytes than expected. |
| Streaming.ReadAllCorrect | src/MultiblockSHA256/Program.cs:140-149 | Reading consecutive chunks yields exactly the file's bytes from the start position when the file holds them all. Otherwise it stops with a short read where fewer bytes came back than were asked for. |
| Streaming.ReadAllSucceeds | src/MultiblockSHA256/Program.cs:140-149 | When the file holds every chunk, the reads return exactly the bytes from `position` to `position + Sum(chunks)`. |
| Streaming.ReadAllFails | src/MultiblockSHA256/Program.cs:144-149 | When the chunks run past the end of the file, some read comes back short and throws. |
| Streaming.BlockDigest | src/MultiblockSHA256/Program.cs:121-162 | A block's digest is computed only when the block lies inside the file. A failure is always a short read that returned fewer bytes than expected. |
| Streaming.BlockDigestIsHashOfBlock | src/MultiblockSHA256/Program.cs:121-162 | A worker's digest of a block is the hash of exactly the file's bytes `[offset, offset+size)`. It fails with a short read exactly when the file no longer holds all of them. |
| Streaming.BufferSizeIndependence | src/MultiblockSHA256/Program.cs:123-159 | Reading a block through any buffer size succeeds in the same cases, and yields the same bytes, as reading it in one piece. |
| Streaming.ReadChunk | src/MultiblockSHA256/Program.cs:144-158 | One step of the read loop reads `Available` bytes and advances the position by that count. When every byte asked for came back, the step feeds exactly the file's bytes at the old position to the hash, the final step makes `Hash` the digest of everything absorbed, and any other step leaves `Hash` as it was. On a short read the hash object is untouched. |
| Streaming.StreamReads | src/MultiblockSHA256/Program.cs:140-162 | The read loop returns the hash of what the planned reads yield from the start position, or the short read that stops them. |
| Streaming.ComputeDigest | src/MultiblockSHA256/Program.cs:121-162 | A worker's code for one block returns the block's digest as `BlockDigest` defines it. |
| Dispatch.BlockQueue.constructor | src/MultiblockSHA256/Program.cs:55 | A new queue is empty. |
| Dispatch.BlockQueue.Enqueue | src/MultiblockSHA256/Program.cs:75 | `Enqueue` appends the block at the back. |
| Dispatch.BlockQueue.TryDequeue | src/MultiblockSHA256/Program.cs:119 | `TryDequeue` succeeds exactly when the queue is non-empty. On success it removes and returns the oldest block, and otherwise it leaves the queue unchanged. |
| Dispatch.DigestAll | src/MultiblockSHA256/Program.cs:119-166 | Hashing a list of blocks in order, when it succeeds, gives one digest per block. When it fails, the exception is a short read. |
| Dispatch.DigestAllCorrect | src/MultiblockSHA256/Program.cs:119-166 | Hashing a list of blocks succeeds exactly when the file holds every block. Digest `i` is then the hash of block `i`'s bytes, and otherwise the exception is a short read. |
| Dispatch.DigestAllSucceeds | src/MultiblockSHA256/Program.cs:119-166 | When the file holds every block, digest `i` is the hash of block `i`'s bytes. |
| Dispatch.DigestAllFails | src/MultiblockSHA256/Program.cs:119-166 | When some block runs past the end of the file, hashing the list fails with a short read. |
| Dispatch.DigestAllByBlock | src/MultiblockSHA256/Program.cs:119-166 | Hashing the blocks one at a time, as a worker does, agrees with `DigestAll`. When every block hashes, the digests are `DigestAll`'s. When the block after the hashed ones fails, `DigestAll` fails with that block's exception. |
| Dispatch.ThreadProcess | src/MultiblockSHA256/Program.cs:115-168 | A worker dequeues the blocks in order. For each block it hashes, it stores that block's digest in it. It succeeds exactly when it hashed every queued block, and then the queue is empty. Otherwise the next block's digest fails with the exception the worker throws. That block and the ones after it keep their stored value, and the ones after it stay queued. |
| Dispatch.Insert | src/MultiblockSHA256/Program.cs:99 | Inserting a block into a list sorted by sequence number keeps it sorted, and adds exactly that block. |
| Dispatch.OrderBySequence | src/MultiblockSHA256/Program.cs:99 | `OrderBy(x => x.Sequence)` returns a permutation of the blocks, sorted by sequence number. |
| Dispatch.OrderBySequenceKeepsIncreasing | src/MultiblockSHA256/Program.cs:99 | Blocks whose sequence numbers already increase come out of the ordering unchanged. |
| Dispatch.RunWorkers | src/MultiblockSHA256/Program.cs:73-94 | Enqueuing every block and running `min(ProcessorCount, blocks)` workers succeeds exactly when every block can be hashed, and otherwise fails with the first exception. On success block `i` stores digest `i`. |
| Dispatch.StoredDigests | src/MultiblockSHA256/Program.cs:99-107 | Writing the stored digests of a list of blocks gives them in list order. |
| Dispatch.OrderedDigests | src/MultiblockSHA256/Program.cs:98-107 | Writing the digests in `OrderBy(x => x.Sequence)` order, for blocks with increasing sequence numbers, gives digest `i` at position `i`. |
| Dispatch.ExpectedDigests | src/MultiblockSHA256/Program.cs:53-107 | The expected output succeeds only when the partition does, with one digest per block. When it fails, the exception is a short read exactly when the partition succeeded. |
| Dispatch.Run | src/MultiblockSHA256/Program.cs:53-107 | `Main` after the file length is known returns the partition's exception, the first failing block's exception, or the digest of each block in block order. Each digest is the hash of the block's bytes, as `DigestAllCorrect` states. |

## Left out

- Command-line parsing with `System.CommandLine` and its default block size of
  1 GiB (lines 16-36) are not modelled. `Run` takes the block size as a
  parameter.
- The `FileInfo` lookup, the "File not found." exit and the length read
  (lines 40-49) are not modelled. `Run` takes the length and the content as
  parameters.
- Failures when opening the `FileStream` and the `SHA256Managed` object (lines
  117, 121), and their disposal, are left out. They are I/O and resource
  handling, and opening is assumed to succeed.
- Real threads, `Thread.Start`/`Join` and the `ConcurrentQueue`'s thread safety
  (lines 81-94) are left out.
  - Dispatch.RunWorkers runs the workers one after another. The first worker
    drains the queue and the others find it empty. Interleavings among
    concurrent workers are not modelled. Because every block's digest depends
    only on the block, the stored digests are the same under any schedule. With
    several failing blocks, a concurrent run may report a different one than
    the first.
- SHA-256 itself is a parameter `hash`. Only the fact that the digest is the
  hash of the bytes fed in, in order, is modelled.
- Console output is not modelled: the hex formatting, the progress lines and
  the stopwatch timing (lines 40, 51, 71, 96, 101-110, 165). The model returns
  the digests as values.
- Streaming.FileStream.Read returns fewer bytes than asked only at the end of
  the file. A real `FileStream.Read` may also return a short count in other
  cases, which the source would also treat as an error.
- Partitioning.Partitioned and Partitioning.PartitionOverflow report
  `Overflow` for a positive block size with more than `int.MaxValue` full
  blocks. The program never gets there. `allBlocks` is a `List<BlockInfo>`
  (line 56), which cannot grow past the runtime's maximum array length
  (0x7FFFFFC7 elements on .NET 6 and later, 0x7FEFFFFF before). So `Add`
  (line 62) throws `OutOfMemoryException` once the list reaches that length,
  before the checked `i++` (line 60) can overflow. The model's `Overflow` stands
  for that exception. Counts between the maximum length and `int.MaxValue`
  succeed in the model but throw in the program. The limit depends on the
  runtime version, so it is not a constant of the model.
- Partitioning.AddFullBlocks has the same gap: its `Overflow` above
  `int.MaxValue` full blocks stands for the list's `OutOfMemoryException` at its
  maximum length. Running out of memory earlier is not modelled either.
- The setters of `BlockInfo.Sequence`, `Offset` and `Size` are never called
  after construction, so these fields are constants.
- Dispatch.OrderBySequence is proved to sort and to permute. That it is stable
  for equal sequence numbers is not proved. The partition never produces equal
  numbers.
- Streaming.StreamReads and Streaming.ComputeDigest use an unbounded loop
  counter. In the source the counter `i` is an `int` compared with the `long`
  step count (line 140), outside any `checked` block. For a block of more than
  2^55 bytes it wraps past `int.MaxValue` before the last step. The final
  `TransformFinalBlock` is then never reached, and the loop reads on until a
  short read throws. The model's counter reaches the last step.
- The `(int)` cast of the read count (line 143) is not modelled as a
  conversion. The count is at most 16 MiB, so the cast never changes it.
