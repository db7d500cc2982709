/** The per-block body of `ThreadProcess`: a worker hashes one block with a
    bounded buffer. It picks `bufferSize = min(size, 16 MiB)`, works out how many
    reads the block takes and how long the last one is, seeks to the block's
    offset and reads the chunks in order, feeding every chunk but the last to
    `TransformBlock` and the last to `TransformFinalBlock`. A read that returns
    fewer bytes than asked for throws.

    SHA-256 itself is not modelled: the digest function is a parameter
    `hash: seq<byte> -> Digest`, and the hash object only records the bytes it
    has absorbed. */
module Streaming {
  import opened Runtime
  import opened Partitioning

  /** The largest buffer a worker allocates: 16 MiB. */
  const MAX_BUFFER_SIZE: int := 16 * 1024 * 1024

  /** How many bytes a read of `count` bytes at `position` returns from a file
      holding `data`: all of them while the file lasts, what is left at its
      end, nothing past it. */
  function Available(data: seq<byte>, position: int, count: int): (n: int)
    requires position >= 0 && count >= 0
    ensures 0 <= n <= count
    ensures count > 0 ==> (n == count <==> position + count <= |data|)
    ensures n == 0 || position + n <= |data|
  {
    if position >= |data| then 0 else Min(count, |data| - position)
  }

  /** The `FileStream` a worker opens: the file's bytes as they are while it
      reads them, and the position of the next read. */
  class FileStream {
    const data: seq<byte>
    var position: int

    constructor (data: seq<byte>)
      ensures this.data == data && position == 0
    {
      this.data := data;
      position := 0;
    }

    /** `fs.Position = p`; a position past the end is allowed. */
    method Seek(p: int)
      requires p >= 0
      modifies this
      ensures position == p
    {
      position := p;
    }

    /** `fs.Read(buffer, 0, count)`: copies the bytes at the position into the
        front of the buffer and moves past them. */
    method Read(buffer: array<byte>, count: int) returns (n: int)
      requires 0 <= count <= buffer.Length && position >= 0
      modifies this, buffer
      ensures n == Available(data, old(position), count)
      ensures position == old(position) + n
      ensures n > 0 ==> buffer[..n] == data[old(position)..old(position) + n]
    {
      var start := position;
      n := Available(data, start, count);
      for k := 0 to n
        invariant forall j :: 0 <= j < k ==> buffer[j] == data[start + j]
      {
        buffer[k] := data[start + k];
      }
      assert n > 0 ==> buffer[..n] == data[start..start + n];
      position := start + n;
    }
  }

  /** `SHA256Managed` as the bytes fed to it so far; `TransformFinalBlock`
      makes `Hash` available as the digest of all of them. */
  class Sha256Managed {
    const hash: seq<byte> -> Digest
    var absorbed: seq<byte>
    var hashValue: Option<Digest>

    constructor (hash: seq<byte> -> Digest)
      ensures this.hash == hash && absorbed == [] && hashValue == None
    {
      this.hash := hash;
      absorbed := [];
      hashValue := None;
    }

    method TransformBlock(buffer: array<byte>, count: int)
      requires 0 <= count <= buffer.Length
      modifies this
      ensures absorbed == old(absorbed + buffer[..count])
      ensures hashValue == old(hashValue)
    {
      absorbed := absorbed + buffer[..count];
    }

    method TransformFinalBlock(buffer: array<byte>, count: int)
      requires 0 <= count <= buffer.Length
      modifies this
      ensures absorbed == old(absorbed + buffer[..count])
      ensures hashValue == Some(hash(absorbed))
    {
      absorbed := absorbed + buffer[..count];
      hashValue := Some(hash(absorbed));
    }
  }

  /** Every read asks for at least one byte. */
  predicate Positive(chunks: seq<int>) {
    forall k :: 0 <= k < |chunks| ==> chunks[k] > 0
  }

  function Sum(s: seq<int>): int {
    if s == [] then 0 else s[0] + Sum(s[1..])
  }

  /** The reference way to cut `remaining` bytes into reads of at most
      `bufferSize`: a full buffer while more than that is left, then the rest.
      Every read is 1 to `bufferSize` bytes and together they are the block. */
  function Chunks(remaining: int, bufferSize: int): (chunks: seq<int>)
    requires remaining > 0 && bufferSize > 0
    ensures |chunks| >= 1
    ensures forall k :: 0 <= k < |chunks| ==> 1 <= chunks[k] <= bufferSize
    ensures Sum(chunks) == remaining
    decreases remaining
  {
    if remaining <= bufferSize then [remaining]
    else
      var rest := Chunks(remaining - bufferSize, bufferSize);
      assert ([bufferSize] + rest)[1..] == rest;
      [bufferSize] + rest
  }

  /** The reads the worker's loop asks for: `steps` of them, the last
      `finalReadCount` bytes and the others a full buffer. */
  function PlanSizes(steps: nat, bufferSize: int, finalReadCount: int): seq<int> {
    seq(steps, k => if k == steps - 1 then finalReadCount else bufferSize)
  }

  /** The first read of a plan, and the plan that is left after it. */
  lemma PlanStep(steps: nat, bufferSize: int, finalReadCount: int)
    requires steps >= 1 && bufferSize > 0 && finalReadCount > 0
    ensures Positive(PlanSizes(steps, bufferSize, finalReadCount))
    ensures PlanSizes(steps, bufferSize, finalReadCount)[0] == if steps == 1 then finalReadCount else bufferSize
    ensures PlanSizes(steps, bufferSize, finalReadCount)[1..] == PlanSizes(steps - 1, bufferSize, finalReadCount)
  {
  }

  lemma {:induction false} ChunksShape(size: int, bufferSize: int, steps: int, finalReadCount: int)
    requires steps >= 1 && 1 <= finalReadCount <= bufferSize
    requires size == (steps - 1) * bufferSize + finalReadCount
    ensures Chunks(size, bufferSize) == PlanSizes(steps, bufferSize, finalReadCount)
    decreases steps
  {
    if steps > 1 {
      assert (steps - 1) * bufferSize == (steps - 2) * bufferSize + bufferSize;
      ChunksShape(size - bufferSize, bufferSize, steps - 1, finalReadCount);
      assert [bufferSize] + PlanSizes(steps - 1, bufferSize, finalReadCount) == PlanSizes(steps, bufferSize, finalReadCount);
    }
  }

  /** Lines 123-138 of the worker: the buffer size, the number of reads and the
      length of the last read, with `steps` and `finalReadCount` adjusted in place
      when the size does not divide evenly. The plan is the reference
      chunking: `steps` is the size divided by the buffer size rounded up, and
      the last read is a full buffer exactly when the buffer size divides the
      block size. */
  method PlanReads(size: int) returns (bufferSize: int, steps: int, finalReadCount: int)
    requires 0 < size <= INT64_MAX
    ensures bufferSize == Min(size, MAX_BUFFER_SIZE)
    ensures steps >= 1 && 1 <= finalReadCount <= bufferSize
    ensures (steps - 1) * bufferSize < size <= steps * bufferSize
    ensures (steps - 1) * bufferSize + finalReadCount == size
    ensures finalReadCount == bufferSize <==> size % bufferSize == 0
    ensures Chunks(size, bufferSize) == PlanSizes(steps, bufferSize, finalReadCount)
  {
    bufferSize := Min(size, MAX_BUFFER_SIZE);
    steps := size / bufferSize;
    finalReadCount := size % bufferSize;
    if finalReadCount == 0 {
      finalReadCount := bufferSize;
    } else {
      steps := steps + 1;
    }
    assert size == (steps - 1) * bufferSize + finalReadCount;
    assert steps * bufferSize == (steps - 1) * bufferSize + bufferSize;
    ChunksShape(size, bufferSize, steps, finalReadCount);
  }

  /** Reading `chunks` one after the other from `position`: the bytes read, or
      the short read that stops it. */
  function ReadAll(data: seq<byte>, position: int, chunks: seq<int>): (r: Result<seq<byte>>)
    requires position >= 0
    requires Positive(chunks)
    ensures r.Success? ==> |r.value| == Sum(chunks)
    ensures r.Success? && chunks != [] ==> position + Sum(chunks) <= |data|
    ensures r.Failure? ==> r.error.ShortRead? && 0 <= r.error.got < r.error.expected
    decreases |chunks|
  {
    if chunks == [] then Success([])
    else
      var got := Available(data, position, chunks[0]);
      if got != chunks[0] then Failure(ShortRead(chunks[0], got))
      else Prefixed(data[position..position + got], ReadAll(data, position + got, chunks[1..]))
  }

  lemma {:induction false} SumPositive(s: seq<int>)
    requires Positive(s)
    ensures Sum(s) >= |s|
  {
    if s != [] {
      SumPositive(s[1..]);
    }
  }

  /** Reading consecutive chunks succeeds exactly when the file holds all their
      bytes, and then yields exactly the bytes from `position` on; otherwise
      it stops at a read that returned fewer bytes than asked for. */
  lemma ReadAllCorrect(data: seq<byte>, position: int, chunks: seq<int>)
    requires position >= 0
    requires Positive(chunks)
    ensures Sum(chunks) >= |chunks|
    ensures position + Sum(chunks) <= |data| ==>
      ReadAll(data, position, chunks) == Success(data[position..position + Sum(chunks)])
    ensures chunks != [] && position + Sum(chunks) > |data| ==>
      var r := ReadAll(data, position, chunks);
      r.Failure? && r.error.ShortRead? && 0 <= r.error.got < r.error.expected
  {
    SumPositive(chunks);
    if position + Sum(chunks) <= |data| {
      ReadAllSucceeds(data, position, chunks, position + Sum(chunks));
    } else if chunks != [] {
      ReadAllFails(data, position, chunks);
    }
  }

  /** A first read that the file can satisfy puts its bytes in front of what
      the remaining reads yield. */
  lemma ReadAllCons(data: seq<byte>, position: int, chunks: seq<int>, end: int)
    requires position >= 0 && chunks != [] && Positive(chunks)
    requires position + chunks[0] <= end <= |data|
    requires ReadAll(data, position + chunks[0], chunks[1..]) == Success(data[position + chunks[0]..end])
    ensures ReadAll(data, position, chunks) == Success(data[position..end])
  {
    var c := chunks[0];
    assert Available(data, position, c) == c;
    assert data[position..position + c] + data[position + c..end] == data[position..end];
  }

  lemma {:induction false} ReadAllSucceeds(data: seq<byte>, position: int, chunks: seq<int>, end: int)
    requires 0 <= position <= end <= |data|
    requires Positive(chunks) && end == position + Sum(chunks)
    ensures ReadAll(data, position, chunks) == Success(data[position..end])
    decreases |chunks|
  {
    if chunks == [] {
      assert data[position..end] == [];
    } else {
      var c, rest := chunks[0], chunks[1..];
      assert Positive(rest) && position + c + Sum(rest) == end && Sum(rest) >= 0 by {
        SumPositive(rest);
      }
      ReadAllSucceeds(data, position + c, rest, end);
      assert Positive(chunks);
      ReadAllCons(data, position, chunks, end);
    }
  }

  lemma {:induction false} ReadAllFails(data: seq<byte>, position: int, chunks: seq<int>)
    requires position >= 0
    requires Positive(chunks)
    requires chunks != [] && position + Sum(chunks) > |data|
    ensures var r := ReadAll(data, position, chunks);
      r.Failure? && r.error.ShortRead? && 0 <= r.error.got < r.error.expected
    decreases |chunks|
  {
    var c, rest := chunks[0], chunks[1..];
    assert Sum(chunks) == c + Sum(rest);
    var got := Available(data, position, c);
    if got == c {
      assert rest != [];
      ReadAllFails(data, position + c, rest);
    }
  }

  /** One successful read moves the bytes it returned from the pending reads
      to the absorbed prefix. */
  lemma AbsorbChunk(data: seq<byte>, absorbed: seq<byte>, absorbed': seq<byte>,
                    position: int, position': int, rest: seq<int>)
    requires position >= 0 && rest != [] && Positive(rest)
    requires Available(data, position, rest[0]) == rest[0]
    requires position' == position + rest[0]
    requires position' <= |data| ==> absorbed' == absorbed + data[position..position']
    ensures position' <= |data| && Positive(rest[1..])
    ensures Prefixed(absorbed, ReadAll(data, position, rest))
         == Prefixed(absorbed', ReadAll(data, position', rest[1..]))
  {
    assert Positive(rest[1..]);
    PrefixedTwice(absorbed, data[position..position'], ReadAll(data, position', rest[1..]));
  }

  /** The digest a worker stores for block `d` of a file holding `data`, or the
      short read that stops it. */
  function BlockDigest(data: seq<byte>, d: Descriptor, hash: seq<byte> -> Digest): (r: Result<Digest>)
    requires d.offset >= 0 && d.size > 0
    ensures r.Success? ==> d.offset + d.size <= |data|
    ensures r.Failure? ==> r.error.ShortRead? && 0 <= r.error.got < r.error.expected
  {
    match ReadAll(data, d.offset, Chunks(d.size, Min(d.size, MAX_BUFFER_SIZE)))
    case Success(bytes) => Success(hash(bytes))
    case Failure(e) => Failure(e)
  }

  /** A worker's digest of a block is the hash of exactly the file's bytes
      `[offset, offset + size)`; it fails, with a short read, exactly when the
      file no longer holds all of them. */
  lemma BlockDigestIsHashOfBlock(data: seq<byte>, d: Descriptor, hash: seq<byte> -> Digest)
    requires d.offset >= 0 && d.size > 0
    ensures d.offset + d.size <= |data| ==>
      BlockDigest(data, d, hash) == Success(hash(data[d.offset..d.offset + d.size]))
    ensures d.offset + d.size > |data| ==>
      var r := BlockDigest(data, d, hash);
      r.Failure? && r.error.ShortRead? && 0 <= r.error.got < r.error.expected
  {
    ReadAllCorrect(data, d.offset, Chunks(d.size, Min(d.size, MAX_BUFFER_SIZE)));
  }

  /** Streaming a block through a buffer of any size reads the same bytes as
      reading it in one pass, and fails in the same cases: the digest does not
      depend on the buffer size. */
  lemma BufferSizeIndependence(data: seq<byte>, position: int, size: int, bufferSize: int)
    requires position >= 0 && size > 0 && bufferSize > 0
    ensures ReadAll(data, position, Chunks(size, bufferSize)).Success?
        <==> ReadAll(data, position, [size]).Success?
    ensures ReadAll(data, position, Chunks(size, bufferSize)).Success? ==>
      ReadAll(data, position, Chunks(size, bufferSize)).value == ReadAll(data, position, [size]).value
  {
    ReadAllCorrect(data, position, Chunks(size, bufferSize));
    ReadAllCorrect(data, position, [size]);
    assert Sum([size]) == size by {
      assert [size][1..] == [];
    }
  }

  /** The worker's code for one block, up to the digest it stores. */
  method ComputeDigest(fs: FileStream, block: BlockInfo, hash: seq<byte> -> Digest) returns (r: Result<Digest>)
    requires block.offset >= 0 && block.size > 0
    modifies fs
    ensures r == BlockDigest(fs.data, block.Describe(), hash)
  {
    var sha := new Sha256Managed(hash);
    var bufferSize, steps, finalReadCount := PlanReads(block.size);
    var buffer := new byte[bufferSize];
    fs.Seek(block.offset);
    r := StreamReads(fs, sha, buffer, steps, finalReadCount);
  }

  /** One step of the read loop: reads up to `count` bytes at the position
      and, when all of them came back, feeds them to the hash, finishing it on
      the final step. */
  method ReadChunk(fs: FileStream, sha: Sha256Managed, buffer: array<byte>, count: int, isFinalStep: bool)
    returns (n: int)
    requires 1 <= count <= buffer.Length && fs.position >= 0
    modifies fs, sha, buffer
    ensures n == Available(fs.data, old(fs.position), count)
    ensures fs.position == old(fs.position) + n
    ensures n != count ==> unchanged(sha)
    ensures n == count ==> sha.absorbed == old(sha.absorbed) + fs.data[old(fs.position)..fs.position]
    ensures n == count && isFinalStep ==> sha.hashValue == Some(sha.hash(sha.absorbed))
    ensures n == count && !isFinalStep ==> sha.hashValue == old(sha.hashValue)
  {
    n := fs.Read(buffer, count);
    if n == count {
      if isFinalStep {
        sha.TransformFinalBlock(buffer, count);
      } else {
        sha.TransformBlock(buffer, count);
      }
    }
  }

  /** The read loop of the worker (lines 140-162): `steps` reads into `buffer`,
      all but the last a full buffer, each fed to the hash object as it
      arrives; the digest of everything read, or the first short read. */
  method StreamReads(fs: FileStream, sha: Sha256Managed, buffer: array<byte>, steps: int, finalReadCount: int)
    returns (r: Result<Digest>)
    requires steps >= 1 && 1 <= finalReadCount <= buffer.Length
    requires fs.position >= 0 && sha.absorbed == []
    modifies fs, sha, buffer
    ensures r == match ReadAll(fs.data, old(fs.position), PlanSizes(steps, buffer.Length, finalReadCount))
                 case Success(bytes) => Success(sha.hash(bytes))
                 case Failure(e) => Failure(e)
  {
    var bufferSize := buffer.Length;
    ghost var chunks := PlanSizes(steps, bufferSize, finalReadCount);
    ghost var outcome := ReadAll(fs.data, fs.position, chunks);
    ghost var rest := chunks;
    var i := 0;
    while i < steps
      invariant 0 <= i <= steps && fs.position >= 0
      invariant rest == PlanSizes(steps - i, bufferSize, finalReadCount)
      invariant Positive(rest)
      invariant outcome == Prefixed(sha.absorbed, ReadAll(fs.data, fs.position, rest))
      invariant i == steps ==> sha.hashValue == Some(sha.hash(sha.absorbed))
    {
      var isFinalStep := i == steps - 1;
      // At most 16 MiB, so the `(int)` cast of the source keeps the value.
      var expectedCount := if isFinalStep then finalReadCount else bufferSize;
      ghost var position := fs.position;
      PlanStep(steps - i, bufferSize, finalReadCount);
      PlanStep(if steps - i > 1 then steps - i - 1 else 1, bufferSize, finalReadCount);
      ghost var absorbed := sha.absorbed;
      var count := ReadChunk(fs, sha, buffer, expectedCount, isFinalStep);
      if count != expectedCount {
        assert ReadAll(fs.data, position, rest) == Failure(ShortRead(expectedCount, count));
        return Failure(ShortRead(expectedCount, count));
      }
      AbsorbChunk(fs.data, absorbed, sha.absorbed, position, fs.position, rest);
      rest := rest[1..];
      i := i + 1;
    }
    assert rest == [];
    assert sha.absorbed + [] == sha.absorbed;
    assert outcome == Success(sha.absorbed);
    return Success(sha.hashValue.value);
  }
}
