/** The block partition at the start of `Main(string, long)`: the file length is
    cut into `fileLength / blockSize` full blocks and, when the division leaves
    something over, one final shorter block. The loop runs in a `checked`
    context, so each C# overflow is an exception here. */
module Partitioning {
  import opened Runtime

  /** What a `BlockInfo` is made with: its sequence number, the byte offset where
      it starts and its length in bytes. */
  datatype Descriptor = Descriptor(sequence: int, offset: int, size: int)

  /** `BlockInfo`. Its sequence, offset and size are set by the constructor and
      never assigned again; the digest is stored later by the worker that
      takes the block from the queue. */
  class BlockInfo {
    const sequence: int32
    const offset: int64
    const size: int64
    var sha256: Option<Digest>

    constructor (sequence: int32, offset: int64, size: int64)
      ensures this.sequence == sequence && this.offset == offset && this.size == size
      ensures sha256 == None
    {
      this.sequence := sequence;
      this.offset := offset;
      this.size := size;
      sha256 := None;
    }

    function Describe(): Descriptor {
      Descriptor(sequence, offset, size)
    }
  }

  function Descriptors(blocks: seq<BlockInfo>): (ds: seq<Descriptor>)
    ensures |ds| == |blocks|
    ensures forall i :: 0 <= i < |blocks| ==> ds[i] == blocks[i].Describe()
  {
    seq(|blocks|, i requires 0 <= i < |blocks| => blocks[i].Describe())
  }

  lemma DescriptorsAppend(blocks: seq<BlockInfo>, b: BlockInfo)
    ensures Descriptors(blocks + [b]) == Descriptors(blocks) + [b.Describe()]
  {
    assert forall i :: 0 <= i < |blocks| ==> (blocks + [b])[i] == blocks[i];
  }

  /** No object appears twice. */
  predicate Distinct<T(==)>(s: seq<T>) {
    forall i, j :: 0 <= i < j < |s| ==> s[i] != s[j]
  }

  lemma DistinctAppend<T>(s: seq<T>, x: T)
    requires Distinct(s) && x !in s
    ensures Distinct(s + [x])
  {
  }

  /** The blocks the counted loop adds: `n` of them, each `blockSize` long. */
  function FullBlocks(n: nat, blockSize: int): seq<Descriptor> {
    seq(n, i => Descriptor(i, i * blockSize, blockSize))
  }

  lemma FullBlocksAppend(n: nat, blockSize: int)
    ensures FullBlocks(n + 1, blockSize) == FullBlocks(n, blockSize) + [Descriptor(n, n * blockSize, blockSize)]
  {
  }

  /** The list the partition builds for `fileLength` and any `long` block size,
      or the exception it throws: `DivideByZero` for a zero block size (the
      division), `Overflow` when the `int` loop counter would pass
      `int.MaxValue` (the checked `i++`), or when the block count does not fit
      the `(int)` cast of the final block's sequence number. */
  function Partitioned(fileLength: int, blockSize: int): (r: Result<seq<Descriptor>>)
    requires 0 <= fileLength <= INT64_MAX && INT64_MIN <= blockSize <= INT64_MAX
    ensures r == Failure(DivideByZero) <==> blockSize == 0
    ensures r.Failure? ==> r.error.DivideByZero? || r.error.Overflow?
  {
    if blockSize == 0 then Failure(DivideByZero)
    else
      var fullBlocksCount := Div(fileLength, blockSize);
      var finalBlockSize := Rem(fileLength, blockSize);
      if fullBlocksCount > INT32_MAX then Failure(Overflow)
      else if finalBlockSize > 0 && !InInt32(fullBlocksCount) then Failure(Overflow)
      else
        var full := FullBlocks(if fullBlocksCount > 0 then fullBlocksCount else 0, blockSize);
        if finalBlockSize > 0
        then Success(full + [Descriptor(fullBlocksCount, fullBlocksCount * blockSize, finalBlockSize)])
        else Success(full)
  }

  /** The sum of the block sizes. */
  function TotalSize(blocks: seq<Descriptor>): int {
    if blocks == [] then 0 else TotalSize(blocks[..|blocks| - 1]) + blocks[|blocks| - 1].size
  }

  /** Each block starts where the one before it ends. */
  predicate Contiguous(blocks: seq<Descriptor>) {
    forall i :: 0 < i < |blocks| ==> blocks[i - 1].offset + blocks[i - 1].size == blocks[i].offset
  }

  /** The blocks lie end to end from byte 0 to byte `length`. */
  predicate Tiles(blocks: seq<Descriptor>, length: int) {
    && Contiguous(blocks)
    && (blocks == [] ==> length == 0)
    && (blocks != [] ==> blocks[0].offset == 0 && blocks[|blocks| - 1].offset + blocks[|blocks| - 1].size == length)
  }

  lemma {:induction false} ContiguousTotalSize(blocks: seq<Descriptor>)
    requires blocks != [] && Contiguous(blocks)
    ensures TotalSize(blocks) == blocks[|blocks| - 1].offset + blocks[|blocks| - 1].size - blocks[0].offset
  {
    var n := |blocks|;
    if n > 1 {
      var front := blocks[..n - 1];
      assert Contiguous(front) by {
        forall i | 0 < i < |front|
          ensures front[i - 1].offset + front[i - 1].size == front[i].offset
        {
          assert front[i - 1] == blocks[i - 1] && front[i] == blocks[i];
        }
      }
      ContiguousTotalSize(front);
    }
  }

  /** Blocks that tile `[0, length)` have sizes adding up to `length`. */
  lemma TilesTotalSize(blocks: seq<Descriptor>, length: int)
    requires Tiles(blocks, length)
    ensures TotalSize(blocks) == length
  {
    if blocks != [] {
      ContiguousTotalSize(blocks);
    }
  }

  /** The full blocks lie inside the file, and there are some only when the
      block size is positive. */
  lemma FullBlocksInFile(fileLength: int, blockSize: int)
    requires 0 <= fileLength && blockSize != 0
    ensures 0 <= Div(fileLength, blockSize) * blockSize <= fileLength
    ensures Div(fileLength, blockSize) > 0 ==> blockSize > 0
  {
    DivRemNonNegative(fileLength, blockSize);
  }

  lemma MulMonotone(a: int, b: int, c: int)
    requires 0 <= a <= b && c >= 0
    ensures a * c <= b * c
  {
  }

  /** With a positive block size the partition fails exactly when there are
      more than `int.MaxValue` full blocks, and then with `Overflow`. */
  lemma PartitionOverflow(fileLength: int, blockSize: int)
    requires 0 <= fileLength <= INT64_MAX && 0 < blockSize <= INT64_MAX
    ensures Partitioned(fileLength, blockSize).Failure? <==> fileLength / blockSize > INT32_MAX
    ensures Partitioned(fileLength, blockSize).Failure? ==> Partitioned(fileLength, blockSize).error == Overflow
  {
    DivRemNonNegative(fileLength, blockSize);
  }

  /** The number of blocks: the full ones, plus one exactly when the division
      leaves a remainder, which is the length divided by the block size rounded
      up; an empty file has no blocks. */
  lemma PartitionCount(fileLength: int, blockSize: int)
    requires 0 <= fileLength <= INT64_MAX && 0 < blockSize <= INT64_MAX
    requires fileLength / blockSize <= INT32_MAX
    ensures Partitioned(fileLength, blockSize).Success?
    ensures var n := |Partitioned(fileLength, blockSize).value|;
      && n == fileLength / blockSize + (if fileLength % blockSize > 0 then 1 else 0)
      && (n - 1) * blockSize < fileLength <= n * blockSize
    ensures fileLength == 0 ==> Partitioned(fileLength, blockSize).value == []
  {
    DivRemNonNegative(fileLength, blockSize);
    var q, r := fileLength / blockSize, fileLength % blockSize;
    assert fileLength == q * blockSize + r;
    if r > 0 {
      assert (q + 1) * blockSize == q * blockSize + blockSize;
    } else if fileLength > 0 {
      assert q >= 1;
      assert (q - 1) * blockSize == q * blockSize - blockSize;
    }
  }

  /** Block `i` has sequence number `i` and starts at `i * blockSize`; every
      block is 1 to `blockSize` bytes long, the file's remaining bytes when fewer
      are left; only the last can be shorter, and only when the division leaves a
      remainder. */
  lemma PartitionLayout(fileLength: int, blockSize: int)
    requires 0 <= fileLength <= INT64_MAX && 0 < blockSize <= INT64_MAX
    requires fileLength / blockSize <= INT32_MAX
    ensures Partitioned(fileLength, blockSize).Success?
    ensures var blocks := Partitioned(fileLength, blockSize).value;
      forall i :: 0 <= i < |blocks| ==>
        && blocks[i].sequence == i
        && blocks[i].offset == i * blockSize
        && 1 <= blocks[i].size <= blockSize
        && blocks[i].size == Min(blockSize, fileLength - i * blockSize)
        && (blocks[i].size < blockSize ==> i == |blocks| - 1 && fileLength % blockSize > 0)
  {
    DivRemNonNegative(fileLength, blockSize);
    var q, r := fileLength / blockSize, fileLength % blockSize;
    var blocks := Partitioned(fileLength, blockSize).value;
    forall i | 0 <= i < |blocks|
      ensures blocks[i].size == Min(blockSize, fileLength - i * blockSize)
    {
      if i < q {
        MulMonotone(i + 1, q, blockSize);
        assert (i + 1) * blockSize == i * blockSize + blockSize;
      } else {
        assert fileLength - i * blockSize == r;
      }
    }
  }

  /** With a positive block size the blocks cover the file exactly: they lie end
      to end from 0 to `fileLength` and their sizes add up to `fileLength`. */
  lemma PartitionCoversFile(fileLength: int, blockSize: int)
    requires 0 <= fileLength <= INT64_MAX && 0 < blockSize <= INT64_MAX
    requires fileLength / blockSize <= INT32_MAX
    ensures Partitioned(fileLength, blockSize).Success?
    ensures Tiles(Partitioned(fileLength, blockSize).value, fileLength)
    ensures TotalSize(Partitioned(fileLength, blockSize).value) == fileLength
  {
    PartitionLayout(fileLength, blockSize);
    PartitionCount(fileLength, blockSize);
    DivRemNonNegative(fileLength, blockSize);
    var blocks := Partitioned(fileLength, blockSize).value;
    forall i | 0 < i < |blocks|
      ensures blocks[i - 1].offset + blocks[i - 1].size == blocks[i].offset
    {
      assert blocks[i - 1].size == blockSize;
      assert i * blockSize == (i - 1) * blockSize + blockSize;
    }
    if blocks != [] {
      var n := |blocks|;
      var last := blocks[n - 1];
      assert last.offset == (n - 1) * blockSize;
      assert last.size == Min(blockSize, fileLength - (n - 1) * blockSize);
      assert fileLength - (n - 1) * blockSize <= blockSize by {
        assert n * blockSize == (n - 1) * blockSize + blockSize;
      }
    }
    TilesTotalSize(blocks, fileLength);
  }

  /** Whatever the block size, every block the partition makes starts inside the
      file, is non-empty, ends inside the file, and the sequence numbers
      increase along the list. */
  lemma PartitionWellFormed(fileLength: int, blockSize: int)
    requires 0 <= fileLength <= INT64_MAX && INT64_MIN <= blockSize <= INT64_MAX
    requires Partitioned(fileLength, blockSize).Success?
    ensures var blocks := Partitioned(fileLength, blockSize).value;
      && (forall i :: 0 <= i < |blocks| ==>
            0 <= blocks[i].offset && 0 < blocks[i].size && blocks[i].offset + blocks[i].size <= fileLength)
      && (forall i, j :: 0 <= i < j < |blocks| ==> blocks[i].sequence < blocks[j].sequence)
  {
    if blockSize > 0 {
      PartitionOverflow(fileLength, blockSize);
      PartitionLayout(fileLength, blockSize);
      PartitionCoversFile(fileLength, blockSize);
      var blocks := Partitioned(fileLength, blockSize).value;
      forall i | 0 <= i < |blocks|
        ensures 0 <= blocks[i].offset && 0 < blocks[i].size && blocks[i].offset + blocks[i].size <= fileLength
      {
        MulMonotone(0, i, blockSize);
        assert blocks[i].size <= fileLength - i * blockSize;
      }
      assert forall i, j :: 0 <= i < j < |blocks| ==> blocks[i].sequence < blocks[j].sequence;
    }
  }

  /** A negative block size is not rejected: C#'s truncating `/` gives a block
      count of zero or less, so the loop adds nothing and at most the final
      block is made, holding only the last `fileLength % -blockSize` bytes. When
      the file is at least `-blockSize` bytes long, its first bytes are in no
      block and are never hashed. */
  lemma NegativeBlockSizeSkipsPrefix(fileLength: int, blockSize: int)
    requires 0 <= fileLength <= INT64_MAX && INT64_MIN <= blockSize < 0
    requires Partitioned(fileLength, blockSize).Success?
    ensures var blocks := Partitioned(fileLength, blockSize).value;
      && |blocks| <= 1
      && TotalSize(blocks) == fileLength % -blockSize
      && (fileLength >= -blockSize ==> TotalSize(blocks) < fileLength)
  {
    DivRemNonNegative(fileLength, blockSize);
    var blocks := Partitioned(fileLength, blockSize).value;
    if blocks != [] {
      assert blocks[..0] == [];
    }
  }

  /** With a negative block size the full-block count is negative, so it
      cannot pass `int.MaxValue`; the one tail block overflows instead, when
      there is a remainder and the count's `(int)` cast leaves the 32-bit
      range. */
  lemma NegativeBlockSizeOverflow(fileLength: int, blockSize: int)
    requires 0 <= fileLength <= INT64_MAX && INT64_MIN <= blockSize < 0
    ensures Partitioned(fileLength, blockSize).Failure? <==>
      fileLength % -blockSize > 0 && fileLength / -blockSize > -INT32_MIN
    ensures Partitioned(fileLength, blockSize).Failure? ==> Partitioned(fileLength, blockSize).error == Overflow
  {
    DivRemNonNegative(fileLength, blockSize);
  }

  /** With a negative block size, a non-empty file shorter than `-blockSize`
      has no full block and a remainder of the whole file: it becomes one
      block at offset 0 and is hashed whole. */
  lemma NegativeBlockSizeShortFile(fileLength: int, blockSize: int)
    requires 0 < fileLength < -blockSize && INT64_MIN <= blockSize
    ensures Partitioned(fileLength, blockSize) == Success([Descriptor(0, 0, fileLength)])
  {
    var q := Div(fileLength, blockSize);
    if q != 0 {
      assert q < 0;
      MulMonotone(1, -q, -blockSize);
      assert false;
    }
    assert Rem(fileLength, blockSize) == fileLength;
    assert FullBlocks(0, blockSize) == [];
    assert FullBlocks(0, blockSize) + [Descriptor(0, 0, fileLength)] == [Descriptor(0, 0, fileLength)];
  }

  /** A ten-byte file with block size -3 yields a single one-byte block with
      sequence number -3 at offset 9. */
  lemma NegativeBlockSizeExample()
    ensures Partitioned(10, -3) == Success([Descriptor(-3, 9, 1)])
  {
    DivRemNonNegative(10, -3);
    assert Div(10, -3) == -3 && Rem(10, -3) == 1;
    assert FullBlocks(0, -3) == [];
    assert FullBlocks(0, -3) + [Descriptor(-3, 9, 1)] == [Descriptor(-3, 9, 1)];
  }

  /** The counted loop of the partition: `new BlockInfo(i, i * blockSize,
      blockSize)` for `i` from 0 while `i < fullBlocksCount`. The checked `i++`
      throws once `i` is `int.MaxValue`, so the loop fails exactly when there
      are more than `int.MaxValue` full blocks. */
  method AddFullBlocks(fullBlocksCount: int, blockSize: int64, ghost fileLength: int)
    returns (r: Result<seq<BlockInfo>>)
    requires fullBlocksCount > 0 ==> 0 < blockSize && fullBlocksCount * blockSize <= fileLength <= INT64_MAX
    ensures r.Failure? <==> fullBlocksCount > INT32_MAX
    ensures r.Failure? ==> r.error == Overflow
    ensures r.Success? ==> Descriptors(r.value) == FullBlocks(if fullBlocksCount > 0 then fullBlocksCount else 0, blockSize)
    ensures r.Success? ==> Distinct(r.value)
    ensures r.Success? ==> fresh(set b | b in r.value)
    ensures r.Success? ==> forall b :: b in r.value ==> b.sha256 == None
  {
    var allBlocks: seq<BlockInfo> := [];
    var i: int32 := 0;
    while i < fullBlocksCount
      invariant 0 <= i && (fullBlocksCount > 0 ==> i <= fullBlocksCount) && (fullBlocksCount <= 0 ==> i == 0)
      invariant Descriptors(allBlocks) == FullBlocks(i, blockSize)
      invariant Distinct(allBlocks)
      invariant fresh(set b | b in allBlocks)
      invariant forall b :: b in allBlocks ==> b.sha256 == None
    {
      MulMonotone(i, fullBlocksCount, blockSize);
      var block := new BlockInfo(i, i * blockSize, blockSize);
      ghost var before := allBlocks;
      allBlocks := allBlocks + [block];
      DescriptorsAppend(before, block);
      FullBlocksAppend(i, blockSize);
      DistinctAppend(before, block);
      if i == INT32_MAX {
        return Failure(Overflow);
      }
      i := i + 1;
    }
    return Success(allBlocks);
  }

  /** The partition of `Main`, allocating one `BlockInfo` per block in order:
      the full blocks, then the final shorter block whose `(int)` cast of the
      block count is checked. */
  method Partition(fileLength: int64, blockSize: int64) returns (r: Result<seq<BlockInfo>>)
    requires fileLength >= 0
    ensures r.Failure? <==> Partitioned(fileLength, blockSize).Failure?
    ensures r.Failure? ==> r.error == Partitioned(fileLength, blockSize).error
    ensures r.Success? ==> Descriptors(r.value) == Partitioned(fileLength, blockSize).value
    ensures r.Success? ==> Distinct(r.value)
    ensures r.Success? ==> fresh(set b | b in r.value)
    ensures r.Success? ==> forall b :: b in r.value ==> b.sha256 == None
  {
    if blockSize == 0 {
      return Failure(DivideByZero);
    }
    var fullBlocksCount := Div(fileLength, blockSize);
    var finalBlockSize := Rem(fileLength, blockSize);
    FullBlocksInFile(fileLength, blockSize);
    var full := AddFullBlocks(fullBlocksCount, blockSize, fileLength);
    if full.Failure? {
      return full;
    }
    var allBlocks := full.value;
    if finalBlockSize > 0 {
      if !InInt32(fullBlocksCount) {
        return Failure(Overflow);
      }
      var block := new BlockInfo(fullBlocksCount, fullBlocksCount * blockSize, finalBlockSize);
      ghost var before := allBlocks;
      allBlocks := allBlocks + [block];
      DescriptorsAppend(before, block);
      DistinctAppend(before, block);
    }
    return Success(allBlocks);
  }
}
