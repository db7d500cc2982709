/** The rest of `Main(string, long)` and the worker loop of `ThreadProcess`:
    every block goes into a queue, `min(ProcessorCount, blocks)` workers take
    blocks from it until it is empty and store each block's digest, and the
    digests are then written out in the order of the blocks' sequence numbers.

    The workers run one after the other here: the first one empties the
    queue and the others find it empty. A worker that throws ends the program,
    so the first failing block ends the run with that block's exception. */
module Dispatch {
  import opened Runtime
  import opened Partitioning
  import opened Streaming

  /** The `ConcurrentQueue<BlockInfo>` the blocks are handed out from. */
  class BlockQueue {
    var items: seq<BlockInfo>

    constructor ()
      ensures items == []
    {
      items := [];
    }

    method Enqueue(b: BlockInfo)
      modifies this
      ensures items == old(items) + [b]
    {
      items := items + [b];
    }

    /** Takes the oldest block, or reports that the queue is empty. */
    method TryDequeue() returns (ok: bool, b: BlockInfo?)
      modifies this
      ensures ok <==> old(items) != []
      ensures ok ==> b == old(items)[0] && items == old(items)[1..]
      ensures !ok ==> b == null && items == old(items)
    {
      if items == [] {
        return false, null;
      }
      ok, b := true, items[0];
      items := items[1..];
    }
  }

  /** What a worker needs of a block: it starts at a valid position and is
      not empty. */
  predicate Hashable(ds: seq<Descriptor>) {
    forall i :: 0 <= i < |ds| ==> ds[i].offset >= 0 && ds[i].size > 0
  }

  /** The digests of the blocks `ds` taken in order, or the exception of the
      first block whose digest fails. */
  function DigestAll(data: seq<byte>, ds: seq<Descriptor>, hash: seq<byte> -> Digest): (r: Result<seq<Digest>>)
    requires Hashable(ds)
    ensures r.Success? ==> |r.value| == |ds|
    ensures r.Failure? ==> r.error.ShortRead?
    decreases |ds|
  {
    if ds == [] then Success([])
    else
      match BlockDigest(data, ds[0], hash)
      case Failure(e) => Failure(e)
      case Success(h) =>
        assert Hashable(ds[1..]);
        Prefixed([h], DigestAll(data, ds[1..], hash))
  }

  /** The file holds every block of `ds`. */
  predicate InFile(data: seq<byte>, ds: seq<Descriptor>) {
    forall i :: 0 <= i < |ds| ==> ds[i].offset + ds[i].size <= |data|
  }

  /** Hashing a list of blocks succeeds exactly when the file holds every one
      of them; then there is one digest per block, the hash of its bytes, and
      otherwise the exception is a short read. */
  lemma DigestAllCorrect(data: seq<byte>, ds: seq<Descriptor>, hash: seq<byte> -> Digest)
    requires Hashable(ds)
    ensures var r := DigestAll(data, ds, hash);
      && (r.Success? <==> InFile(data, ds))
      && (r.Success? ==> |r.value| == |ds|)
      && (r.Success? ==> forall i :: 0 <= i < |ds| ==> r.value[i] == hash(data[ds[i].offset..ds[i].offset + ds[i].size]))
      && (r.Failure? ==> r.error.ShortRead? && 0 <= r.error.got < r.error.expected)
  {
    if InFile(data, ds) {
      DigestAllSucceeds(data, ds, hash);
    } else {
      var i :| 0 <= i < |ds| && ds[i].offset + ds[i].size > |data|;
      DigestAllFails(data, ds, hash, i);
    }
  }

  lemma {:induction false} DigestAllSucceeds(data: seq<byte>, ds: seq<Descriptor>, hash: seq<byte> -> Digest)
    requires Hashable(ds) && InFile(data, ds)
    ensures var r := DigestAll(data, ds, hash);
      && r.Success? && |r.value| == |ds|
      && forall i :: 0 <= i < |ds| ==> r.value[i] == hash(data[ds[i].offset..ds[i].offset + ds[i].size])
    decreases |ds|
  {
    if ds != [] {
      var rest := ds[1..];
      assert Hashable(rest) && InFile(data, rest) by {
        forall i | 0 <= i < |rest|
          ensures rest[i] == ds[i + 1]
        {
        }
      }
      DigestAllSucceeds(data, rest, hash);
      DigestAllCons(data, ds, hash);
    }
  }

  /** A first block the file holds puts its digest in front of the digests of
      the other blocks. */
  lemma DigestAllCons(data: seq<byte>, ds: seq<Descriptor>, hash: seq<byte> -> Digest)
    requires ds != [] && Hashable(ds) && InFile(data, ds) && Hashable(ds[1..])
    requires var v := DigestAll(data, ds[1..], hash);
      && v.Success? && |v.value| == |ds| - 1
      && forall i :: 0 <= i < |ds| - 1 ==> v.value[i] == hash(data[ds[i + 1].offset..ds[i + 1].offset + ds[i + 1].size])
    ensures var r := DigestAll(data, ds, hash);
      && r.Success? && |r.value| == |ds|
      && forall i :: 0 <= i < |ds| ==> r.value[i] == hash(data[ds[i].offset..ds[i].offset + ds[i].size])
  {
    var h := hash(data[ds[0].offset..ds[0].offset + ds[0].size]);
    assert BlockDigest(data, ds[0], hash) == Success(h) by {
      BlockDigestIsHashOfBlock(data, ds[0], hash);
    }
    var v := DigestAll(data, ds[1..], hash).value;
    var r := DigestAll(data, ds, hash);
    assert r == Success([h] + v);
    forall i | 0 <= i < |ds|
      ensures r.value[i] == hash(data[ds[i].offset..ds[i].offset + ds[i].size])
    {
      if i > 0 {
        assert r.value[i] == v[i - 1];
      }
    }
  }

  lemma {:induction false} DigestAllFails(data: seq<byte>, ds: seq<Descriptor>, hash: seq<byte> -> Digest, i: int)
    requires Hashable(ds) && 0 <= i < |ds| && ds[i].offset + ds[i].size > |data|
    ensures var r := DigestAll(data, ds, hash);
      r.Failure? && r.error.ShortRead? && 0 <= r.error.got < r.error.expected
    decreases i
  {
    BlockDigestIsHashOfBlock(data, ds[0], hash);
    if i > 0 && BlockDigest(data, ds[0], hash).Success? {
      var rest := ds[1..];
      assert Hashable(rest) && rest[i - 1] == ds[i];
      DigestAllFails(data, rest, hash, i - 1);
    }
  }

  /** `digests` are the digests of the first blocks of `ds`, in order. */
  predicate Hashed(data: seq<byte>, ds: seq<Descriptor>, digests: seq<Digest>, hash: seq<byte> -> Digest)
    requires Hashable(ds) && |digests| <= |ds|
  {
    forall i :: 0 <= i < |digests| ==> BlockDigest(data, ds[i], hash) == Success(digests[i])
  }

  /** The log grows by the next block's digest. */
  lemma HashedAppend(data: seq<byte>, ds: seq<Descriptor>, digests: seq<Digest>, d: Digest, hash: seq<byte> -> Digest)
    requires Hashable(ds) && |digests| < |ds| && Hashed(data, ds, digests, hash)
    requires BlockDigest(data, ds[|digests|], hash) == Success(d)
    ensures Hashed(data, ds, digests + [d], hash)
  {
  }

  /** Hashing the blocks one by one until the first failure gives `DigestAll`:
      all the digests when every block hashes, and otherwise the exception of
      the first block that does not. */
  lemma {:induction false} DigestAllByBlock(data: seq<byte>, ds: seq<Descriptor>, digests: seq<Digest>, hash: seq<byte> -> Digest)
    requires Hashable(ds) && |digests| <= |ds| && Hashed(data, ds, digests, hash)
    ensures |digests| == |ds| ==> DigestAll(data, ds, hash) == Success(digests)
    ensures |digests| < |ds| && BlockDigest(data, ds[|digests|], hash).Failure? ==>
      DigestAll(data, ds, hash) == Failure(BlockDigest(data, ds[|digests|], hash).error)
    decreases |digests|
  {
    if digests != [] {
      var rest, tail := ds[1..], digests[1..];
      assert Hashable(rest) && Hashed(data, rest, tail, hash) by {
        forall i | 0 <= i < |tail|
          ensures BlockDigest(data, rest[i], hash) == Success(tail[i])
        {
          assert rest[i] == ds[i + 1] && tail[i] == digests[i + 1];
        }
      }
      DigestAllByBlock(data, rest, tail, hash);
      assert BlockDigest(data, ds[0], hash) == Success(digests[0]);
      assert DigestAll(data, ds, hash) == Prefixed([digests[0]], DigestAll(data, rest, hash));
      if |digests| == |ds| {
        assert [digests[0]] + tail == digests;
      } else {
        assert ds[|digests|] == rest[|tail|];
      }
    }
  }

  /** One worker: it opens the file and, while the queue gives it a block,
      computes that block's digest and stores it in the block. A short read
      throws out of the worker. Starting from blocks `B`, the ghost log
      `digests` is what it computed, one per block of a prefix of `B`, in
      queue order: each is the block's digest and is stored in that block. It
      succeeds exactly when the log covers all of `B`, and then the queue is
      empty. Otherwise the block after the log is the one whose read failed:
      it and the blocks after it keep what they held, and the blocks after it
      stay in the queue. */
  method ThreadProcess(data: seq<byte>, queue: BlockQueue, hash: seq<byte> -> Digest)
    returns (r: Result<()>, ghost digests: seq<Digest>)
    requires Distinct(queue.items)
    requires Hashable(Descriptors(queue.items))
    modifies queue, queue.items
    ensures |digests| <= |old(queue.items)| && Hashed(data, Descriptors(old(queue.items)), digests, hash)
    ensures forall i :: 0 <= i < |digests| ==> old(queue.items)[i].sha256 == Some(digests[i])
    ensures r.Success? <==> |digests| == |old(queue.items)|
    ensures r.Success? ==> queue.items == []
    ensures r.Failure? ==> BlockDigest(data, old(queue.items)[|digests|].Describe(), hash) == Failure(r.error)
    ensures r.Failure? ==> queue.items == old(queue.items)[|digests| + 1..]
    ensures r.Failure? ==> forall i :: |digests| <= i < |old(queue.items)| ==> old(queue.items)[i].sha256 == old(queue.items[i].sha256)
  {
    var fs := new FileStream(data);
    ghost var blocks := queue.items;
    ghost var ds := Descriptors(blocks);
    digests := [];
    while true
      invariant 0 <= |digests| <= |blocks| && queue.items == blocks[|digests|..]
      invariant Hashed(data, ds, digests, hash)
      invariant forall i {:trigger blocks[i]} :: 0 <= i < |blocks| ==>
        blocks[i].sha256 == if i < |digests| then Some(digests[i]) else old(blocks[i].sha256)
      decreases |queue.items|
    {
      var k := |digests|;
      var ok, block := queue.TryDequeue();
      if !ok {
        return Success(()), digests;
      }
      assert block == blocks[k] && block.Describe() == ds[k];
      var digest := ComputeDigest(fs, block, hash);
      if digest.Failure? {
        return Failure(digest.error), digests;
      }
      block.sha256 := Some(digest.value);
      HashedAppend(data, ds, digests, digest.value, hash);
      digests := digests + [digest.value];
    }
  }

  /** The sequence numbers increase along the list. */
  predicate Increasing(blocks: seq<BlockInfo>) {
    forall i, j :: 0 <= i < j < |blocks| ==> blocks[i].sequence < blocks[j].sequence
  }

  /** The sequence numbers never decrease along the list. */
  predicate SortedBySequence(blocks: seq<BlockInfo>) {
    forall i, j :: 0 <= i < j < |blocks| ==> blocks[i].sequence <= blocks[j].sequence
  }

  lemma SortedCons(x: BlockInfo, s: seq<BlockInfo>)
    requires SortedBySequence(s) && (s != [] ==> x.sequence <= s[0].sequence)
    ensures SortedBySequence([x] + s)
  {
    forall i, j | 0 <= i < j < |[x] + s|
      ensures ([x] + s)[i].sequence <= ([x] + s)[j].sequence
    {
      if i == 0 {
        assert ([x] + s)[j] == s[j - 1];
      }
    }
  }

  /** Puts `b` in front of the first block of `sorted` whose sequence number is
      not smaller, so that blocks with equal numbers keep their order. */
  function Insert(b: BlockInfo, sorted: seq<BlockInfo>): (r: seq<BlockInfo>)
    requires SortedBySequence(sorted)
    ensures multiset(r) == multiset(sorted) + multiset{b}
    ensures SortedBySequence(r)
    ensures |r| == |sorted| + 1
    ensures r[0] == b || (sorted != [] && r[0] == sorted[0])
    decreases |sorted|
  {
    if sorted == [] || b.sequence <= sorted[0].sequence then
      [b] + sorted
    else
      var tail := Insert(b, sorted[1..]);
      InsertBehind(b, sorted, tail);
      [sorted[0]] + tail
  }

  /** `b` goes behind the first block of `sorted`: that block in front of `b`
      inserted into the others is sorted and holds the same blocks. */
  lemma InsertBehind(b: BlockInfo, sorted: seq<BlockInfo>, tail: seq<BlockInfo>)
    requires sorted != [] && SortedBySequence(sorted) && sorted[0].sequence < b.sequence
    requires multiset(tail) == multiset(sorted[1..]) + multiset{b}
    requires SortedBySequence(tail) && |tail| == |sorted|
    requires tail[0] == b || (|sorted| > 1 && tail[0] == sorted[1])
    ensures multiset([sorted[0]] + tail) == multiset(sorted) + multiset{b}
    ensures SortedBySequence([sorted[0]] + tail)
  {
    assert multiset(sorted) == multiset{sorted[0]} + multiset(sorted[1..]) by {
      assert sorted == [sorted[0]] + sorted[1..];
    }
    SortedCons(sorted[0], tail);
  }

  /** `allBlocks.OrderBy(x => x.Sequence)`: the same blocks, ordered by
      sequence number, blocks with equal numbers in their original order. */
  function OrderBySequence(blocks: seq<BlockInfo>): (r: seq<BlockInfo>)
    ensures multiset(r) == multiset(blocks)
    ensures SortedBySequence(r)
    decreases |blocks|
  {
    if blocks == [] then []
    else
      assert blocks == [blocks[0]] + blocks[1..];
      Insert(blocks[0], OrderBySequence(blocks[1..]))
  }

  /** Blocks whose sequence numbers already increase come out of the ordering
      as they went in. */
  lemma {:induction false} OrderBySequenceKeepsIncreasing(blocks: seq<BlockInfo>)
    requires Increasing(blocks)
    ensures OrderBySequence(blocks) == blocks
    decreases |blocks|
  {
    if blocks != [] {
      var rest := blocks[1..];
      assert Increasing(rest);
      OrderBySequenceKeepsIncreasing(rest);
      assert blocks == [blocks[0]] + rest;
    }
  }

  /** What the program writes, as values: the partition's exception, the
      first worker's exception, or the block digests in block order. */
  function ExpectedDigests(data: seq<byte>, fileLength: int, blockSize: int, hash: seq<byte> -> Digest): (r: Result<seq<Digest>>)
    requires 0 <= fileLength <= INT64_MAX && INT64_MIN <= blockSize <= INT64_MAX
    ensures r.Success? ==> Partitioned(fileLength, blockSize).Success? && |r.value| == |Partitioned(fileLength, blockSize).value|
    ensures r.Failure? ==> (r.error.ShortRead? <==> Partitioned(fileLength, blockSize).Success?)
  {
    match Partitioned(fileLength, blockSize)
    case Failure(e) => Failure(e)
    case Success(ds) =>
      PartitionWellFormed(fileLength, blockSize);
      DigestAll(data, ds, hash)
  }

  /** The queue and the workers of `Main`: every block is enqueued, then
      `min(processorCount, blocks)` workers run. It succeeds exactly when every
      block can be hashed, and then block `i` holds the `i`-th digest. */
  method RunWorkers(data: seq<byte>, allBlocks: seq<BlockInfo>, processorCount: int, hash: seq<byte> -> Digest)
    returns (r: Result<()>)
    requires Distinct(allBlocks) && Hashable(Descriptors(allBlocks)) && processorCount >= 1
    modifies allBlocks
    ensures var expected := DigestAll(data, Descriptors(allBlocks), hash);
      && (r.Success? <==> expected.Success?)
      && (r.Failure? ==> r.error == expected.error)
      && (r.Success? ==> forall i {:trigger allBlocks[i]} :: 0 <= i < |allBlocks| ==> allBlocks[i].sha256 == Some(expected.value[i]))
  {
    ghost var expected := DigestAll(data, Descriptors(allBlocks), hash);
    var queue := new BlockQueue();
    for k := 0 to |allBlocks|
      invariant fresh(queue) && queue.items == allBlocks[..k]
    {
      queue.Enqueue(allBlocks[k]);
    }
    assert allBlocks[..|allBlocks|] == allBlocks;

    var parallelism := Min(processorCount, |allBlocks|);
    if parallelism == 0 {
      return Success(());
    }
    // The first worker empties the queue; the others find it empty.
    ghost var digests;
    r, digests := ThreadProcess(data, queue, hash);
    DigestAllByBlock(data, Descriptors(allBlocks), digests, hash);
    if r.Failure? {
      return;
    }
    for w := 1 to parallelism
      invariant fresh(queue) && queue.items == []
      invariant forall i {:trigger allBlocks[i]} :: 0 <= i < |allBlocks| ==> allBlocks[i].sha256 == Some(expected.value[i])
    {
      var idle;
      idle, digests := ThreadProcess(data, queue, hash);
      assert idle.Success? by {
        assert Descriptors([]) == [];
      }
    }
  }

  /** The output loop of `Main`: the stored digests of the blocks ordered by
      sequence number. With increasing sequence numbers they come out in
      block order. */
  method OrderedDigests(allBlocks: seq<BlockInfo>, ghost digests: seq<Digest>) returns (output: seq<Digest>)
    requires Increasing(allBlocks) && |digests| == |allBlocks|
    requires forall i {:trigger allBlocks[i]} :: 0 <= i < |allBlocks| ==> allBlocks[i].sha256 == Some(digests[i])
    ensures output == digests
  {
    var ordered := OrderBySequence(allBlocks);
    assert ordered == allBlocks by {
      OrderBySequenceKeepsIncreasing(allBlocks);
    }
    output := StoredDigests(ordered, digests);
  }

  /** Writes out the digest stored in each block, in the order given. */
  method StoredDigests(blocks: seq<BlockInfo>, ghost digests: seq<Digest>) returns (output: seq<Digest>)
    requires |digests| == |blocks|
    requires forall i {:trigger blocks[i]} :: 0 <= i < |blocks| ==> blocks[i].sha256 == Some(digests[i])
    ensures output == digests
  {
    output := [];
    for k := 0 to |blocks|
      invariant |output| == k
      invariant forall i :: 0 <= i < k ==> output[i] == digests[i]
    {
      output := output + [blocks[k].sha256.value];
    }
    assert output == digests by {
      assert |output| == |digests|;
    }
  }

  /** `Main(path, blockSize)` after the file's length has been read: partition,
      run the workers, and write the digests ordered by sequence number. `data`
      is the file's content while the workers read it; `fileLength` is the
      length read before. */
  method Run(data: seq<byte>, fileLength: int64, blockSize: int64, processorCount: int, hash: seq<byte> -> Digest)
    returns (r: Result<seq<Digest>>)
    requires fileLength >= 0 && processorCount >= 1
    ensures r == ExpectedDigests(data, fileLength, blockSize, hash)
  {
    var partition := Partition(fileLength, blockSize);
    if partition.Failure? {
      return Failure(partition.error);
    }
    var allBlocks := partition.value;
    ghost var ds := Descriptors(allBlocks);
    PartitionWellFormed(fileLength, blockSize);
    assert Hashable(ds);
    var outcome := RunWorkers(data, allBlocks, processorCount, hash);
    if outcome.Failure? {
      return Failure(outcome.error);
    }
    ghost var digests := DigestAll(data, ds, hash).value;
    assert Increasing(allBlocks) by {
      forall i, j | 0 <= i < j < |allBlocks|
        ensures allBlocks[i].sequence < allBlocks[j].sequence
      {
        assert ds[i] == allBlocks[i].Describe() && ds[j] == allBlocks[j].Describe();
      }
    }
    var output := OrderedDigests(allBlocks, digests);
    return Success(output);
  }
}
