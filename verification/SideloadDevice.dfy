/** The sideload file system's own state, updated in place; its methods are proved against Sideload.Fetch and
    Sideload.Read. */
module SideloadDevice {
  import opened Words
  import opened Sideload

  /** The digest table as it lies in memory: DIGEST_LEN bytes for each block. */
  function Entry(flat: seq<byte>, b: nat): (d: Digest)
    requires (b + 1) * DIGEST_LEN <= |flat|
  {
    flat[b * DIGEST_LEN..(b + 1) * DIGEST_LEN]
  }

  function Table(flat: seq<byte>, n: nat): (t: seq<Digest>)
    requires |flat| == n * DIGEST_LEN
    ensures |t| == n && forall b :: 0 <= b < n ==> t[b] == Entry(flat, b)
  {
    seq(n, b requires 0 <= b < n => Entry(flat, b))
  }

  lemma StoredEntry(before: seq<byte>, after: seq<byte>, n: nat, block: nat, d: Digest)
    requires |before| == |after| == n * DIGEST_LEN && block < n
    requires after == before[..block * DIGEST_LEN] + d + before[(block + 1) * DIGEST_LEN..]
    ensures Table(after, n) == Table(before, n)[block := d]
  {
    var lo, hi := block * DIGEST_LEN, (block + 1) * DIGEST_LEN;
    assert after[..lo] == before[..lo] && after[lo..hi] == d && after[hi..] == before[hi..];
    forall b | 0 <= b < n
      ensures Entry(after, b) == if b == block then d else Entry(before, b)
    {
      var at := b * DIGEST_LEN;
      if b < block {
        assert after[at..at + DIGEST_LEN] == after[..lo][at..at + DIGEST_LEN] == before[at..at + DIGEST_LEN];
      } else if b > block {
        assert after[at..at + DIGEST_LEN] == after[hi..][at - hi..at - hi + DIGEST_LEN]
               == before[hi..][at - hi..at - hi + DIGEST_LEN] == before[at..at + DIGEST_LEN];
      }
    }
  }

  class FuseData {
    const config: Config
    const hash: Hash
    const host: Provider
    var currBlock: nat
    const blockData: array<byte>
    const extraBlock: array<byte>
    const hashes: array<byte>
    var calls: nat

    ghost predicate Valid()
      reads this
    {
      config.Accepted() && currBlock < U32_RANGE &&
      blockData.Length == extraBlock.Length == config.blockSize &&
      hashes.Length == config.FileBlocks() * DIGEST_LEN &&
      blockData != extraBlock && blockData != hashes && extraBlock != hashes
    }

    ghost function Abs(): (s: Cache)
      requires Valid()
      reads this, blockData, hashes
      ensures WellSized(config, s)
    {
      Cache(currBlock, blockData[..], Table(hashes[..], config.FileBlocks()), calls)
    }

    /** The state in which the request loop is entered. */
    constructor (config: Config, hash: Hash, host: Provider)
      requires config.Accepted()
      ensures Valid() && Fresh(config, Abs()) && this.config == config && this.hash == hash && this.host == host
      ensures fresh(blockData) && fresh(extraBlock) && fresh(hashes)
    {
      this.config, this.hash, this.host := config, hash, host;
      currBlock, calls := NO_BLOCK, 0;
      blockData := new byte[config.blockSize];
      extraBlock := new byte[config.blockSize];
      hashes := new byte[config.FileBlocks() * DIGEST_LEN](_ => 0);
      new;
      forall b | 0 <= b < config.FileBlocks()
        ensures Entry(hashes[..], b) == UNREAD
      {
      }
    }

    /** Compare a block's digest with the stored one, storing it on the first read. */
    method CheckDigest(block: nat, digest: Digest) returns (code: int)
      requires Valid() && block < config.FileBlocks()
      modifies this`currBlock, hashes
      ensures Valid()
      ensures var stored := old(Table(hashes[..], config.FileBlocks()))[block];
              if digest == stored then code == 0 && currBlock == old(currBlock) && hashes[..] == old(hashes[..])
              else if stored != UNREAD then code == -EIO && currBlock == NO_BLOCK && hashes[..] == old(hashes[..])
              else code == 0 && currBlock == old(currBlock) &&
                   Table(hashes[..], config.FileBlocks()) ==
                   old(Table(hashes[..], config.FileBlocks()))[block := digest]
    {
      var at := block * DIGEST_LEN;
      if hashes[at..at + DIGEST_LEN] == digest {
        return 0;
      }
      var i := 0;
      while i < DIGEST_LEN
        invariant 0 <= i <= DIGEST_LEN && currBlock == old(currBlock) && hashes[..] == old(hashes[..])
        invariant forall k :: at <= k < at + i ==> hashes[k] == 0
      {
        if hashes[at + i] != 0 {
          currBlock := NO_BLOCK;
          assert Entry(hashes[..], block)[i] != UNREAD[i];
          return -EIO;
        }
        i := i + 1;
      }
      assert Entry(hashes[..], block) == UNREAD;
      forall k | 0 <= k < DIGEST_LEN {
        hashes[at + k] := digest[k];
      }
      StoredEntry(old(hashes[..]), hashes[..], config.FileBlocks(), block, digest);
      return 0;
    }

    /** Ask the host for a block; the tail of a short block is cleared before the call. */
    method ReadBlock(block: nat) returns (result: int)
      requires Valid() && block < config.FileBlocks()
      modifies this`calls, blockData
      ensures Valid() && calls == old(calls) + 1
      ensures var answer := host(old(calls), block, FetchSize(config, block));
              result == answer.result && blockData[..] == Delivered(config, old(blockData[..]), block, answer.bytes)
    {
      BlockStartsInside(config, block);
      var fetchSize := config.blockSize;
      var start := Mul32(block, config.blockSize);
      if start + fetchSize > config.fileSize {
        fetchSize := config.fileSize - start;
        forall i | fetchSize <= i < config.blockSize {
          blockData[i] := 0;
        }
      }
      assert fetchSize == FetchSize(config, block);
      ghost var padded := blockData[..];
      assert padded == if fetchSize < config.blockSize
                       then old(blockData[..])[..fetchSize] + Zeros(config.blockSize - fetchSize)
                       else old(blockData[..]);
      var answer := host(calls, block, fetchSize);
      calls := calls + 1;
      var n := Min(fetchSize, |answer.bytes|);
      forall i | 0 <= i < n {
        blockData[i] := answer.bytes[i];
      }
      assert blockData[..] == Overwrite(padded, answer.bytes, fetchSize);
      return answer.result;
    }

    method FetchBlock(block: nat) returns (code: int)
      requires Valid() && block < U32_RANGE
      modifies this`currBlock, this`calls, blockData, hashes
      ensures Valid() && Fetched(code, Abs()) == Fetch(config, hash, host, old(Abs()), block)
    {
      if block == currBlock {
        return 0;
      }
      if block >= config.FileBlocks() {
        forall i | 0 <= i < config.blockSize {
          blockData[i] := 0;
        }
        assert blockData[..] == Zeros(config.blockSize) && hashes[..] == old(hashes[..]);
        currBlock := block;
        return 0;
      }
      var result := ReadBlock(block);
      if result < 0 {
        return result;
      }
      currBlock := block;
      code := CheckDigest(block, hash(blockData[..]));
    }

    method HandleRead(offset: nat, size: nat) returns (outcome: Outcome)
      requires Valid() && size <= config.blockSize
      modifies this`currBlock, this`calls, blockData, extraBlock, hashes
      ensures Valid() && Served(Abs(), outcome) == Read(config, hash, host, old(Abs()), Request(offset, size))
    {
      var block := U32(Div(offset, config.blockSize));
      var result := FetchBlock(block);
      if result != 0 {
        return Error(result);
      }
      outcome := AnswerRead(block, offset, size);
    }

    /** Reply from the block in the cache and, if the request spills over, the next one. */
    method AnswerRead(block: nat, offset: nat, size: nat) returns (outcome: Outcome)
      requires Valid() && size <= config.blockSize && block == U32(Div(offset, config.blockSize))
      modifies this`currBlock, this`calls, blockData, extraBlock, hashes
      ensures Valid() && Served(Abs(), outcome) == Answered(config, hash, host, old(Abs()), Request(offset, size))
    {
      OffsetInBlock(offset, config.blockSize);
      outcome := CutReply(block, U32(offset - Mul32(block, config.blockSize)), size);
    }

    /** If the request spills over, keep the tail of this block aside and fetch the next one. */
    method CutReply(block: nat, blockOffset: nat, size: nat) returns (outcome: Outcome)
      requires Valid() && block < U32_RANGE && blockOffset < config.blockSize && size <= config.blockSize
      modifies this`currBlock, this`calls, blockData, extraBlock, hashes
      ensures Valid() && Served(Abs(), outcome) == Cut(config, hash, host, old(Abs()), block, blockOffset, size)
    {
      if size + blockOffset <= config.blockSize {
        return Reply(blockData[blockOffset..blockOffset + size]);
      }
      var n := config.blockSize - blockOffset;
      forall i | 0 <= i < n {
        extraBlock[i] := blockData[blockOffset + i];
      }
      assert extraBlock[..n] == blockData[blockOffset..];
      assert Abs() == old(Abs());
      var result := FetchBlock(U32(block + 1));
      if result != 0 {
        return Error(result);
      }
      return Reply(extraBlock[..n] + blockData[..size - n]);
    }

    /** The request loop: what it answers is a run in the sense of Sideload.IsRun. */
    method Serve(qs: seq<Request>) returns (outcomes: seq<Outcome>, ghost run: Run)
      requires Valid() && LegalRun(config, qs)
      modifies this`currBlock, this`calls, blockData, extraBlock, hashes
      ensures Valid() && IsRun(config, hash, host, qs, run)
      ensures run.outcomes == outcomes && run.caches[0] == old(Abs()) && run.caches[|qs|] == Abs()
    {
      outcomes, run := [], Run([Abs()], []);
      var i := 0;
      while i < |qs|
        invariant 0 <= i <= |qs| && Valid() && IsRun(config, hash, host, qs[..i], run)
        invariant run.outcomes == outcomes && run.caches[0] == old(Abs()) && run.caches[i] == Abs()
      {
        ghost var before := run;
        var outcome := HandleRead(qs[i].offset, qs[i].size);
        outcomes := outcomes + [outcome];
        run := Run(run.caches + [Abs()], outcomes);
        ExtendRun(config, hash, host, qs, i, before, run);
        i := i + 1;
      }
      assert qs[..i] == qs;
    }
  }

  /** Start serving a file, if its size and block size are within the limits. */
  method Start(fileSize: nat, blockSize: nat, hash: Hash, host: Provider) returns (device: FuseData?)
    ensures device != null <==> Config(fileSize, blockSize).Accepted()
    ensures device != null ==> device.Valid() && Fresh(Config(fileSize, blockSize), device.Abs())
  {
    if blockSize < 4096 || blockSize > 0x40_0000 {
      return null;
    }
    var config := Config(fileSize, blockSize);
    if config.FileBlocks() > MAX_BLOCKS {
      return null;
    }
    device := new FuseData(config, hash, host);
  }

  lemma ExtendRun(c: Config, hash: Hash, host: Provider, qs: seq<Request>, i: nat, r: Run, r': Run)
    requires LegalRun(c, qs) && i < |qs| && IsRun(c, hash, host, qs[..i], r)
    requires |r'.caches| == i + 2 && |r'.outcomes| == i + 1
    requires r'.caches[..i + 1] == r.caches && r'.outcomes[..i] == r.outcomes
    requires WellSized(c, r.caches[i])
    requires Read(c, hash, host, r.caches[i], qs[i]) == Served(r'.caches[i + 1], r'.outcomes[i])
    ensures IsRun(c, hash, host, qs[..i + 1], r')
  {
    var done := qs[..i + 1];
    forall k | 0 <= k < |done|
      ensures StepAt(c, hash, host, done, r', k)
    {
      if k < i {
        assert StepAt(c, hash, host, qs[..i], r, k);
        assert r'.caches[k] == r'.caches[..i + 1][k] && r'.caches[k + 1] == r'.caches[..i + 1][k + 1];
        assert r'.outcomes[k] == r'.outcomes[..i][k];
      } else {
        assert r'.caches[i] == r'.caches[..i + 1][i];
      }
    }
  }
}
