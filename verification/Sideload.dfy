/** The block cache behind the sideloaded package file: one cached block, a table of digests that is
    written once per block, and a provider that may answer differently on every call. */
module Sideload {
  import opened Words

  const DIGEST_LEN := 32
  const EIO := 5
  /** curr_block = -1, stored in an unsigned 32-bit field. */
  const NO_BLOCK := 0xFFFF_FFFF
  const MAX_BLOCKS := 0x4_0000

  type Digest = d: seq<byte> | |d| == DIGEST_LEN witness Zeros(DIGEST_LEN)
  type Hash = seq<byte> -> Digest

  const UNREAD: Digest := Zeros(DIGEST_LEN)

  /** What the host does with one request: its result code and the bytes it puts at the start of the
      buffer it was given. */
  datatype Answer = Answer(result: int, bytes: seq<byte>)

  /** The host, as a function of the number of calls made so far, the block and the size asked for. */
  type Provider = (nat, nat, nat) -> Answer

  datatype Config = Config(fileSize: nat, blockSize: nat) {
    /** file size in blocks, before it is stored in 32 bits */
    function TrueBlocks(): nat
      requires blockSize > 0
    {
      if fileSize == 0 then 0 else Div(fileSize - 1, blockSize) + 1
    }

    function FileBlocks(): nat
      requires blockSize > 0
    {
      U32(TrueBlocks())
    }

    /** The limits under which the file system is started at all. */
    predicate Accepted() {
      4096 <= blockSize <= 0x40_0000 && FileBlocks() <= MAX_BLOCKS
    }
  }

  datatype Cache = Cache(curr: nat, data: seq<byte>, hashes: seq<Digest>, calls: nat)

  ghost predicate WellSized(c: Config, s: Cache) {
    c.Accepted() && s.curr < U32_RANGE && |s.data| == c.blockSize && |s.hashes| == c.FileBlocks()
  }

  datatype Fetched = Fetched(code: int, cache: Cache)

  /** The host writes at most n bytes over the start of the buffer. */
  function Overwrite(buf: seq<byte>, bytes: seq<byte>, n: nat): (r: seq<byte>)
    requires n <= |buf|
    ensures |r| == |buf|
  {
    var k := Min(n, |bytes|);
    bytes[..k] + buf[k..]
  }

  /** The number of bytes asked of the host; block * block_size is a 32-bit product. */
  function FetchSize(c: Config, block: nat): (n: nat)
    requires c.Accepted() && block < c.FileBlocks()
    ensures n <= c.blockSize
  {
    BlockStartsInside(c, block);
    var start := Mul32(block, c.blockSize);
    if start + c.blockSize > c.fileSize then c.fileSize - start else c.blockSize
  }

  /** The buffer after a call of the host: the tail of a short block is cleared first. */
  function Delivered(c: Config, buf: seq<byte>, block: nat, bytes: seq<byte>): (r: seq<byte>)
    requires c.Accepted() && block < c.FileBlocks() && |buf| == c.blockSize
    ensures |r| == |buf|
  {
    var n := FetchSize(c, block);
    Overwrite(if n < c.blockSize then buf[..n] + Zeros(c.blockSize - n) else buf, bytes, n)
  }

  function Fetch(c: Config, hash: Hash, host: Provider, s: Cache, block: nat): (r: Fetched)
    requires WellSized(c, s) && block < U32_RANGE
    ensures WellSized(c, r.cache)
  {
    if block == s.curr then Fetched(0, s)
    else if block >= c.FileBlocks() then Fetched(0, s.(curr := block, data := Zeros(c.blockSize)))
    else
      var answer := host(s.calls, block, FetchSize(c, block));
      var data := Delivered(c, s.data, block, answer.bytes);
      var s' := s.(data := data, calls := s.calls + 1);
      if answer.result < 0 then Fetched(answer.result, s')
      else if hash(data) == s.hashes[block] then Fetched(0, s'.(curr := block))
      else if s.hashes[block] != UNREAD then Fetched(-EIO, s'.(curr := NO_BLOCK))
      else Fetched(0, s'.(curr := block, hashes := s.hashes[block := hash(data)]))
  }

  /** A read request; the mount option max_read bounds its size by the block size. */
  datatype Request = Request(offset: nat, size: nat)

  ghost predicate Legal(c: Config, q: Request) {
    q.size <= c.blockSize
  }

  datatype Outcome = Reply(bytes: seq<byte>) | Error(code: int)
  datatype Served = Served(cache: Cache, outcome: Outcome)

  function Read(c: Config, hash: Hash, host: Provider, s: Cache, q: Request): (r: Served)
    requires WellSized(c, s) && Legal(c, q)
    ensures WellSized(c, r.cache)
    ensures r.outcome.Reply? ==> |r.outcome.bytes| == q.size
  {
    var f := Fetch(c, hash, host, s, U32(Div(q.offset, c.blockSize)));
    if f.code != 0 then Served(f.cache, Error(f.code)) else Answered(c, hash, host, f.cache, q)
  }

  /** The rest of a read, once its first block is in the cache. */
  function Answered(c: Config, hash: Hash, host: Provider, s: Cache, q: Request): (r: Served)
    requires WellSized(c, s) && Legal(c, q)
    ensures WellSized(c, r.cache)
    ensures r.outcome.Reply? ==> |r.outcome.bytes| == q.size
  {
    OffsetInBlock(q.offset, c.blockSize);
    var block := U32(Div(q.offset, c.blockSize));
    Cut(c, hash, host, s, block, U32(q.offset - Mul32(block, c.blockSize)), q.size)
  }

  /** size bytes from position at of a block d on, continued at the start of d'. */
  function Splice(bs: nat, at: nat, size: nat, d: seq<byte>, d': seq<byte>): (r: seq<byte>)
    requires |d| == |d'| == bs && size <= bs && at < bs
    ensures |r| == size
  {
    if size + at <= bs then d[at..at + size] else d[at..] + d'[..size - (bs - at)]
  }

  /** The fetch of the following block, when the bytes of this one do not suffice. */
  function NextFetch(c: Config, hash: Hash, host: Provider, s: Cache, block: nat, at: nat, size: nat): (r: Fetched)
    requires WellSized(c, s)
    ensures WellSized(c, r.cache)
  {
    if size + at <= c.blockSize then Fetched(0, s) else Fetch(c, hash, host, s, U32(block + 1))
  }

  /** Cut size bytes from the cached block, at an offset in it, and from the next block if they do not suffice. */
  function Cut(c: Config, hash: Hash, host: Provider, s: Cache, block: nat, at: nat, size: nat): (r: Served)
    requires WellSized(c, s) && size <= c.blockSize && at < c.blockSize
    ensures WellSized(c, r.cache)
    ensures r.outcome.Reply? ==> |r.outcome.bytes| == size
  {
    var g := NextFetch(c, hash, host, s, block, at, size);
    Served(g.cache, if g.code != 0 then Error(g.code) else Reply(Splice(c.blockSize, at, size, s.data, g.cache.data)))
  }

  // ---------------------------------------------------------------- 32-bit arithmetic

  lemma BlockStartsInside(c: Config, block: nat)
    requires c.Accepted() && block < c.FileBlocks()
    ensures Mul32(block, c.blockSize) <= block * c.blockSize < c.fileSize
  {
    Mul32Is(block, c.blockSize);
    DivRem(c.fileSize - 1, c.blockSize);
    MulMono(block, Div(c.fileSize - 1, c.blockSize), c.blockSize);
  }

  /** Although the products wrap, the offset inside the block comes out exactly. */
  lemma OffsetInBlock(offset: nat, bs: nat)
    requires 0 < bs < U32_RANGE
    ensures U32(offset - Mul32(U32(Div(offset, bs)), bs)) == Rem(offset, bs)
  {
    var q := Div(offset, bs);
    DivRem(offset, bs);
    Mul32Is(U32(q), bs);
    WrappedProduct(q, bs);
    var m := (q * bs - U32(U32(q) * bs)) / U32_RANGE;
    AddMultiple(Rem(offset, bs), m);
  }

  /** The wrapped product misses the true one by a multiple of 2^32. */
  lemma WrappedProduct(q: nat, bs: nat)
    ensures q * bs - U32(U32(q) * bs) == (q * bs - U32(U32(q) * bs)) / U32_RANGE * U32_RANGE
  {
    var k, b := q / U32_RANGE, U32(q);
    var p := b * bs;
    assert q * bs == (k * bs) * U32_RANGE + p by {
      assert q == k * U32_RANGE + b;
      assert (k * U32_RANGE) * bs == (k * bs) * U32_RANGE;
      assert q * bs == (k * U32_RANGE) * bs + b * bs;
    }
    MultipleOf(k * bs, p);
  }

  lemma MultipleOf(m: nat, p: nat)
    ensures var x := m * U32_RANGE + p - U32(p); x == x / U32_RANGE * U32_RANGE
  {
  }

  lemma AddMultiple(r: nat, m: int)
    requires r < U32_RANGE
    ensures U32(m * U32_RANGE + r) == r
  {
  }

  // ---------------------------------------------------------------- runs

  ghost predicate LegalRun(c: Config, qs: seq<Request>) {
    forall i :: 0 <= i < |qs| ==> Legal(c, qs[i])
  }

  /** A run: the cache before and after each request, and what each request got. */
  datatype Run = Run(caches: seq<Cache>, outcomes: seq<Outcome>)

  ghost predicate StepAt(c: Config, hash: Hash, host: Provider, qs: seq<Request>, r: Run, i: nat)
    requires LegalRun(c, qs) && i < |qs| == |r.outcomes| < |r.caches|
  {
    WellSized(c, r.caches[i]) && Read(c, hash, host, r.caches[i], qs[i]) == Served(r.caches[i + 1], r.outcomes[i])
  }

  ghost predicate IsRun(c: Config, hash: Hash, host: Provider, qs: seq<Request>, r: Run) {
    LegalRun(c, qs) && |qs| == |r.outcomes| && |r.caches| == |qs| + 1 &&
    forall i {:trigger StepAt(c, hash, host, qs, r, i)} :: 0 <= i < |qs| ==> StepAt(c, hash, host, qs, r, i)
  }

  /** A started file system: nothing cached, no digest stored, the buffer as malloc left it. */
  ghost predicate Fresh(c: Config, s: Cache) {
    WellSized(c, s) && s.curr == NO_BLOCK && forall b :: 0 <= b < |s.hashes| ==> s.hashes[b] == UNREAD
  }

  // ---------------------------------------------------------------- agreement with the first read

  /** Block contents d is what the stored digests vouch for at index b. */
  ghost predicate Backed(c: Config, hash: Hash, hashes: seq<Digest>, b: nat, d: seq<byte>)
    requires c.Accepted() && |hashes| == c.FileBlocks()
  {
    |d| == c.blockSize && if b < |hashes| then hash(d) == hashes[b] else d == Zeros(c.blockSize)
  }

  ghost predicate Truthful(c: Config, hash: Hash, s: Cache) {
    WellSized(c, s) && (s.curr != NO_BLOCK ==> Backed(c, hash, s.hashes, s.curr, s.data))
  }

  ghost predicate WriteOnce(h: seq<Digest>, h': seq<Digest>) {
    |h| == |h'| && forall b :: 0 <= b < |h| && h[b] != UNREAD ==> h'[b] == h[b]
  }

  /** A call that delivers these bytes changes nothing in the buffer: they repeat its start, and where the block is
      short the tail, which is cleared before the host is called, held zeros already. */
  ghost predicate Undisturbed(c: Config, buf: seq<byte>, block: nat, bytes: seq<byte>)
    requires c.Accepted() && block < c.FileBlocks() && |buf| == c.blockSize
  {
    var n := FetchSize(c, block);
    (forall i :: 0 <= i < Min(n, |bytes|) ==> bytes[i] == buf[i]) && forall i :: n <= i < c.blockSize ==> buf[i] == 0
  }

  /** The host is asked for a block and fails while another block is cached. */
  ghost predicate FailsOver(c: Config, host: Provider, s: Cache, block: nat)
    requires WellSized(c, s)
  {
    s.curr != NO_BLOCK && block != s.curr && block < c.FileBlocks() &&
    host(s.calls, block, FetchSize(c, block)).result < 0
  }

  /** If the host fails now, its answer leaves the cached block as it is. */
  ghost predicate Clean(c: Config, host: Provider, s: Cache, block: nat)
    requires WellSized(c, s)
  {
    FailsOver(c, host, s, block) ==>
      Undisturbed(c, s.data, block, host(s.calls, block, FetchSize(c, block)).bytes)
  }

  ghost predicate Spans(c: Config, q: Request)
    requires c.Accepted()
  {
    q.size + Rem(q.offset, c.blockSize) > c.blockSize
  }

  ghost predicate CleanRead(c: Config, hash: Hash, host: Provider, s: Cache, q: Request)
    requires WellSized(c, s)
  {
    var b := U32(Div(q.offset, c.blockSize));
    var f := Fetch(c, hash, host, s, b);
    Clean(c, host, s, b) && (f.code == 0 && Spans(c, q) ==> Clean(c, host, f.cache, U32(b + 1)))
  }

  /** A request that starts in the block whose index stands for "no block" is not taken to be cached already, unless
      the buffer holds the zeros that it should be answered with. */
  ghost predicate StartsKnown(c: Config, s: Cache, q: Request)
    requires c.Accepted()
  {
    U32(Div(q.offset, c.blockSize)) == NO_BLOCK ==> NotRaw(c, s)
  }

  ghost predicate NotRaw(c: Config, s: Cache) {
    s.curr == NO_BLOCK ==> s.data == Zeros(c.blockSize)
  }

  /** The buffer after a call is the one before exactly when the answer repeats it. */
  lemma DeliveredIsSame(c: Config, buf: seq<byte>, block: nat, bytes: seq<byte>)
    requires c.Accepted() && block < c.FileBlocks() && |buf| == c.blockSize
    ensures Delivered(c, buf, block, bytes) == buf <==> Undisturbed(c, buf, block, bytes)
  {
    var n, d := FetchSize(c, block), Delivered(c, buf, block, bytes);
    var k := Min(n, |bytes|);
    assert forall i :: 0 <= i < k ==> d[i] == bytes[i];
    assert forall i :: k <= i < n ==> d[i] == buf[i];
    assert forall i :: n <= i < c.blockSize ==> d[i] == 0;
    if d == buf {
      assert forall i :: 0 <= i < k ==> d[i] == buf[i];
    }
  }

  lemma FetchKeepsTruth(c: Config, hash: Hash, host: Provider, s: Cache, block: nat)
    requires Truthful(c, hash, s) && block < U32_RANGE && (block == NO_BLOCK ==> NotRaw(c, s))
    requires Clean(c, host, s, block)
    ensures var r := Fetch(c, hash, host, s, block);
            Truthful(c, hash, r.cache) && WriteOnce(s.hashes, r.cache.hashes) &&
            (r.code == 0 ==> r.cache.curr == block && Backed(c, hash, r.cache.hashes, block, r.cache.data))
  {
    if FailsOver(c, host, s, block) {
      DeliveredIsSame(c, s.data, block, host(s.calls, block, FetchSize(c, block)).bytes);
    }
  }

  lemma NextFetchKeepsTruth(c: Config, hash: Hash, host: Provider, s: Cache, block: nat, at: nat, size: nat)
    requires Truthful(c, hash, s) && s.curr == block
    requires size + at > c.blockSize ==> Clean(c, host, s, U32(block + 1))
    ensures var r := NextFetch(c, hash, host, s, block, at, size);
            Truthful(c, hash, r.cache) && WriteOnce(s.hashes, r.cache.hashes) &&
            (r.code == 0 && size + at > c.blockSize ==>
               Backed(c, hash, r.cache.hashes, U32(block + 1), r.cache.data))
  {
    if size + at > c.blockSize {
      FetchKeepsTruth(c, hash, host, s, U32(block + 1));
    }
  }

  /** The index under which position p is looked up. */
  ghost function IndexOf(c: Config, p: nat): nat
    requires c.Accepted()
  {
    U32(Div(p, c.blockSize))
  }

  ghost function PlaceOf(c: Config, p: nat): nat
    requires c.Accepted()
  {
    Rem(p, c.blockSize)
  }

  /** Position offset + i lies where the code looks for it. */
  lemma PositionInBlocks(offset: nat, bs: nat, i: nat)
    requires 0 < bs < U32_RANGE && i < bs
    ensures var at := Rem(offset, bs) + i;
            if at < bs then Div(offset + i, bs) == Div(offset, bs) && Rem(offset + i, bs) == at
            else Div(offset + i, bs) == Div(offset, bs) + 1 && Rem(offset + i, bs) == at - bs
  {
    var q, at := Div(offset, bs), Rem(offset, bs) + i;
    DivRem(offset, bs);
    if at < bs {
      DivRemUnique(offset + i, bs, q, at);
    } else {
      assert (q + 1) * bs == q * bs + bs;
      DivRemUnique(offset + i, bs, q + 1, at - bs);
    }
  }

  lemma NextIndex(q: nat)
    ensures U32(U32(q) + 1) == U32(q + 1)
  {
  }

  lemma BackedLater(c: Config, hash: Hash, h: seq<Digest>, h': seq<Digest>, b: nat, d: seq<byte>)
    requires c.Accepted() && |h| == c.FileBlocks() && WriteOnce(h, h') && Backed(c, hash, h, b, d)
    requires b < |h| ==> hash(d) != UNREAD
    ensures Backed(c, hash, h', b, d)
  {
  }

  /** The fetch from which the bytes of the second block, if any, are taken. */
  ghost function SecondFetch(c: Config, hash: Hash, host: Provider, f: Fetched, q: Request): Fetched
    requires WellSized(c, f.cache)
  {
    NextFetch(c, hash, host, f.cache, U32(Div(q.offset, c.blockSize)), Rem(q.offset, c.blockSize), q.size)
  }

  /** Block contents d, of a block of the file, was accepted by one of the fetches of this read. */
  ghost predicate HeldBy(c: Config, hash: Hash, host: Provider, s: Cache, q: Request, d: seq<byte>)
    requires WellSized(c, s)
  {
    var b := U32(Div(q.offset, c.blockSize));
    var f := Fetch(c, hash, host, s, b);
    f.code == 0 &&
    ((b < c.FileBlocks() && d == f.cache.data) ||
     (Spans(c, q) && U32(b + 1) < c.FileBlocks() &&
      var g := SecondFetch(c, hash, host, f, q); g.code == 0 && d == g.cache.data))
  }

  /** None of the contents held by this read digests to the mark that stands for "not read yet". */
  ghost predicate DigestsAreMarked(c: Config, hash: Hash, host: Provider, s: Cache, q: Request)
    requires WellSized(c, s)
  {
    forall d :: HeldBy(c, hash, host, s, q, d) ==> hash(d) != UNREAD
  }

  lemma SpliceAt(bs: nat, at: nat, size: nat, d: seq<byte>, d': seq<byte>, i: nat)
    requires |d| == |d'| == bs && size <= bs && at < bs && i < size
    ensures Splice(bs, at, size, d, d')[i] == if at + i < bs then d[at + i] else d'[at + i - bs]
  {
  }

  /** A reply is cut out of the first block fetched and, where it spills over, of the second. */
  lemma ReadParts(c: Config, hash: Hash, host: Provider, s: Cache, q: Request)
    requires WellSized(c, s) && Legal(c, q)
    ensures var f := Fetch(c, hash, host, s, U32(Div(q.offset, c.blockSize)));
            var g := SecondFetch(c, hash, host, f, q);
            Read(c, hash, host, s, q) ==
            if f.code != 0 then Served(f.cache, Error(f.code))
            else if g.code != 0 then Served(g.cache, Error(g.code))
            else Served(g.cache, Reply(Splice(c.blockSize, Rem(q.offset, c.blockSize), q.size, f.cache.data,
                                              g.cache.data)))
  {
    OffsetInBlock(q.offset, c.blockSize);
  }

  /** A read writes no digest twice. */
  lemma ReadWritesOnce(c: Config, hash: Hash, host: Provider, s: Cache, q: Request)
    requires WellSized(c, s) && Legal(c, q)
    ensures WriteOnce(s.hashes, Read(c, hash, host, s, q).cache.hashes)
  {
    var block := U32(Div(q.offset, c.blockSize));
    ReadParts(c, hash, host, s, q);
    FetchWritesOnce(c, hash, host, s, block);
    var f := Fetch(c, hash, host, s, block);
    FetchWritesOnce(c, hash, host, f.cache, U32(block + 1));
  }

  lemma FetchWritesOnce(c: Config, hash: Hash, host: Provider, s: Cache, block: nat)
    requires WellSized(c, s) && block < U32_RANGE
    ensures WriteOnce(s.hashes, Fetch(c, hash, host, s, block).cache.hashes)
  {
  }

  /** One read keeps the cache truthful and the digests write-once. */
  lemma ReadKeepsTruth(c: Config, hash: Hash, host: Provider, s: Cache, q: Request)
    requires Truthful(c, hash, s) && Legal(c, q) && StartsKnown(c, s, q) && CleanRead(c, hash, host, s, q)
    ensures var r := Read(c, hash, host, s, q);
            Truthful(c, hash, r.cache) && WriteOnce(s.hashes, r.cache.hashes)
  {
    var b := U32(Div(q.offset, c.blockSize));
    ReadParts(c, hash, host, s, q);
    FetchKeepsTruth(c, hash, host, s, b);
    var f := Fetch(c, hash, host, s, b);
    if f.code == 0 {
      NextFetchKeepsTruth(c, hash, host, f.cache, b, Rem(q.offset, c.blockSize), q.size);
    }
  }

  /** Both blocks that a reply is cut from are vouched for by the digests stored when it is sent. */
  lemma PartsAreBacked(c: Config, hash: Hash, host: Provider, s: Cache, q: Request)
    requires Truthful(c, hash, s) && Legal(c, q) && StartsKnown(c, s, q) && CleanRead(c, hash, host, s, q)
    requires Read(c, hash, host, s, q).outcome.Reply? && DigestsAreMarked(c, hash, host, s, q)
    ensures var b := U32(Div(q.offset, c.blockSize));
            var f := Fetch(c, hash, host, s, b);
            var g := SecondFetch(c, hash, host, f, q);
            Backed(c, hash, g.cache.hashes, b, f.cache.data) &&
            (Spans(c, q) ==> Backed(c, hash, g.cache.hashes, U32(b + 1), g.cache.data))
  {
    var b := U32(Div(q.offset, c.blockSize));
    ReadParts(c, hash, host, s, q);
    FetchKeepsTruth(c, hash, host, s, b);
    var f := Fetch(c, hash, host, s, b);
    NextFetchKeepsTruth(c, hash, host, f.cache, b, Rem(q.offset, c.blockSize), q.size);
    assert b < c.FileBlocks() ==> HeldBy(c, hash, host, s, q, f.cache.data);
    BackedLater(c, hash, f.cache.hashes, SecondFetch(c, hash, host, f, q).cache.hashes, b, f.cache.data);
  }

  ghost predicate Covers(q: Request, p: nat) {
    q.offset <= p < q.offset + q.size
  }

  /** Position p of a request, looked up by its own index and place. */
  lemma CutFrom(c: Config, q: Request, p: nat)
    requires c.Accepted() && Legal(c, q) && Covers(q, p)
    ensures var at := Rem(q.offset, c.blockSize) + (p - q.offset);
            var b := U32(Div(q.offset, c.blockSize));
            if at < c.blockSize then IndexOf(c, p) == b && PlaceOf(c, p) == at
            else Spans(c, q) && IndexOf(c, p) == U32(b + 1) && PlaceOf(c, p) == at - c.blockSize
  {
    PositionInBlocks(q.offset, c.blockSize, p - q.offset);
    NextIndex(Div(q.offset, c.blockSize));
  }

  /** A reply is cut from one or two blocks of contents that the stored digests vouch for. */
  lemma ReplyBlocks(c: Config, hash: Hash, host: Provider, s: Cache, q: Request) returns (d: seq<byte>, d': seq<byte>)
    requires Truthful(c, hash, s) && Legal(c, q) && StartsKnown(c, s, q) && CleanRead(c, hash, host, s, q)
    requires Read(c, hash, host, s, q).outcome.Reply? && DigestsAreMarked(c, hash, host, s, q)
    ensures var b := U32(Div(q.offset, c.blockSize));
            (b < c.FileBlocks() ==> HeldBy(c, hash, host, s, q, d)) &&
            (Spans(c, q) && U32(b + 1) < c.FileBlocks() ==> HeldBy(c, hash, host, s, q, d'))
    ensures var r := Read(c, hash, host, s, q);
            var b, at := U32(Div(q.offset, c.blockSize)), Rem(q.offset, c.blockSize);
            Backed(c, hash, r.cache.hashes, b, d) && |d'| == c.blockSize &&
            (Spans(c, q) ==> Backed(c, hash, r.cache.hashes, U32(b + 1), d')) &&
            r.outcome.bytes == Splice(c.blockSize, at, q.size, d, d')
  {
    ReadParts(c, hash, host, s, q);
    PartsAreBacked(c, hash, host, s, q);
    var f := Fetch(c, hash, host, s, U32(Div(q.offset, c.blockSize)));
    d, d' := f.cache.data, SecondFetch(c, hash, host, f, q).cache.data;
  }

  /** Every byte of a reply is cut from contents that the stored digests vouch for. */
  lemma ReplyIsBacked(c: Config, hash: Hash, host: Provider, s: Cache, q: Request, p: nat) returns (d: seq<byte>)
    requires Truthful(c, hash, s) && Legal(c, q) && StartsKnown(c, s, q) && CleanRead(c, hash, host, s, q)
    requires Read(c, hash, host, s, q).outcome.Reply? && Covers(q, p)
    requires DigestsAreMarked(c, hash, host, s, q)
    ensures IndexOf(c, p) < c.FileBlocks() ==> HeldBy(c, hash, host, s, q, d)
    ensures var r := Read(c, hash, host, s, q);
            Backed(c, hash, r.cache.hashes, IndexOf(c, p), d) && d[PlaceOf(c, p)] == r.outcome.bytes[p - q.offset]
  {
    var e, e' := ReplyBlocks(c, hash, host, s, q);
    var r := Read(c, hash, host, s, q);
    d := if Rem(q.offset, c.blockSize) + (p - q.offset) < c.blockSize then e else e';
    CutFrom(c, q, p);
    PickBlock(c, hash, r.cache.hashes, q, p, r.outcome.bytes, e, e');
  }

  lemma PickBlock(c: Config, hash: Hash, h: seq<Digest>, q: Request, p: nat, bytes: seq<byte>, e: seq<byte>,
                  e': seq<byte>)
    requires c.Accepted() && |h| == c.FileBlocks() && Legal(c, q) && Covers(q, p) && |bytes| == q.size
    requires Backed(c, hash, h, U32(Div(q.offset, c.blockSize)), e) && |e'| == c.blockSize
    requires Spans(c, q) ==> Backed(c, hash, h, U32(U32(Div(q.offset, c.blockSize)) + 1), e')
    requires bytes == Splice(c.blockSize, Rem(q.offset, c.blockSize), q.size, e, e')
    ensures var d := if Rem(q.offset, c.blockSize) + (p - q.offset) < c.blockSize then e else e';
            Backed(c, hash, h, IndexOf(c, p), d) && d[PlaceOf(c, p)] == bytes[p - q.offset]
  {
    CutFrom(c, q, p);
    SpliceAt(c.blockSize, Rem(q.offset, c.blockSize), q.size, e, e', p - q.offset);
  }

  ghost predicate CleanAt(c: Config, hash: Hash, host: Provider, q: Request, s: Cache)
    requires WellSized(c, s)
  {
    StartsKnown(c, s, q) && CleanRead(c, hash, host, s, q)
  }

  /** Block contents d, of a block of the file, was accepted by some fetch of the run. */
  ghost predicate Held(c: Config, hash: Hash, host: Provider, qs: seq<Request>, r: Run, d: seq<byte>)
    requires |qs| < |r.caches|
  {
    exists i :: 0 <= i < |qs| && WellSized(c, r.caches[i]) && HeldBy(c, hash, host, r.caches[i], qs[i], d)
  }

  ghost predicate CleanRun(c: Config, hash: Hash, host: Provider, qs: seq<Request>, r: Run) {
    IsRun(c, hash, host, qs, r) && Truthful(c, hash, r.caches[0]) &&
    forall i {:trigger CleanAt(c, hash, host, qs[i], r.caches[i])} :: 0 <= i < |qs| ==>
      WellSized(c, r.caches[i]) && CleanAt(c, hash, host, qs[i], r.caches[i])
  }

  /** Stored digests never change, over any stretch of any run, failed calls and sentinel reads included. */
  lemma {:induction false} DigestsAreWriteOnce(c: Config, hash: Hash, host: Provider, qs: seq<Request>, r: Run,
                                               i: nat, j: nat)
    requires IsRun(c, hash, host, qs, r) && i <= j <= |qs|
    ensures WriteOnce(r.caches[i].hashes, r.caches[j].hashes)
    decreases j
  {
    if i < j {
      DigestsAreWriteOnce(c, hash, host, qs, r, i, j - 1);
      assert StepAt(c, hash, host, qs, r, j - 1);
      ReadWritesOnce(c, hash, host, r.caches[j - 1], qs[j - 1]);
    }
  }

  /** The cache is truthful at every point of a clean run. */
  lemma {:induction false} RunIsTruthful(c: Config, hash: Hash, host: Provider, qs: seq<Request>, r: Run, i: nat)
    requires CleanRun(c, hash, host, qs, r) && i <= |qs|
    ensures Truthful(c, hash, r.caches[i])
  {
    if i > 0 {
      RunIsTruthful(c, hash, host, qs, r, i - 1);
      assert StepAt(c, hash, host, qs, r, i - 1) && CleanAt(c, hash, host, qs[i - 1], r.caches[i - 1]);
      ReadKeepsTruth(c, hash, host, r.caches[i - 1], qs[i - 1]);
    }
  }

  lemma ReplySize(c: Config, hash: Hash, host: Provider, qs: seq<Request>, r: Run, i: nat)
    requires IsRun(c, hash, host, qs, r) && i < |qs| && r.outcomes[i].Reply?
    ensures |r.outcomes[i].bytes| == qs[i].size
  {
    assert StepAt(c, hash, host, qs, r, i);
  }

  lemma ReplyAtIsBacked(c: Config, hash: Hash, host: Provider, qs: seq<Request>, r: Run, i: nat, p: nat)
    returns (d: seq<byte>)
    requires CleanRun(c, hash, host, qs, r) && !UnreadMarkHeld(c, hash, host, qs, r)
    requires i < |qs| && Covers(qs[i], p) && r.outcomes[i].Reply?
    ensures WellSized(c, r.caches[i + 1]) && |r.outcomes[i].bytes| == qs[i].size
    ensures Backed(c, hash, r.caches[i + 1].hashes, IndexOf(c, p), d)
    ensures IndexOf(c, p) < c.FileBlocks() ==> Held(c, hash, host, qs, r, d) && hash(d) != UNREAD
    ensures d[PlaceOf(c, p)] == r.outcomes[i].bytes[p - qs[i].offset]
  {
    RunIsTruthful(c, hash, host, qs, r, i);
    assert StepAt(c, hash, host, qs, r, i) && CleanAt(c, hash, host, qs[i], r.caches[i]);
    d := ReplyIsBacked(c, hash, host, r.caches[i], qs[i], p);
  }

  /** Two different block contents accepted during the run have the same digest. */
  ghost predicate CollisionHeld(c: Config, hash: Hash, host: Provider, qs: seq<Request>, r: Run)
    requires |qs| < |r.caches|
  {
    exists d, d' :: Held(c, hash, host, qs, r, d) && Held(c, hash, host, qs, r, d') && d != d' && hash(d) == hash(d')
  }

  /** Some block contents accepted during the run digest to the "not read yet" mark. */
  ghost predicate UnreadMarkHeld(c: Config, hash: Hash, host: Provider, qs: seq<Request>, r: Run)
    requires |qs| < |r.caches|
  {
    exists d :: Held(c, hash, host, qs, r, d) && hash(d) == UNREAD
  }

  /** The invariant of the file's head comment: whatever the host answers, two successful reads of one position
      agree, unless the blocks accepted in this very run exhibit a collision of the digest function or one of them
      digests to the "not read yet" mark. */
  lemma ReadsAgree(c: Config, hash: Hash, host: Provider, qs: seq<Request>, r: Run, i: nat, j: nat, p: nat)
    requires CleanRun(c, hash, host, qs, r)
    requires i < j < |qs| && Covers(qs[i], p) && Covers(qs[j], p) && r.outcomes[i].Reply? && r.outcomes[j].Reply?
    ensures |r.outcomes[i].bytes| == qs[i].size && |r.outcomes[j].bytes| == qs[j].size
    ensures r.outcomes[i].bytes[p - qs[i].offset] == r.outcomes[j].bytes[p - qs[j].offset]
            || CollisionHeld(c, hash, host, qs, r) || UnreadMarkHeld(c, hash, host, qs, r)
  {
    ReplySize(c, hash, host, qs, r, i);
    ReplySize(c, hash, host, qs, r, j);
    if !UnreadMarkHeld(c, hash, host, qs, r) {
      var d, d' := BlocksBehind(c, hash, host, qs, r, i, j, p);
    }
  }

  /** The block contents behind two reads of one position are equal or have one digest. */
  lemma BlocksBehind(c: Config, hash: Hash, host: Provider, qs: seq<Request>, r: Run, i: nat, j: nat, p: nat)
    returns (d: seq<byte>, d': seq<byte>)
    requires CleanRun(c, hash, host, qs, r) && !UnreadMarkHeld(c, hash, host, qs, r)
    requires i < j < |qs| && Covers(qs[i], p) && Covers(qs[j], p) && r.outcomes[i].Reply? && r.outcomes[j].Reply?
    ensures d == d' || (Held(c, hash, host, qs, r, d) && Held(c, hash, host, qs, r, d') && hash(d) == hash(d'))
    ensures c.Accepted() && PlaceOf(c, p) < |d| == |d'|
    ensures |r.outcomes[i].bytes| == qs[i].size && |r.outcomes[j].bytes| == qs[j].size
    ensures d[PlaceOf(c, p)] == r.outcomes[i].bytes[p - qs[i].offset]
    ensures d'[PlaceOf(c, p)] == r.outcomes[j].bytes[p - qs[j].offset]
  {
    d := ReplyAtIsBacked(c, hash, host, qs, r, i, p);
    d' := ReplyAtIsBacked(c, hash, host, qs, r, j, p);
    StaysBacked(c, hash, host, qs, r, i + 1, j + 1, IndexOf(c, p), d);
  }

  /** Contents vouched for stay vouched for. */
  lemma StaysBacked(c: Config, hash: Hash, host: Provider, qs: seq<Request>, r: Run, i: nat, j: nat, b: nat,
                    d: seq<byte>)
    requires IsRun(c, hash, host, qs, r) && i <= j <= |qs|
    requires WellSized(c, r.caches[i]) && Backed(c, hash, r.caches[i].hashes, b, d)
    requires b < c.FileBlocks() ==> hash(d) != UNREAD
    ensures |r.caches[j].hashes| == c.FileBlocks() && Backed(c, hash, r.caches[j].hashes, b, d)
  {
    DigestsAreWriteOnce(c, hash, host, qs, r, i, j);
    BackedLater(c, hash, r.caches[i].hashes, r.caches[j].hashes, b, d);
  }

  lemma WholeBlockRequest(b: nat, bs: nat)
    requires b < U32_RANGE && 0 < bs < U32_RANGE
    ensures Div(b * bs, bs) == b && Rem(b * bs, bs) == 0
  {
    DivRemUnique(b * bs, bs, b, 0);
  }

  /** A read that starts on a block boundary is cut from that block alone. */
  lemma AlignedRead(c: Config, hash: Hash, host: Provider, s: Cache, b: nat, size: nat)
    requires WellSized(c, s) && b < U32_RANGE && Fetch(c, hash, host, s, b).code == 0 && size <= c.blockSize
    ensures var f := Fetch(c, hash, host, s, b);
            Read(c, hash, host, s, Request(b * c.blockSize, size)) == Served(f.cache, Reply(f.cache.data[..size]))
  {
    WholeBlockRequest(b, c.blockSize);
    BoundaryRead(c, hash, host, s, b * c.blockSize, b, size);
  }

  lemma BoundaryRead(c: Config, hash: Hash, host: Provider, s: Cache, offset: nat, b: nat, size: nat)
    requires WellSized(c, s) && b < U32_RANGE && Fetch(c, hash, host, s, b).code == 0 && size <= c.blockSize
    requires Div(offset, c.blockSize) == b && Rem(offset, c.blockSize) == 0
    ensures var f := Fetch(c, hash, host, s, b);
            Read(c, hash, host, s, Request(offset, size)) == Served(f.cache, Reply(f.cache.data[..size]))
  {
    ReadParts(c, hash, host, s, Request(offset, size));
    var f := Fetch(c, hash, host, s, b);
    assert f.cache.data[0..size] == f.cache.data[..size];
  }

  /** A host that answers with one block first and with another from then on. */
  function TwoFaced(first: nat, d: seq<byte>, d': seq<byte>): Provider {
    (k: nat, b: nat, n: nat) => Answer(0, if k == first then d else d')
  }

  /** Neither exception of ReadsAgree can be dropped: a pair of blocks with one digest, or a block that digests to
      the "not read yet" mark, lets a host answer two reads of block 0 differently. */
  lemma ExceptionsAreReal(c: Config, hash: Hash, s: Cache, d: seq<byte>, d': seq<byte>)
    requires Fresh(c, s) && c.fileSize >= c.blockSize && c.FileBlocks() > 0 && |d| == |d'| == c.blockSize
    requires hash(d) == hash(d') || hash(d) == UNREAD
    ensures var q, away := Request(0, c.blockSize), Request(c.FileBlocks() * c.blockSize, 1);
            var host := TwoFaced(s.calls, d, d');
            var first := Read(c, hash, host, s, q);
            var second := Read(c, hash, host, first.cache, away);
            first.outcome == Reply(d) && second.outcome.Reply? &&
            Read(c, hash, host, second.cache, q).outcome == Reply(d')
  {
    var host := TwoFaced(s.calls, d, d');
    var f := Fetch(c, hash, host, s, 0);
    WholeFetch(c, hash, host, s, d);
    AlignedRead(c, hash, host, s, 0, c.blockSize);
    var g := Fetch(c, hash, host, f.cache, c.FileBlocks());
    AlignedRead(c, hash, host, f.cache, c.FileBlocks(), 1);
    WholeFetch(c, hash, host, g.cache, d');
    AlignedRead(c, hash, host, g.cache, 0, c.blockSize);
    assert d[..c.blockSize] == d && d'[..c.blockSize] == d';
  }

  /** A fetch of block 0 whose answer is a whole block that the stored digest does not contradict. */
  lemma WholeFetch(c: Config, hash: Hash, host: Provider, s: Cache, d: seq<byte>)
    requires WellSized(c, s) && s.curr != 0 && c.fileSize >= c.blockSize && c.FileBlocks() > 0 && |d| == c.blockSize
    requires host(s.calls, 0, c.blockSize) == Answer(0, d) && (s.hashes[0] == UNREAD || s.hashes[0] == hash(d))
    ensures Fetch(c, hash, host, s, 0)
            == Fetched(0, Cache(0, d, s.hashes[0 := hash(d)], s.calls + 1))
  {
    assert Mul32(0, c.blockSize) == 0 && FetchSize(c, 0) == c.blockSize;
    assert Overwrite(s.data, d, c.blockSize) == d;
    assert s.hashes[0 := s.hashes[0]] == s.hashes;
  }

  /** While nothing is cached, reading the index 2^32 - 1 serves the raw buffer; once another block has been read it
      serves zeros. So the two reads agree, for every digest function and every host, exactly when those bytes of the
      buffer are zero. */
  lemma SentinelReadDisagrees(c: Config, hash: Hash, host: Provider, s: Cache, size: nat)
    requires WellSized(c, s) && s.curr == NO_BLOCK && size <= c.blockSize
    ensures var q, away := Request(NO_BLOCK * c.blockSize, size), Request(c.FileBlocks() * c.blockSize, 1);
            var first := Read(c, hash, host, s, q);
            var second := Read(c, hash, host, first.cache, away);
            var again := Read(c, hash, host, second.cache, q).outcome;
            first.outcome == Reply(s.data[..size]) && second.outcome.Reply? && again == Reply(Zeros(size)) &&
            (first.outcome == again <==> forall i :: 0 <= i < size ==> s.data[i] == 0)
  {
    AlignedRead(c, hash, host, s, NO_BLOCK, size);
    AlignedRead(c, hash, host, s, c.FileBlocks(), 1);
    AlignedRead(c, hash, host, Fetch(c, hash, host, s, c.FileBlocks()).cache, NO_BLOCK, size);
    assert Zeros(c.blockSize)[..size] == Zeros(size);
    assert s.data[..size] == Zeros(size) <==> forall i :: 0 <= i < size ==> s.data[i] == 0;
  }

  /** A request that spills over into that block is answered as it should be: the byte past its own block is zero,
      whatever was in the buffer. */
  lemma SentinelSpillIsZero(c: Config, hash: Hash, host: Provider, s: Cache, q: Request, i: nat)
    requires WellSized(c, s) && Legal(c, q) && U32(Div(q.offset, c.blockSize)) == NO_BLOCK - 1
    requires i < q.size && Rem(q.offset, c.blockSize) + i >= c.blockSize
    ensures var r := Read(c, hash, host, s, q).outcome; r.Reply? && r.bytes[i] == 0
  {
    ReadParts(c, hash, host, s, q);
    var f := Fetch(c, hash, host, s, NO_BLOCK - 1);
    SpliceAt(c.blockSize, Rem(q.offset, c.blockSize), q.size, f.cache.data, Zeros(c.blockSize), i);
  }

  /** A block whose contents do not have the digest stored is refused with EIO, and nothing stays cached. */
  lemma ChangedBlockIsRefused(c: Config, hash: Hash, host: Provider, s: Cache, b: nat, size: nat)
    requires WellSized(c, s) && b < c.FileBlocks() && s.curr != b && size <= c.blockSize
    requires var answer := host(s.calls, b, FetchSize(c, b));
             answer.result >= 0 && s.hashes[b] != UNREAD &&
             hash(Delivered(c, s.data, b, answer.bytes)) != s.hashes[b]
    ensures var r := Read(c, hash, host, s, Request(b * c.blockSize, size));
            r.outcome == Error(-5) && r.cache.curr == NO_BLOCK && r.cache.hashes == s.hashes
  {
    FetchRefuses(c, hash, host, s, b);
    FailedRead(c, hash, host, s, b, size);
  }

  lemma FetchRefuses(c: Config, hash: Hash, host: Provider, s: Cache, b: nat)
    requires WellSized(c, s) && b < c.FileBlocks() && s.curr != b
    requires var answer := host(s.calls, b, FetchSize(c, b));
             answer.result >= 0 && s.hashes[b] != UNREAD &&
             hash(Delivered(c, s.data, b, answer.bytes)) != s.hashes[b]
    ensures var f := Fetch(c, hash, host, s, b);
            f.code == -5 && f.cache.curr == NO_BLOCK && f.cache.hashes == s.hashes
  {
  }

  /** The error of the first fetch is that of the read. */
  lemma FailedRead(c: Config, hash: Hash, host: Provider, s: Cache, b: nat, size: nat)
    requires WellSized(c, s) && b < U32_RANGE && size <= c.blockSize && Fetch(c, hash, host, s, b).code != 0
    ensures var f := Fetch(c, hash, host, s, b);
            Read(c, hash, host, s, Request(b * c.blockSize, size)) == Served(f.cache, Error(f.code))
  {
    WholeBlockRequest(b, c.blockSize);
    FailedAt(c, hash, host, s, b * c.blockSize, b, size);
  }

  lemma FailedAt(c: Config, hash: Hash, host: Provider, s: Cache, offset: nat, b: nat, size: nat)
    requires WellSized(c, s) && b < U32_RANGE && size <= c.blockSize && Fetch(c, hash, host, s, b).code != 0
    requires Div(offset, c.blockSize) == b
    ensures var f := Fetch(c, hash, host, s, b);
            Read(c, hash, host, s, Request(offset, size)) == Served(f.cache, Error(f.code))
  {
    ReadParts(c, hash, host, s, Request(offset, size));
    assert b == U32(Div(offset, c.blockSize));
  }

  /** An error of the host is the error of the read. */
  lemma HostErrorIsPassedOn(c: Config, hash: Hash, host: Provider, s: Cache, b: nat, size: nat)
    requires WellSized(c, s) && b < c.FileBlocks() && s.curr != b && size <= c.blockSize
    requires host(s.calls, b, FetchSize(c, b)).result < 0
    ensures var r := Read(c, hash, host, s, Request(b * c.blockSize, size));
            r.outcome == Error(host(s.calls, b, FetchSize(c, b)).result) && r.cache.curr == s.curr
  {
    FailedRead(c, hash, host, s, b, size);
  }

  /** Reads within the cached block, and beyond the last block, do not ask the host. */
  lemma CachedReadsAskNobody(c: Config, hash: Hash, host: Provider, s: Cache, q: Request)
    requires WellSized(c, s) && Legal(c, q) && !Spans(c, q)
    requires var b := U32(Div(q.offset, c.blockSize)); b == s.curr || b >= c.FileBlocks()
    ensures var r := Read(c, hash, host, s, q); r.outcome.Reply? && r.cache.calls == s.calls
  {
    ReadParts(c, hash, host, s, q);
  }

  /** After a failed call of the host the cached block is served as if it were intact: reading it again gives the
      earlier bytes exactly when the bytes delivered repeat them and a short block's tail was zero. */
  lemma AfterFailedFetch(c: Config, hash: Hash, host: Provider, s: Cache, block: nat)
    requires WellSized(c, s) && FailsOver(c, host, s, block)
    ensures var r := Fetch(c, hash, host, s, block);
            var again := Read(c, hash, host, r.cache, Request(s.curr * c.blockSize, c.blockSize)).outcome;
            r.code < 0 &&
            (again == Reply(s.data) <==>
             Undisturbed(c, s.data, block, host(s.calls, block, FetchSize(c, block)).bytes))
  {
    var r := Fetch(c, hash, host, s, block);
    AlignedRead(c, hash, host, r.cache, s.curr, c.blockSize);
    assert r.cache.data[..c.blockSize] == r.cache.data;
    DeliveredIsSame(c, s.data, block, host(s.calls, block, FetchSize(c, block)).bytes);
  }

  /** A host that fails after writing one byte disturbs the cached block. */
  lemma FailureCanDisturb(c: Config, hash: Hash, s: Cache)
    requires WellSized(c, s) && c.FileBlocks() > 1 && s.curr == 0 && s.data[0] == 0
    ensures !Clean(c, (k, b, n) => Answer(-EIO, [1]), s, 1)
  {
    BlockStartsInside(c, 1);
    var host: Provider := (k, b, n) => Answer(-EIO, [1]);
    assert FailsOver(c, host, s, 1) && FetchSize(c, 1) > 0;
    assert host(s.calls, 1, FetchSize(c, 1)).bytes[0] != s.data[0];
  }

  /** So does a host that fails without writing anything, when it is asked for a short block: the cached block then
      loses its tail, unless that was zero. */
  lemma SilentFailure(c: Config, hash: Hash, s: Cache, block: nat)
    requires WellSized(c, s) && s.curr != NO_BLOCK && block != s.curr && block < c.FileBlocks()
    ensures var host: Provider := (k, b, n) => Answer(-EIO, []);
            var r := Fetch(c, hash, host, s, block);
            r.code < 0 &&
            (Read(c, hash, host, r.cache, Request(s.curr * c.blockSize, c.blockSize)).outcome == Reply(s.data)
             <==> forall i :: FetchSize(c, block) <= i < c.blockSize ==> s.data[i] == 0)
  {
    var host: Provider := (k, b, n) => Answer(-EIO, []);
    assert FailsOver(c, host, s, block);
    AfterFailedFetch(c, hash, host, s, block);
    assert host(s.calls, block, FetchSize(c, block)).bytes == [];
  }
}
