/** The sideload cache in front of a host that always serves one file. */
module SideloadFile {
  import opened Words
  import opened Sideload

  /** The file continued by zeros. */
  function PaddedAt(file: seq<byte>, p: nat): byte {
    if p < |file| then file[p] else 0
  }

  function Slice(file: seq<byte>, from: nat, n: nat): (s: seq<byte>)
    ensures |s| == n && forall i :: 0 <= i < n ==> s[i] == PaddedAt(file, from + i)
  {
    seq<byte>(n, i requires 0 <= i => PaddedAt(file, from + i))
  }

  function Content(c: Config, file: seq<byte>, b: nat): seq<byte> {
    Slice(file, b * c.blockSize, c.blockSize)
  }

  /** At most n bytes of the file, from a position on. */
  function Available(file: seq<byte>, from: nat, n: nat): seq<byte> {
    file[Min(from, |file|)..Min(from + n, |file|)]
  }

  /** Every call succeeds and delivers the bytes asked for, as far as the file has them. */
  ghost predicate Serves(c: Config, file: seq<byte>, host: Provider)
    requires c.Accepted()
  {
    |file| == c.fileSize &&
    forall k: nat, b: nat, n: nat {:trigger host(k, b, n)} :: b < c.FileBlocks() ==>
      host(k, b, n).result >= 0 &&
      host(k, b, n).bytes == Available(file, b * c.blockSize, n)
  }

  /** The last block is whole, or starts below the range of the 32-bit product. */
  predicate LastBlockFits(c: Config)
    requires c.blockSize > 0
  {
    Rem(c.fileSize, c.blockSize) == 0 || (c.TrueBlocks() - 1) * c.blockSize < U32_RANGE
  }

  predicate Faithful(c: Config)
    requires c.blockSize > 0
  {
    c.TrueBlocks() < U32_RANGE && LastBlockFits(c)
  }

  // ---------------------------------------------------------------- sizes asked of the host

  ghost predicate ExactFetch(c: Config, b: nat)
    requires c.Accepted() && b < c.FileBlocks()
  {
    b * c.blockSize < c.fileSize && FetchSize(c, b) == Min(c.blockSize, c.fileSize - b * c.blockSize)
  }

  /** A block before the last is whole. */
  lemma WholeBefore(c: Config, b: nat)
    requires c.blockSize > 0 && b + 1 < c.TrueBlocks()
    ensures (b + 1) * c.blockSize < c.fileSize
  {
    DivRem(c.fileSize - 1, c.blockSize);
    MulMono(b + 1, Div(c.fileSize - 1, c.blockSize), c.blockSize);
  }

  lemma LastBlockSize(c: Config)
    requires c.blockSize > 0 && c.fileSize > 0
    ensures var last := (c.TrueBlocks() - 1) * c.blockSize;
            last < c.fileSize <= last + c.blockSize &&
            (c.fileSize == last + c.blockSize <==> Rem(c.fileSize, c.blockSize) == 0)
  {
    var x, bs := c.fileSize - 1, c.blockSize;
    DivRem(x, bs);
    if Rem(x, bs) + 1 == bs {
      assert (Div(x, bs) + 1) * bs == Div(x, bs) * bs + bs;
      DivRemUnique(c.fileSize, bs, Div(x, bs) + 1, 0);
    } else {
      DivRemUnique(c.fileSize, bs, Div(x, bs), Rem(x, bs) + 1);
    }
  }

  lemma WrappedStart(p: nat)
    requires p >= U32_RANGE
    ensures U32(p) <= p - U32_RANGE
  {
  }

  /** The size asked for is right exactly for the blocks before the last, and for the last if it fits. */
  lemma FetchIsExact(c: Config, b: nat)
    requires c.Accepted() && b < c.FileBlocks()
    ensures ExactFetch(c, b) <==> b + 1 < c.TrueBlocks() || LastBlockFits(c)
  {
    BlockStartsInside(c, b);
    LastBlockSize(c);
    Mul32Is(b, c.blockSize);
    if b + 1 < c.TrueBlocks() {
      WholeBefore(c, b);
      assert (b + 1) * c.blockSize == b * c.blockSize + c.blockSize;
    }
    SizeAsked(b * c.blockSize, c.blockSize, c.fileSize);
  }

  /** The arithmetic of one block: start p, block size bs, file size n. */
  lemma SizeAsked(p: nat, bs: nat, n: nat)
    requires p < n && bs <= 0x40_0000
    ensures var asked := if U32(p) + bs > n then n - U32(p) else bs;
            asked == Min(bs, n - p) <==> p + bs <= n || p < U32_RANGE
  {
  }

  lemma FetchesAreExact(c: Config)
    requires c.Accepted()
    ensures (forall b :: 0 <= b < c.FileBlocks() ==> ExactFetch(c, b))
            <==> LastBlockFits(c) || c.TrueBlocks() >= U32_RANGE
  {
    if LastBlockFits(c) || c.TrueBlocks() >= U32_RANGE {
      forall b | 0 <= b < c.FileBlocks()
        ensures ExactFetch(c, b)
      {
        FetchIsExact(c, b);
      }
    } else {
      NotEmptyUnlessFits(c);
      FetchIsExact(c, c.FileBlocks() - 1);
    }
  }

  lemma NotEmptyUnlessFits(c: Config)
    requires c.Accepted() && c.TrueBlocks() < U32_RANGE && !LastBlockFits(c)
    ensures 0 < c.FileBlocks() && c.fileSize > 0
  {
  }

  // ---------------------------------------------------------------- replies

  /** A host whose every call leaves the block image(b) in the buffer. */
  ghost predicate Delivers(c: Config, image: nat -> seq<byte>, host: Provider)
    requires c.Accepted()
  {
    (forall b :: |image(b)| == c.blockSize) &&
    (forall b :: b >= c.FileBlocks() ==> image(b) == Zeros(c.blockSize)) &&
    forall k: nat, b: nat, buf: seq<byte> {:trigger Call(c, host, k, b, buf)} ::
      b < c.FileBlocks() && |buf| == c.blockSize ==>
        Call(c, host, k, b, buf) == Fetched(0, Cache(b, image(b), [], k + 1))
  }

  /** One call of the host, on its own: the buffer it leaves and whether it succeeded. */
  ghost function Call(c: Config, host: Provider, k: nat, b: nat, buf: seq<byte>): Fetched
    requires c.Accepted() && b < c.FileBlocks() && |buf| == c.blockSize
  {
    var answer := host(k, b, FetchSize(c, b));
    Fetched(if answer.result < 0 then answer.result else 0, Cache(b, Delivered(c, buf, b, answer.bytes), [], k + 1))
  }

  /** The cached block and every stored digest are those of the image. */
  ghost predicate Mirrors(c: Config, hash: Hash, image: nat -> seq<byte>, s: Cache) {
    WellSized(c, s) && (s.curr != NO_BLOCK ==> s.data == image(s.curr)) &&
    forall b :: 0 <= b < |s.hashes| ==> s.hashes[b] == UNREAD || s.hashes[b] == hash(image(b))
  }

  lemma FetchMirrors(c: Config, hash: Hash, image: nat -> seq<byte>, host: Provider, s: Cache, b: nat)
    requires Mirrors(c, hash, image, s) && Delivers(c, image, host)
    requires b < U32_RANGE && (b == NO_BLOCK ==> s.curr != NO_BLOCK)
    ensures var r := Fetch(c, hash, host, s, b);
            r.code == 0 && r.cache.curr == b && Mirrors(c, hash, image, r.cache) && r.cache.data == image(b)
  {
    if b != s.curr && b < c.FileBlocks() {
      MissMirrors(c, hash, image, host, s, b);
    }
  }

  lemma MissMirrors(c: Config, hash: Hash, image: nat -> seq<byte>, host: Provider, s: Cache, b: nat)
    requires Mirrors(c, hash, image, s) && Delivers(c, image, host) && b < c.FileBlocks() && b != s.curr
    ensures var r := Fetch(c, hash, host, s, b);
            r.code == 0 && r.cache.curr == b && Mirrors(c, hash, image, r.cache)
  {
    assert Call(c, host, s.calls, b, s.data).code == 0;
    var r := Fetch(c, hash, host, s, b);
    assert r.cache.data == image(b);
    assert r.cache.hashes == s.hashes || r.cache.hashes == s.hashes[b := hash(image(b))];
  }

  /** The request starts in a block whose index is within the 32-bit range and not the "no block" mark. */
  ghost predicate Addressable(c: Config, q: Request)
    requires c.Accepted()
  {
    Div(q.offset, c.blockSize) < NO_BLOCK
  }

  lemma SmallIndex(x: nat)
    requires x < NO_BLOCK
    ensures U32(x) == x && U32(x + 1) == x + 1
  {
  }

  /** Both fetches of a read succeed and leave blocks of the image in the cache. */
  lemma FetchesOfRead(c: Config, hash: Hash, image: nat -> seq<byte>, host: Provider, s: Cache, q: Request)
    requires Mirrors(c, hash, image, s) && Delivers(c, image, host) && Addressable(c, q)
    ensures var b := Div(q.offset, c.blockSize);
            var f := Fetch(c, hash, host, s, U32(b));
            var g := SecondFetch(c, hash, host, f, q);
            f.code == 0 && g.code == 0 && Mirrors(c, hash, image, g.cache) && f.cache.data == image(b) &&
            (Spans(c, q) ==> g.cache.data == image(b + 1))
  {
    var b := Div(q.offset, c.blockSize);
    SmallIndex(b);
    FetchMirrors(c, hash, image, host, s, b);
    if Spans(c, q) {
      FetchMirrors(c, hash, image, host, Fetch(c, hash, host, s, b).cache, b + 1);
    }
  }

  ghost predicate CutOut(c: Config, image: nat -> seq<byte>, q: Request, bytes: seq<byte>)
    requires c.Accepted() && forall b :: |image(b)| == c.blockSize
  {
    var b, at := Div(q.offset, c.blockSize), Rem(q.offset, c.blockSize);
    q.size <= c.blockSize && bytes == Splice(c.blockSize, at, q.size, image(b), image(b + 1))
  }

  lemma ReadMirrors(c: Config, hash: Hash, image: nat -> seq<byte>, host: Provider, s: Cache, q: Request)
    requires Mirrors(c, hash, image, s) && Delivers(c, image, host) && Legal(c, q) && Addressable(c, q)
    ensures var r := Read(c, hash, host, s, q);
            Mirrors(c, hash, image, r.cache) && r.outcome.Reply? && CutOut(c, image, q, r.outcome.bytes)
  {
    FetchesOfRead(c, hash, image, host, s, q);
    ReadParts(c, hash, host, s, q);
  }

  lemma {:induction false} RunMirrors(c: Config, hash: Hash, image: nat -> seq<byte>, host: Provider,
                                      qs: seq<Request>, r: Run, i: nat)
    requires IsRun(c, hash, host, qs, r) && Fresh(c, r.caches[0]) && Delivers(c, image, host) && i <= |qs|
    requires forall k :: 0 <= k < |qs| ==> Addressable(c, qs[k])
    ensures Mirrors(c, hash, image, r.caches[i])
    ensures i < |qs| ==> r.outcomes[i].Reply? && CutOut(c, image, qs[i], r.outcomes[i].bytes)
  {
    if i > 0 {
      RunMirrors(c, hash, image, host, qs, r, i - 1);
      assert StepAt(c, hash, host, qs, r, i - 1);
      ReadMirrors(c, hash, image, host, r.caches[i - 1], qs[i - 1]);
    }
    if i < |qs| {
      assert StepAt(c, hash, host, qs, r, i);
      ReadMirrors(c, hash, image, host, r.caches[i], qs[i]);
    }
  }

  // ---------------------------------------------------------------- the file as image

  lemma BeyondFile(c: Config, b: nat)
    requires c.Accepted() && c.TrueBlocks() < U32_RANGE && b >= c.FileBlocks()
    ensures b * c.blockSize >= c.fileSize
  {
    if c.fileSize > 0 {
      LastBlockSize(c);
      MulMono(c.TrueBlocks(), b, c.blockSize);
      var last := c.TrueBlocks() - 1;
      assert (last + 1) * c.blockSize == last * c.blockSize + c.blockSize;
    }
  }

  lemma PastTheEnd(c: Config, file: seq<byte>, b: nat)
    requires c.Accepted() && c.TrueBlocks() < U32_RANGE && |file| == c.fileSize && b >= c.FileBlocks()
    ensures Content(c, file, b) == Zeros(c.blockSize)
  {
    BeyondFile(c, b);
  }

  lemma DeliveredBytes(file: seq<byte>, start: nat, n: nat, buf: seq<byte>, bytes: seq<byte>)
    requires n <= |buf| && start + n <= |file| && bytes == file[start..start + n]
    requires n < |buf| ==> start + n == |file|
    ensures Overwrite(if n < |buf| then buf[..n] + Zeros(|buf| - n) else buf, bytes, n) == Slice(file, start, |buf|)
  {
  }

  lemma DeliveredBlock(c: Config, file: seq<byte>, host: Provider, k: nat, b: nat, buf: seq<byte>)
    requires c.Accepted() && Faithful(c) && Serves(c, file, host) && b < c.FileBlocks() && |buf| == c.blockSize
    ensures Call(c, host, k, b, buf) == Fetched(0, Cache(b, Content(c, file, b), [], k + 1))
  {
    FetchIsExact(c, b);
    var n := FetchSize(c, b);
    DeliveredBytes(file, b * c.blockSize, n, buf, host(k, b, n).bytes);
  }

  lemma FileDelivers(c: Config, file: seq<byte>, host: Provider)
    requires c.Accepted() && Faithful(c) && Serves(c, file, host)
    ensures Delivers(c, b => Content(c, file, b), host)
  {
    forall b: nat | b >= c.FileBlocks()
      ensures Content(c, file, b) == Zeros(c.blockSize)
    {
      PastTheEnd(c, file, b);
    }
    forall k: nat, b: nat, buf: seq<byte> | b < c.FileBlocks() && |buf| == c.blockSize
      ensures Call(c, host, k, b, buf) == Fetched(0, Cache(b, Content(c, file, b), [], k + 1))
    {
      DeliveredBlock(c, file, host, k, b, buf);
    }
  }

  /** The pieces of two neighbouring blocks make up the slice asked for. */
  lemma CutIsSlice(file: seq<byte>, start: nat, bs: nat, at: nat, size: nat, d: seq<byte>, d': seq<byte>,
                   bytes: seq<byte>)
    requires at < bs && size <= bs && d == Slice(file, start, bs) && d' == Slice(file, start + bs, bs)
    requires bytes == Splice(bs, at, size, d, d')
    ensures bytes == Slice(file, start + at, size)
  {
  }

  lemma BlockBounds(c: Config, file: seq<byte>, p: nat)
    requires c.blockSize > 0
    ensures var b := Div(p, c.blockSize);
            p == b * c.blockSize + Rem(p, c.blockSize) &&
            Content(c, file, b + 1) == Slice(file, b * c.blockSize + c.blockSize, c.blockSize)
  {
    DivRem(p, c.blockSize);
    var b := Div(p, c.blockSize);
    assert (b + 1) * c.blockSize == b * c.blockSize + c.blockSize;
  }

  /** Whatever the order of requests, every read succeeds and returns the slice asked for, padded with zeros. */
  lemma FixedFile(c: Config, hash: Hash, file: seq<byte>, host: Provider, qs: seq<Request>, r: Run, i: nat)
    requires IsRun(c, hash, host, qs, r) && Fresh(c, r.caches[0]) && Faithful(c) && Serves(c, file, host)
    requires forall k :: 0 <= k < |qs| ==> Addressable(c, qs[k])
    requires i < |qs|
    ensures r.outcomes[i] == Reply(Slice(file, qs[i].offset, qs[i].size))
  {
    FileDelivers(c, file, host);
    RunMirrors(c, hash, b => Content(c, file, b), host, qs, r, i);
    BlockBounds(c, file, qs[i].offset);
    var b := Div(qs[i].offset, c.blockSize);
    CutIsSlice(file, b * c.blockSize, c.blockSize, Rem(qs[i].offset, c.blockSize), qs[i].size, Content(c, file, b),
               Content(c, file, b + 1), r.outcomes[i].bytes);
  }

  /** Beyond the 32-bit range the requests come round again: 2^32 blocks further on, a request is answered as it
      would have been here. */
  lemma OffsetsWrap(c: Config, hash: Hash, host: Provider, s: Cache, q: Request)
    requires WellSized(c, s) && Legal(c, q)
    ensures Read(c, hash, host, s, Request(q.offset + U32_RANGE * c.blockSize, q.size)) == Read(c, hash, host, s, q)
  {
    WrappedOffset(q.offset, c.blockSize);
    SameBlock(c, hash, host, s, q, Request(q.offset + U32_RANGE * c.blockSize, q.size));
  }

  lemma WrappedOffset(offset: nat, bs: nat)
    requires 0 < bs < U32_RANGE
    ensures U32(Div(offset + U32_RANGE * bs, bs)) == U32(Div(offset, bs))
    ensures Rem(offset + U32_RANGE * bs, bs) == Rem(offset, bs)
  {
    var x := Div(offset, bs);
    DivRem(offset, bs);
    assert (x + U32_RANGE) * bs == x * bs + U32_RANGE * bs;
    DivRemUnique(offset + U32_RANGE * bs, bs, x + U32_RANGE, Rem(offset, bs));
  }

  /** A read depends on the index of its first block and its place in it. */
  lemma SameBlock(c: Config, hash: Hash, host: Provider, s: Cache, q: Request, q': Request)
    requires WellSized(c, s) && Legal(c, q) && q'.size == q.size
    requires U32(Div(q'.offset, c.blockSize)) == U32(Div(q.offset, c.blockSize))
    requires Rem(q'.offset, c.blockSize) == Rem(q.offset, c.blockSize)
    ensures Read(c, hash, host, s, q') == Read(c, hash, host, s, q)
  {
    ReadParts(c, hash, host, s, q);
    ReadParts(c, hash, host, s, q');
  }

  // ---------------------------------------------------------------- files that do not fit

  function Ones(n: nat): (s: seq<byte>)
    ensures |s| == n && forall i :: 0 <= i < n ==> s[i] == 1
  {
    seq(n, _ => 1)
  }

  function FileHost(c: Config, file: seq<byte>): Provider {
    (k: nat, b: nat, n: nat) => Answer(0, Available(file, b * c.blockSize, n))
  }

  lemma FileHostServes(c: Config, file: seq<byte>)
    requires c.Accepted() && |file| == c.fileSize
    ensures Serves(c, file, FileHost(c, file))
  {
  }

  /** A first read of a block is accepted as it comes. */
  lemma FirstFetch(c: Config, hash: Hash, host: Provider, s: Cache, b: nat)
    requires WellSized(c, s) && b < c.FileBlocks() && b != s.curr && s.hashes[b] == UNREAD
    requires host(s.calls, b, FetchSize(c, b)).result >= 0
    ensures var r := Fetch(c, hash, host, s, b);
            r.code == 0 && r.cache.curr == b &&
            r.cache.data == Delivered(c, s.data, b, host(s.calls, b, FetchSize(c, b)).bytes) &&
            forall b' :: 0 <= b' < |s.hashes| && b' != b ==> r.cache.hashes[b'] == s.hashes[b']
  {
  }

  /** Block b of a file of ones comes out as ones when it is whole, or when the buffer held ones and the size
      asked for was that of a whole block. */
  lemma OnesDelivered(c: Config, buf: seq<byte>, b: nat)
    requires c.Accepted() && b < c.FileBlocks() && |buf| == c.blockSize && FetchSize(c, b) == c.blockSize
    requires b * c.blockSize + c.blockSize <= c.fileSize || buf == Ones(c.blockSize)
    ensures Delivered(c, buf, b, Available(Ones(c.fileSize), b * c.blockSize, c.blockSize)) == Ones(c.blockSize)
  {
    OnesOver(c.fileSize, b * c.blockSize, buf);
  }

  lemma OnesOver(size: nat, from: nat, buf: seq<byte>)
    requires from + |buf| <= size || buf == Ones(|buf|)
    ensures Overwrite(buf, Available(Ones(size), from, |buf|), |buf|) == Ones(|buf|)
  {
    var some := Available(Ones(size), from, |buf|);
    assert forall i :: 0 <= i < |some| ==> some[i] == 1;
  }

  lemma SizesAsked(c: Config)
    requires c.Accepted() && c.TrueBlocks() < U32_RANGE && !LastBlockFits(c)
    ensures var n := c.FileBlocks();
            n > 1 && FetchSize(c, 0) == FetchSize(c, n - 1) == c.blockSize <= c.fileSize &&
            (n - 1) * c.blockSize < c.fileSize < (n - 1) * c.blockSize + c.blockSize
  {
    NotEmptyUnlessFits(c);
    LastBlockSize(c);
    var n := c.FileBlocks();
    WholeBefore(c, 0);
    BlockStartsInside(c, n - 1);
    Mul32Is(n - 1, c.blockSize);
    WrappedStart((n - 1) * c.blockSize);
  }

  lemma SliceAt(file: seq<byte>, offset: nat, size: nat, i: nat)
    requires i < size
    ensures Slice(file, offset, size)[i] == if offset + i < |file| then file[offset + i] else 0
  {
  }

  /** When the condition of FixedFile fails, a file of ones is read back wrongly by the second of two reads. */
  lemma UnfaithfulReply(c: Config, hash: Hash, s: Cache) returns (q: Request, q': Request)
    requires Fresh(c, s) && !Faithful(c)
    ensures var file := Ones(c.fileSize);
            var host := FileHost(c, file);
            Serves(c, file, host) && Legal(c, q) && Legal(c, q') && Addressable(c, q) && Addressable(c, q') &&
            Read(c, hash, host, Read(c, hash, host, s, q).cache, q').outcome != Reply(Slice(file, q'.offset, q'.size))
  {
    var file := Ones(c.fileSize);
    FileHostServes(c, file);
    if c.TrueBlocks() >= U32_RANGE {
      q := TooManyBlocks(c, hash, s);
      q' := q;
      SliceAt(file, q.offset, 1, 0);
    } else {
      q, q' := Request(0, c.blockSize), Request((c.FileBlocks() - 1) * c.blockSize, c.blockSize);
      LastBlockTooLong(c, hash, s);
      SliceAt(file, q'.offset, q'.size, c.fileSize - q'.offset);
    }
  }

  lemma TooManyBlocks(c: Config, hash: Hash, s: Cache) returns (q: Request)
    requires Fresh(c, s) && c.TrueBlocks() >= U32_RANGE
    ensures var host := FileHost(c, Ones(c.fileSize));
            q.size == 1 && Addressable(c, q) && q.offset < c.fileSize &&
            Read(c, hash, host, Read(c, hash, host, s, q).cache, q).outcome == Reply([0])
  {
    var n := c.FileBlocks();
    q := Request(n * c.blockSize, 1);
    WholeBlockRequest(n, c.blockSize);
    WholeBefore(c, n);
    assert (n + 1) * c.blockSize == n * c.blockSize + c.blockSize;
    var host := FileHost(c, Ones(c.fileSize));
    AlignedRead(c, hash, host, s, n, 1);
    AlignedRead(c, hash, host, Fetch(c, hash, host, s, n).cache, n, 1);
  }

  lemma LastBlockTooLong(c: Config, hash: Hash, s: Cache)
    requires Fresh(c, s) && c.TrueBlocks() < U32_RANGE && !LastBlockFits(c)
    ensures var q, q' := Request(0, c.blockSize), Request((c.FileBlocks() - 1) * c.blockSize, c.blockSize);
            var host := FileHost(c, Ones(c.fileSize));
            Addressable(c, q) && Addressable(c, q') &&
            q'.offset < c.fileSize < q'.offset + q'.size &&
            Read(c, hash, host, Read(c, hash, host, s, q).cache, q').outcome == Reply(Ones(c.blockSize))
  {
    var host, last := FileHost(c, Ones(c.fileSize)), c.FileBlocks() - 1;
    SizesAsked(c);
    WholeBlockRequest(0, c.blockSize);
    WholeBlockRequest(last, c.blockSize);
    FirstFetch(c, hash, host, s, 0);
    OnesDelivered(c, s.data, 0);
    AlignedRead(c, hash, host, s, 0, c.blockSize);
    var s' := Fetch(c, hash, host, s, 0).cache;
    FirstFetch(c, hash, host, s', last);
    OnesDelivered(c, s'.data, last);
    AlignedRead(c, hash, host, s', last, c.blockSize);
  }
}
