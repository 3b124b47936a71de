/** Whole runs of requests on a file stack, against one flat growable byte string. */
module FileRuns {
  import opened Bytes
  import opened Arith
  import opened Ciphers
  import opened Formats
  import opened Blocks
  import opened RawFiles
  import opened BlockFiles

  datatype Request =
    | ReadAt(off: nat, len: nat)
    | WriteAt(off: nat, data: seq<Byte>)
    | TruncateTo(size: nat)

  /** The reference model: what a request does to a flat file. */
  function Flat(c: seq<Byte>, q: Request): seq<Byte> {
    match q
    case ReadAt(_, _) => c
    case WriteAt(off, data) => Splice(c, off, data)
    case TruncateTo(size) => Resize(c, size)
  }

  function FlatRun(c: seq<Byte>, qs: seq<Request>): seq<Byte> {
    if qs == [] then c else Flat(FlatRun(c, qs[..|qs| - 1]), qs[|qs| - 1])
  }

  /** The file grows from one block boundary to another. */
  predicate Grows(len: nat, size: nat, bs: nat) {
    len < size && PosIn(len, bs) == 0 && PosIn(size, bs) == 0
  }

  /** Writes are not empty and, when holes are allowed, no truncate adds a hole between block boundaries. */
  predicate Serviceable(c: seq<Byte>, qs: seq<Request>, bs: nat, holes: bool) {
    forall i :: 0 <= i < |qs| ==>
      && (qs[i].WriteAt? ==> qs[i].data != [])
      && (qs[i].TruncateTo? ==> !holes || !Grows(|FlatRun(c, qs[..i])|, qs[i].size, bs))
  }

  /** Without holes only empty writes are left out; with them also growth between block boundaries. */
  lemma Servable(c: seq<Byte>, qs: seq<Request>, bs: nat)
    requires forall i :: 0 <= i < |qs| ==> qs[i].WriteAt? ==> qs[i].data != []
    ensures Serviceable(c, qs, bs, false)
    ensures (forall i :: 0 <= i < |qs| ==> !qs[i].TruncateTo?) ==> Serviceable(c, qs, bs, true)
    ensures Simple(qs, false)
  {
  }

  /** The answer a read in the middle of a run has to give. */
  ghost predicate AnswersRead(c: seq<Byte>, q: Request, out: seq<Byte>) {
    q.ReadAt? && q.off < |c| ==> out == Slice(c, q.off, q.len)
  }

  ghost predicate Answered(c: seq<Byte>, qs: seq<Request>, outs: seq<seq<Byte>>) {
    |outs| <= |qs| &&
    forall i :: 0 <= i < |outs| ==> AnswersRead(FlatRun(c, qs[..i]), qs[i], outs[i])
  }

  lemma AnsweredMore(c: seq<Byte>, qs: seq<Request>, outs: seq<seq<Byte>>, out: seq<Byte>)
    requires Answered(c, qs, outs) && |outs| < |qs|
    requires AnswersRead(FlatRun(c, qs[..|outs|]), qs[|outs|], out)
    ensures Answered(c, qs, outs + [out])
  {
  }

  /** One request. */
  method Serve(f: BlockFile, q: Request) returns (ok: bool, out: seq<Byte>)
    requires f.Valid() && !f.reverse && (q.WriteAt? ==> q.data != [])
    modifies f.Repr()
    ensures ok ==> f.Contents() == Flat(old(f.Contents()), q)
    ensures ok ==> (f.Valid() <==> !(q.TruncateTo? && old(f.Stale(q.size))))
    ensures ok ==> AnswersRead(old(f.Contents()), q, out)
    ensures old(f.Steady() && f.Paired()) ==> ok && f.Steady() && f.Paired()
    ensures ok && old(f.Sealed()) ==> f.Sealed()
    ensures !ok && q.ReadAt? ==> f.Valid() && f.Contents() == old(f.Contents())
    ensures !ok && q.WriteAt? ==> f.cacheData == [] || (f.Valid() && f.Contents() == old(f.Contents()))
    ensures !ok && q.WriteAt? && f.base == null ==> f.Valid()
    ensures !ok && q.WriteAt? ==> f.Core() && (f.Valid() <==> f.Authentic())
    ensures old(f.Stored()) ==> f.Stored()
  {
    hide Unblock, Intact, BlockFile.Valid, BlockFile.Core, BlockFile.Tight, BlockFile.Contents, BlockFile.Store,
      BlockFile.Fmt, BlockFile.Sealed, Slice, Splice, Resize, BlockFile.Stale;
    match q {
      case ReadAt(off, len) =>
        var r := f.Read(off, len);
        ok, out := r.Ok?, if r.Ok? then r.value else [];
      case WriteAt(off, data) =>
        var r := f.Write(off, data);
        ok, out := r.Ok?, [];
      case TruncateTo(size) =>
        var r := f.Truncate(size);
        ok, out := r.Ok?, [];
    }
  }

  /**
   * For every run of non-empty writes, reads and truncates (with holes allowed: truncates that do
   * not add a hole between block boundaries): as long as requests succeed, the stack's contents are
   * the flat model's, and every read that starts below the end
   * of the file returns the flat model's bytes. On a healthy disk every request of every run
   * succeeds.
   */
  method Replay(f: BlockFile, qs: seq<Request>) returns (ok: bool, outs: seq<seq<Byte>>)
    requires f.Valid() && !f.reverse && Serviceable(f.Contents(), qs, f.bs, f.allowHoles)
    modifies f.Repr()
    ensures ok ==> f.Valid() && f.Contents() == FlatRun(old(f.Contents()), qs)
    ensures ok ==> |outs| == |qs| && Answered(old(f.Contents()), qs, outs)
    ensures old(f.Steady() && f.Paired()) ==> ok
    ensures ok && old(f.Sealed()) ==> f.Sealed()
  {
    hide BlockFile.Valid, BlockFile.Core, BlockFile.Tight, BlockFile.Contents, BlockFile.Store, BlockFile.Steady,
      BlockFile.Fmt, BlockFile.Sealed, Flat, AnswersRead, BlockFile.Wired, FlatRun, Answered, Grows, BlockFile.Stale,
      BlockFile.Stored;
    ghost var c := f.Contents();
    ghost var smooth := f.Steady() && f.Paired();
    outs := [];
    StartRun(c, qs);
    while |outs| < |qs|
      invariant |outs| <= |qs| && f.Valid() && f.Contents() == FlatRun(c, qs[..|outs|])
      invariant Answered(c, qs, outs)
      invariant smooth ==> f.Steady() && f.Paired()
      invariant old(f.Sealed()) ==> f.Sealed()
      decreases |qs| - |outs|
    {
      FlatStep(c, qs, |outs|);
      if qs[|outs|].TruncateTo? {
        NeverStale(f, qs[|outs|].size);
      }
      var fine, out := Serve(f, qs[|outs|]);
      if !fine {
        return false, outs;
      }
      AnsweredMore(c, qs, outs, out);
      outs := outs + [out];
    }
    assert qs[..|qs|] == qs;
    ok := true;
  }

  // ---------------------------------------------------------------- runs with failures

  /**
   * What is promised of a run in which requests may fail: `cs` are the contents before every request
   * and at the end. A request that succeeds does to them what it does to a flat file, and a read
   * below the end returns their bytes; a failed read leaves them alone.
   */
  ghost predicate Consistent(qs: seq<Request>, oks: seq<bool>, outs: seq<seq<Byte>>, cs: seq<seq<Byte>>) {
    && |oks| == |outs| <= |qs| && |cs| == |oks| + 1
    && (forall i :: 0 <= i < |oks| && oks[i] ==> cs[i + 1] == Flat(cs[i], qs[i]) && AnswersRead(cs[i], qs[i], outs[i]))
    && (forall i :: 0 <= i < |oks| && !oks[i] && qs[i].ReadAt? ==> cs[i + 1] == cs[i])
  }

  lemma ConsistentMore(qs: seq<Request>, oks: seq<bool>, outs: seq<seq<Byte>>, cs: seq<seq<Byte>>,
                       ok: bool, out: seq<Byte>, c: seq<Byte>)
    requires Consistent(qs, oks, outs, cs) && |oks| < |qs|
    requires ok ==> c == Flat(cs[|oks|], qs[|oks|]) && AnswersRead(cs[|oks|], qs[|oks|], out)
    requires !ok && qs[|oks|].ReadAt? ==> c == cs[|oks|]
    ensures Consistent(qs, oks + [ok], outs + [out], cs + [c])
  {
    hide Flat, AnswersRead;
  }

  /** Non-empty writes and, with holes allowed, no truncates. */
  predicate Simple(qs: seq<Request>, holes: bool) {
    forall i :: 0 <= i < |qs| ==> (qs[i].WriteAt? ==> qs[i].data != []) && (qs[i].TruncateTo? ==> !holes)
  }

  /** A failure after which the run does not go on: a truncate, or a write of MAC blocks. */
  predicate Final(q: Request, ok: bool, mac: bool) {
    !ok && (q.TruncateTo? || (q.WriteAt? && mac))
  }

  /**
   * A file on a disk that may fail. The run goes on past failed reads, and on a cipher file past failed
   * writes; it stops at a truncate that fails and, with MAC blocks, at a write that fails. The cache
   * stays coherent throughout, so every successful read below the end returns the bytes the file decodes
   * to at that moment. After a failed MAC write the file is consistent exactly when its store is authentic.
   */
  method ReplayWithFaults(f: BlockFile, qs: seq<Request>)
    returns (oks: seq<bool>, outs: seq<seq<Byte>>, ghost cs: seq<seq<Byte>>)
    requires f.Valid() && !f.reverse && Simple(qs, f.allowHoles)
    modifies f.Repr()
    ensures Consistent(qs, oks, outs, cs) && cs[0] == old(f.Contents()) && cs[|oks|] == f.Contents()
    ensures |oks| < |qs| ==> oks != [] && Final(qs[|oks| - 1], oks[|oks| - 1], f.base != null)
    ensures oks == [] || !Final(qs[|oks| - 1], oks[|oks| - 1], f.base != null) ==> f.Valid()
    ensures oks != [] && !oks[|oks| - 1] && qs[|oks| - 1].WriteAt? ==>
      f.Core() && (f.Valid() <==> f.Authentic())
    ensures old(f.Stored()) ==> f.Stored()
  {
    hide BlockFile.Valid, BlockFile.Core, BlockFile.Tight, BlockFile.Contents, BlockFile.Store, BlockFile.Steady,
      BlockFile.Fmt, BlockFile.Sealed, BlockFile.Stored, Flat, AnswersRead, BlockFile.Wired, BlockFile.Paired,
      BlockFile.Stale, BlockFile.Authentic, Consistent;
    oks, outs, cs := [], [], [f.Contents()];
    StartConsistent(qs, f.Contents());
    while |oks| < |qs|
      invariant |oks| == |outs| <= |qs| && |cs| == |oks| + 1
      invariant Consistent(qs, oks, outs, cs) && cs[0] == old(f.Contents())
      invariant f.Valid() && f.Contents() == cs[|oks|]
      invariant oks != [] ==> !Final(qs[|oks| - 1], oks[|oks| - 1], f.base != null)
      invariant oks != [] && !oks[|oks| - 1] && qs[|oks| - 1].WriteAt? ==>
        f.Core() && (f.Valid() <==> f.Authentic())
      invariant old(f.Stored()) ==> f.Stored()
      decreases |qs| - |oks|
    {
      var q := qs[|oks|];
      if q.TruncateTo? {
        NeverStale(f, q.size);
      }
      var ok, out := Serve(f, q);
      ConsistentMore(qs, oks, outs, cs, ok, out, f.Contents());
      oks, outs, cs := oks + [ok], outs + [out], cs + [f.Contents()];
      if Final(q, ok, f.base != null) {
        return;
      }
    }
  }

  lemma StartConsistent(qs: seq<Request>, c: seq<Byte>)
    ensures Consistent(qs, [], [], [c])
  {
  }

  /** Whatever served the same run on the same contents, cached or not, gave the same answers below the end. */
  lemma AnswersAgree(c: seq<Byte>, qs: seq<Request>, outs: seq<seq<Byte>>, others: seq<seq<Byte>>, i: nat)
    requires Answered(c, qs, outs) && Answered(c, qs, others) && i < |outs| && i < |others|
    requires qs[i].ReadAt? && qs[i].off < |FlatRun(c, qs[..i])|
    ensures outs[i] == others[i]
  {
    hide FlatRun, Slice;
    assert AnswersRead(FlatRun(c, qs[..i]), qs[i], outs[i]) && AnswersRead(FlatRun(c, qs[..i]), qs[i], others[i]);
  }

  /** Two files over equal bytes with equal settings mean the same, whatever they have cached. */
  lemma SameMeaning(f: BlockFile, g: BlockFile)
    requires f.Wired() && g.Wired() && f.base == null && g.base == null && f.reverse == g.reverse
    requires f.cipher == g.cipher && f.bs == g.bs && f.allowHoles == g.allowHoles
    requires f.raw.bytes == g.raw.bytes && f.CurrentIV() == g.CurrentIV()
    ensures f.Contents() == g.Contents()
  {
  }

  /** A cached and an uncached file over the same store answer a read below the end alike. */
  method TwinReads(f: BlockFile, g: BlockFile, off: nat, len: nat)
    returns (a: Outcome<seq<Byte>>, b: Outcome<seq<Byte>>)
    requires f.Valid() && g.Valid() && f.Contents() == g.Contents() && f.Repr() !! g.Repr() && g.noCache
    requires off < |f.Contents()|
    modifies f.Repr(), g.Repr()
    ensures a.Ok? && b.Ok? ==> a == b
    ensures f.raw.healthy && g.raw.healthy ==> a.Ok? && b.Ok?
    ensures f.Valid() && g.Valid() && f.Contents() == g.Contents()
  {
    hide Unblock, Intact, BlockFile.Core, BlockFile.Tight, BlockFile.Store, BlockFile.Fmt, BlockFile.Sealed, Slice,
      BlockFile.Valid, BlockFile.Contents;
    a := f.Read(off, len);
    b := g.Read(off, len);
  }

  lemma StartRun(c: seq<Byte>, qs: seq<Request>)
    ensures FlatRun(c, qs[..0]) == c && Answered(c, qs, [])
  {
  }

  lemma FlatStep(c: seq<Byte>, qs: seq<Request>, n: nat)
    requires n < |qs|
    ensures FlatRun(c, qs[..n + 1]) == Flat(FlatRun(c, qs[..n]), qs[n])
  {
    assert qs[..n + 1][..n] == qs[..n];
  }

  /** Only growth by a hole between block boundaries can expose a stale block, of either layer. */
  lemma NeverStale(f: BlockFile, size: nat)
    requires f.Valid() && !(f.allowHoles && Grows(|f.Contents()|, size, f.bs))
    ensures !f.Stale(size)
  {
    hide Unblock, Intact, BlockFile.Fmt, BlockFile.Store, BlockFile.Contents, Coherent, Start, PosIn, LocWithHeader;
    if f.base != null && f.base.Stale(LocWithHeader(size, f.bs + f.macBytes + f.randBytes, f.macBytes + f.randBytes)) {
      f.StaleBelow(size);
      assert false;
    }
  }

  /** A new file without MAC blocks starts out empty and ready. */
  method NewCipherFile(cipher: Cipher, blockSize: nat, allowHoles: bool, noCache: bool) returns (f: BlockFile)
    requires CipherOk(cipher, blockSize, allowHoles)
    ensures fresh(f.Repr()) && f.Valid() && f.Steady() && f.Tight() && f.Paired() && f.Sealed() && f.cacheData == []
    ensures f.base == null && !f.reverse && f.Contents() == [] && f.allowHoles == allowHoles && f.bs == blockSize
  {
    var raw := new RawFile(true, false, []);
    f := new BlockFile.OnRaw(raw, cipher, blockSize, allowHoles, noCache, false);
    f.FormatLawful();
    UnblockEmpty(f.Fmt(), 0);
  }

  /** A new file with MAC blocks starts out empty and ready. */
  method NewMacFile(cipher: Cipher, blockSize: nat, allowHoles: bool, noCache: bool, macBytes: nat, randBytes: nat)
    returns (f: BlockFile)
    requires CipherOk(cipher, blockSize, allowHoles) && macBytes <= 8 && macBytes + randBytes + 1 < blockSize
    ensures fresh(f.Repr()) && f.Valid() && f.Steady() && f.Tight() && f.Paired() && f.Sealed() && f.cacheData == []
    ensures f.base != null && !f.reverse && f.Contents() == [] && f.allowHoles == allowHoles
  {
    hide Unblock, Intact;
    var c := NewCipherFile(cipher, blockSize, allowHoles, noCache);
    f := new BlockFile.OnCipher(c, macBytes, randBytes, false);
    f.FormatLawful();
    UnblockEmpty(f.Fmt(), 0);
    assert f.Store() == [];
  }

  /**
   * Why reads are promised only below the end of the file: after a block is written and the file is
   * cut to nothing, reading the empty file returns the block that is still cached.
   */
  method StaleRead(f: BlockFile, data: seq<Byte>) returns (out: seq<Byte>)
    requires f.Valid() && f.Steady() && f.Paired() && !f.reverse && !f.noCache
    requires f.Contents() == [] && |data| == f.bs
    modifies f.Repr()
    ensures f.Valid() && f.Contents() == [] && out == data != []
  {
    hide Unblock, Intact, BlockFile.Core, BlockFile.Contents, BlockFile.Store, BlockFile.Fmt, BlockFile.Sealed,
      BlockFile.Stale, Start, PosIn, BlockOf, Slice, Splice, Resize;
    WholeBlock(f.bs, data);
    var w := f.Write(0, data);
    assert f.Contents() == data && f.cacheBlock == 0 && f.cacheData == data;
    NeverStale(f, 0);
    var t := f.Truncate(0);
    var r := f.Read(0, f.bs);
    out := r.value;
  }

  /**
   * With holes allowed the same block comes back below the end of the file: after the file has grown
   * again by a hole it reads as the old block, although its contents are zeros.
   */
  method ExposedBlock(f: BlockFile, data: seq<Byte>) returns (out: seq<Byte>)
    requires f.Valid() && f.Steady() && f.base == null && !f.reverse && !f.noCache && f.allowHoles
    requires f.Contents() == [] && |data| == f.bs && !AllZero(data)
    modifies f.Repr()
    ensures !f.Valid() && f.Contents() == Zeros(f.bs) && out == data && out != Slice(f.Contents(), 0, f.bs)
  {
    hide Unblock, Intact, BlockFile.Core, BlockFile.Contents, BlockFile.Store, BlockFile.Fmt, BlockFile.Sealed,
      Start, PosIn, BlockOf, Slice, Splice, Resize, BlockFile.Valid;
    WholeBlock(f.bs, data);
    HoleBlock(f.bs, data);
    var w := f.Write(0, data);
    assert f.cacheData == data by {
      CachedWhole(f, data);
    }
    var t := f.Truncate(0);
    t := f.Truncate(f.bs);
    var r := f.Read(0, f.bs);
    out := r.value;
  }

  lemma CachedWhole(f: BlockFile, data: seq<Byte>)
    requires f.Valid() && f.Contents() == data && |data| == f.bs && f.Hit(0)
    ensures f.cacheData == data
  {
    WholeBlock(f.bs, data);
  }

  lemma HoleBlock(bs: nat, data: seq<Byte>)
    requires 1 < bs && |data| == bs && !AllZero(data)
    ensures PosIn(bs, bs) == 0 && Resize([], bs) == Zeros(bs) && data != Zeros(bs)
    ensures Slice(Zeros(bs), 0, bs) == Zeros(bs)
    ensures !StaleBlock(bs, 0, bs, true, false, 0, data) && StaleBlock(0, bs, bs, true, false, 0, data)
  {
    DivUnique(bs, bs, 1, 0);
    DivUnique(0, bs, 0, 0);
  }

  lemma WholeBlock(bs: nat, data: seq<Byte>)
    requires 1 < bs && |data| == bs
    ensures Start(0, bs) == 0 && BlockOf(0, bs) == 0 && PosIn(0, bs) == 0 && BlockOf(bs - 1, bs) == 0
    ensures Splice([], 0, data) == data && Resize(data, 0) == []
    ensures Slice(data, 0, bs) == data && Slice(data, 0, |data|) == data
  {
    DivUnique(bs - 1, bs, 0, bs - 1);
    DivUnique(0, bs, 0, 0);
  }

  /**
   * Why a failed write of MAC blocks ends a run. Block 0 is whole and an appended block stopped after 3
   * bytes of its header, so 67 bytes are stored and the MAC layer takes 51 for its size. A write of 52
   * bytes at 0 then counts as covering the file and is passed on and cached as it is, but below it is
   * merged into a block of 56: what is cached is not what reading the block would return.
   */
  method TornBlock(g: BlockFile, d: seq<Byte>) returns (ghost size: int)
    requires g.base != null && g.Core() && g.Steady() && !g.noCache && g.bs == 56 && g.macBytes == 8 && g.randBytes == 0
    requires |g.Store()| == 67 && |d| == 52
    modifies g.Repr()
    ensures size == LocWithoutHeader(67, 64, 8) == 51 <= |d| && |old(g.Contents())| == 56
    ensures g.Hit(0) && g.cacheData == d && !Coherent(g.Contents(), g.bs, g.noCache, 0, d) && !g.Valid()
  {
    hide Unblock, Intact, BlockFile.Core, BlockFile.Contents, BlockFile.Store, BlockFile.Sealed, BlockFile.Stored,
      Start, PosIn, BlockOf, Slice, Splice, Resize, BlockFile.Valid, Coherent, MacPasses;
    TornSize(g);
    size := LocWithoutHeader(67, 64, 8);
    ghost var e;
    var r;
    r, e := g.CacheWriteOneBlock(0, d);
    NotCoherent(g);
  }

  lemma TornSize(g: BlockFile)
    requires g.base != null && g.Wired() && g.bs == 56 && g.macBytes == 8 && g.randBytes == 0 && |g.Store()| == 67
    ensures |g.Contents()| == 56 && LocWithoutHeader(67, 64, 8) == 51 && Start(0, g.Fmt().Stride()) == 0
    ensures g.Fmt().Stride() == 64 && g.Fmt().hs == 8
  {
    hide Unblock, BlockFile.Store, MacPasses;
    g.FormatLawful();
    assert 67 == Start(1, 64) + 3;
    MacLength(g.Fmt(), g.Store(), 0, 1, 3);
  }

  lemma NotCoherent(g: BlockFile)
    requires g.Wired() && !Coherent(g.Contents(), g.bs, g.noCache, g.cacheBlock, g.cacheData)
    ensures !g.Valid()
  {
  }
}
