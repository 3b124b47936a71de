/**
 * The block file stack. One class plays both derived classes of the block layer: a cipher layer
 * (`base == null`) sits on the raw file behind an 8-byte IV header, a MAC layer sits on a cipher
 * layer. Requests inside the block layer are named by block number; buffers are sequences.
 */
module BlockFiles {
  import opened Bytes
  import opened Arith
  import opened Ciphers
  import opened Blocks
  import opened Formats
  import opened RawFiles

  const HEADER_SIZE: nat := 8

  /** The file IV that the header bytes stand for under an external IV. */
  function HeaderIV(cipher: Cipher, externalIV: Word64, bytes: seq<Byte>): Word64
    requires HEADER_SIZE <= |bytes|
  {
    BigEndian(cipher.streamDecode(bytes[..HEADER_SIZE], externalIV)) % TWO_64
  }

  function HeaderBytes(cipher: Cipher, externalIV: Word64, fileIV: Word64): seq<Byte> {
    cipher.streamEncode(ToBigEndian(fileIV, HEADER_SIZE), externalIV)
  }

  lemma HeaderPrefix(cipher: Cipher, externalIV: Word64, bytes: seq<Byte>)
    requires HEADER_SIZE <= |bytes|
    ensures HeaderIV(cipher, externalIV, bytes[..HEADER_SIZE]) == HeaderIV(cipher, externalIV, bytes)
  {
    assert bytes[..HEADER_SIZE][..HEADER_SIZE] == bytes[..HEADER_SIZE];
  }

  lemma HeaderSame(cipher: Cipher, externalIV: Word64, a: seq<Byte>, b: seq<Byte>)
    requires HEADER_SIZE <= |a| && HEADER_SIZE <= |b| && a[..HEADER_SIZE] == b[..HEADER_SIZE]
    ensures HeaderIV(cipher, externalIV, a) == HeaderIV(cipher, externalIV, b)
  {
  }

  lemma WordBounds()
    ensures Pow2(8 * HEADER_SIZE) == TWO_64 && Pow2(0) == 1
  {
    Pow2Word();
  }

  lemma ShiftByte(w: nat, n: nat)
    requires 0 < n && w < Pow2(8 * n)
    ensures w / 256 < Pow2(8 * (n - 1))
    ensures ToBigEndian(w, n) == ToBigEndian(w / 256, n - 1) + [w % 256]
  {
    Pow2Word();
    Pow2Add(8 * (n - 1), 8);
    assert 8 * (n - 1) + 8 == 8 * n;
  }

  /** A header written for a file IV reads back as that IV. */
  lemma HeaderRoundTrip(cipher: Cipher, externalIV: Word64, fileIV: Word64, rest: seq<Byte>)
    requires cipher.Sound()
    ensures |HeaderBytes(cipher, externalIV, fileIV)| == HEADER_SIZE
    ensures HeaderIV(cipher, externalIV, HeaderBytes(cipher, externalIV, fileIV) + rest) == fileIV
  {
    var b := ToBigEndian(fileIV, HEADER_SIZE);
    var h := HeaderBytes(cipher, externalIV, fileIV);
    assert b != [];
    assert (h + rest)[..HEADER_SIZE] == h;
    Pow2Word();
    ToBigEndianInverse(fileIV, HEADER_SIZE);
  }

  /** Eight bytes, the IV with its most significant byte first, under the stream cipher with the external IV. */
  lemma HeaderLayout(cipher: Cipher, externalIV: Word64, fileIV: Word64, b: seq<Byte>)
    requires cipher.Sound()
    ensures HeaderBytes(cipher, externalIV, fileIV) == cipher.streamEncode(b, externalIV) && |b| == 8 <==>
      |b| == 8 && BigEndian(b) == fileIV
  {
    hide BigEndian, ToBigEndian, Pow2;
    var w := ToBigEndian(fileIV, HEADER_SIZE);
    Pow2Word();
    ToBigEndianInverse(fileIV, HEADER_SIZE);
    assert w != [];
    if |b| == 8 {
      BigEndianInverse(b);
      if cipher.streamEncode(w, externalIV) == cipher.streamEncode(b, externalIV) {
        assert b == cipher.streamDecode(cipher.streamEncode(b, externalIV), externalIV) == w;
      }
    }
  }

  /** A write behind the header leaves the header bytes alone; missing ones read as zeros afterwards. */
  lemma WriteKeepsHeader(b: seq<Byte>, off: nat, d: seq<Byte>, n: nat)
    requires HEADER_SIZE <= off && n <= |d| && d != []
    ensures var t := Splice(b, off, d[..n]);
      HEADER_SIZE <= |b| ==> HEADER_SIZE <= |t| && t[..HEADER_SIZE] == b[..HEADER_SIZE]
    ensures var t := Splice(b, off, d);
      |b| < HEADER_SIZE ==> HEADER_SIZE <= |t| && t[..HEADER_SIZE] == Resize(b, HEADER_SIZE)[..HEADER_SIZE]
  {
  }

  /** The cipher layer has no header check, so every store is intact. */
  lemma {:induction false} CipherIntact(cipher: Cipher, bs: nat, holes: bool, reverse: bool, fileIV: Word64,
                                        s: seq<Byte>, k: nat)
    requires 0 < bs
    ensures Intact(CipherFormat(cipher, bs, holes, reverse, fileIV), s, k)
    decreases |s|
  {
    if s != [] {
      CipherIntact(cipher, bs, holes, reverse, fileIV, s[Min(bs, |s|)..], k + 1);
    }
  }

  /** A cached block below the end of the file holds what reading that block would return. */
  ghost predicate Coherent(c: seq<Byte>, bs: nat, noCache: bool, block: nat, data: seq<Byte>) {
    !noCache && data != [] && Start(block, bs) < |c| ==> data == Slice(c, Start(block, bs), bs)
  }

  /** One turn of the read loop: `out` holds the bytes from `off` on, block `k` continues them. */
  lemma ReadStep(c: seq<Byte>, off: nat, out: seq<Byte>, k: nat, p: nat, bs: nat, size: nat, v: seq<Byte>)
    requires out == Slice(c, off, |out|) && Start(k, bs) + p == off + |out| && p < bs && 0 < size
    requires v == Slice(c, Start(k, bs), bs)
    ensures |v| <= p ==> out == Slice(c, off, |out| + size)
    ensures p < |v| ==> var piece := Slice(v, p, size);
      && 0 < |piece| <= size && out + piece == Slice(c, off, |out| + |piece|)
      && (|v| < bs ==> out + piece == Slice(c, off, |out| + size))
      && (|v| == bs && |piece| < size ==> Start(k + 1, bs) == off + |out| + |piece|)
  {
    hide Start, Slice;
    StartNext(k, bs);
    var m := Min(size, bs - p);
    SliceSlice(c, Start(k, bs), bs, p, size);
    SliceFit(c, Start(k, bs), bs);
    SliceFit(c, off + |out|, m);
    SliceJoin(c, off, |out|, m);
    SliceJoin(c, off, |out|, size);
    SliceFit(c, off + |out|, size);
    SliceSame(c, off + |out|, m, |Slice(v, p, size)|);
    SliceSame(c, off + |out|, size, |Slice(v, p, size)|);
    SliceJoin(c, off, |out|, |Slice(v, p, size)|);
  }

  /**
   * With holes allowed, growing a file between block boundaries writes nothing, so a block cached
   * past the old end comes to lie below the new end. It is wrong there unless it is zero.
   */
  ghost predicate StaleBlock(len: nat, size: nat, bs: nat, holes: bool, noCache: bool, block: nat, data: seq<Byte>) {
    && holes && PosIn(len, bs) == 0 && PosIn(size, bs) == 0 && !noCache
    && data != [] && len <= Start(block, bs) < size && data != Zeros(bs)
  }

  lemma NotStale(len: nat, size: nat, bs: nat, holes: bool, noCache: bool, block: nat, data: seq<Byte>)
    requires size <= len || noCache || data == [] || Start(block, bs) < len
    ensures !StaleBlock(len, size, bs, holes, noCache, block, data)
  {
  }

  /** Where the cached block survives a cut or a growth between boundaries, and where it does not. */
  lemma CutCoherent(c: seq<Byte>, size: nat, bs: nat, holes: bool, noCache: bool, block: nat, data: seq<Byte>)
    requires 0 < bs && Coherent(c, bs, noCache, block, data)
    requires size == |c| || (PosIn(size, bs) == 0 && (size < |c| || (holes && PosIn(|c|, bs) == 0)))
    ensures Coherent(Resize(c, size), bs, noCache, block, data) <==>
      !StaleBlock(|c|, size, bs, holes, noCache, block, data)
  {
    hide Start, PosIn, BlockOf, Slice, Resize;
    var i := Start(block, bs);
    ResizeLen(c, size);
    ResizeSame(c);
    StartDiv(size, bs);
    StartDiv(|c|, bs);
    if i < size && size != |c| {
      BlockFits(block, size, bs);
      if size < |c| {
        SliceResize(c, size, i, bs);
      } else if i < |c| {
        BlockFits(block, |c|, bs);
        SliceResize(c, size, i, bs);
      } else {
        SliceZeros(c, size, i, bs);
      }
    }
  }

  /** The same for a truncate whose padding reached `n` and left block `cb`, `cd` in the cache. */
  lemma TruncateCoherent(c: seq<Byte>, size: nat, n: nat, bs: nat, holes: bool, noCache: bool,
                         oldBlock: nat, oldData: seq<Byte>, block: nat, data: seq<Byte>)
    requires 0 < bs && Coherent(Resize(c, n), bs, noCache, block, data)
    requires if size < |c| then n == |c| && PosIn(size, bs) == 0
             else |c| <= n <= size && (n == size || (holes && PosIn(n, bs) == 0 && PosIn(size, bs) == 0))
    requires n == |c| ==> block == oldBlock && data == oldData
    requires n != |c| ==> noCache || data == [] || Start(block, bs) < n
    requires |c| <= size && holes && PosIn(|c|, bs) == 0 && PosIn(size, bs) == 0 ==> n == |c|
    ensures Coherent(Resize(c, size), bs, noCache, block, data) <==>
      !StaleBlock(|c|, size, bs, holes, noCache, oldBlock, oldData)
  {
    hide Start, PosIn, BlockOf, Slice, Resize, Coherent;
    ResizeLen(c, n);
    ResizeSame(c);
    CutCoherent(Resize(c, n), size, bs, holes, noCache, block, data);
    if |c| <= size {
      ResizeResize(c, n, size);
    }
  }

  lemma BlockFits(k: nat, size: nat, bs: nat)
    requires 0 < bs && PosIn(size, bs) == 0 && Start(k, bs) < size
    ensures Start(k, bs) + bs <= size
  {
    hide Start, PosIn, BlockOf;
    StartDiv(size, bs);
    StartBelow(k, BlockOf(size, bs), 0, bs);
    StartMono(k, BlockOf(size, bs), bs);
  }

  /** Padding that stopped short of a block boundary reached it. */
  lemma PadGap(n: nat, size: nat, bs: nat)
    requires 0 < bs && n <= size
    ensures PosIn(size, bs) == 0 && Start(BlockOf(size, bs), bs) <= n ==> n == size
  {
    StartDiv(size, bs);
  }

  /** One turn of the write loop: the next piece extends what has been written. */
  lemma WriteStep(c: seq<Byte>, off: nat, data: seq<Byte>, done: nat, n: nat, k: nat, p: nat, bs: nat,
                  before: seq<Byte>, after: seq<Byte>, fileSize: nat)
    requires 0 < bs && done + n <= |data| && 0 < n && p + n <= bs && (p + n == bs || done + n == |data|)
    requires Start(k, bs) + p == off + done && before == Splice(c, off, data[..done])
    requires after == Splice(before, off + done, data[done..done + n])
    requires fileSize <= |before| && (|before| == fileSize || |before| <= Start(k, bs))
    ensures after == Splice(c, off, data[..done + n]) && fileSize <= |after|
    ensures BlockOf(off + (done + n) - 1, bs) == k
    ensures done + n != |data| ==>
      && Start(k + 1, bs) == off + (done + n) && Start(k + 1, bs) <= |after|
      && (|after| == fileSize || |after| <= Start(k + 1, bs))
  {
    hide Start, BlockOf, PosIn, Splice;
    SpliceMore(c, off, data, done, done + n);
    SpliceAt(before, off + done, data[done..done + n], 0);
    DivUnique(off + done + n - 1, bs, k, p + n - 1);
    StartNext(k, bs);
  }

  /** A block number past the last non-empty block starts at or past the end of the file. */
  lemma LastNonEmpty(fileSize: nat, bs: nat, k: nat)
    requires 0 < bs
    ensures k > (if PosIn(fileSize, bs) == 0 then BlockOf(fileSize, bs) - 1 else BlockOf(fileSize, bs))
      <==> fileSize <= Start(k, bs)
  {
    hide Start, BlockOf, PosIn;
    StartDiv(fileSize, bs);
    StartBelow(k, BlockOf(fileSize, bs), PosIn(fileSize, bs), bs);
  }

  /** An old and a new size in different blocks. */
  lemma PadBetween(oldSize: nat, newSize: nat, bs: nat)
    requires 0 < bs && oldSize < newSize && BlockOf(oldSize, bs) != BlockOf(newSize, bs)
    ensures BlockOf(oldSize, bs) < BlockOf(newSize, bs)
    ensures Start(BlockOf(oldSize, bs), bs) + bs <= Start(BlockOf(newSize, bs), bs) <= newSize
  {
    hide Start, BlockOf, PosIn;
    StartDiv(oldSize, bs);
    StartDiv(newSize, bs);
    var a, b := BlockOf(oldSize, bs), BlockOf(newSize, bs);
    if b < a {
      StartMono(b, a, bs);
    } else {
      StartMono(a, b, bs);
    }
  }

  class BlockFile {
    const raw: RawFile
    const base: BlockFile?
    const bs: nat
    const allowHoles: bool
    const noCache: bool
    const cipher: Cipher
    const reverse: bool
    const macBytes: nat
    const randBytes: nat
    const warnOnly: bool

    var externalIV: Word64
    var fileIV: Word64
    var cacheBlock: nat
    var cacheData: seq<Byte>

    /** A cipher layer on an existing or empty raw file. */
    constructor OnRaw(raw: RawFile, cipher: Cipher, bs: nat, allowHoles: bool, noCache: bool, reverse: bool)
      requires CipherOk(cipher, bs, allowHoles) && raw.Valid()
      ensures Wired() && base == null && this.raw == raw && this.cipher == cipher && this.bs == bs
      ensures this.allowHoles == allowHoles && this.noCache == noCache && this.reverse == reverse
      ensures externalIV == 0 && fileIV == 0 && cacheData == []
      ensures HeaderOk() ==> Valid() && Sealed() && Tight()
    {
      this.raw, this.base, this.cipher, this.bs := raw, null, cipher, bs;
      this.allowHoles, this.noCache, this.reverse := allowHoles, noCache, reverse;
      macBytes, randBytes, warnOnly := 0, 0, false;
      externalIV, fileIV := 0, 0;
      cacheBlock, cacheData := 0, [];
      new;
      CipherIntact(cipher, bs, allowHoles, reverse, CurrentIV(), Store(), 0);
    }

    /** A MAC layer on a cipher layer; the configured block size is the cipher layer's. */
    constructor OnCipher(base: BlockFile, macBytes: nat, randBytes: nat, warnOnly: bool)
      requires base.base == null && base.Valid() && !base.reverse
      requires macBytes <= 8 && macBytes + randBytes + 1 < base.bs
      ensures Wired() && this.base == base && this.macBytes == macBytes && this.randBytes == randBytes
      ensures bs == base.bs - macBytes - randBytes && cacheData == []
      ensures Intact(Fmt(), Store(), 0) ==> Valid()
      ensures base.cacheData == [] ==> Paired()
    {
      this.raw, this.base, this.cipher, this.bs := base.raw, base, base.cipher, base.bs - macBytes - randBytes;
      this.allowHoles, this.noCache, this.reverse := base.allowHoles, base.noCache, false;
      this.macBytes, this.randBytes, this.warnOnly := macBytes, randBytes, warnOnly;
      externalIV, fileIV := 0, 0;
      cacheBlock, cacheData := 0, [];
      new;
      assert base.Core();
    }

    ghost function Repr(): set<object> {
      if base == null then {this, raw} else {this, raw, base, base.raw}
    }

    function Rank(): nat { if base == null then 0 else 1 }

    /** How a FileNode wires the layers together. */
    ghost predicate Wired() {
      && 1 < bs
      && (base == null ==> CipherOk(cipher, bs, allowHoles))
      && (base != null ==>
            && base.base == null && base.raw == raw && base.bs == bs + macBytes + randBytes
            && base.allowHoles == allowHoles && base.noCache == noCache
            && CipherOk(base.cipher, base.bs, allowHoles) && !base.reverse && !reverse)
    }

    /** The IV in use: the one in memory, or else the one in the file header. */
    ghost function CurrentIV(): Word64
      reads this, raw
    {
      if fileIV != 0 || reverse || |raw.bytes| < HEADER_SIZE then fileIV
      else HeaderIV(cipher, externalIV, raw.bytes)
    }

    ghost function Fmt(): Format
      reads this, raw
    {
      if base == null then CipherFormat(cipher, bs, allowHoles, reverse, CurrentIV())
      else MacFormat(cipher, bs, macBytes, randBytes, allowHoles)
    }

    /** The bytes below this layer, without the IV header. */
    ghost function Store(): seq<Byte>
      requires Wired()
      reads Repr()
      decreases Rank(), 0
    {
      if base != null then base.Contents()
      else if reverse then raw.bytes
      else Drop(raw.bytes, HEADER_SIZE)
    }

    /** The flat file this layer presents. */
    ghost function Contents(): seq<Byte>
      requires Wired()
      reads Repr()
      decreases Rank(), 1
    {
      Unblock(Fmt(), Store(), 0)
    }

    ghost predicate HeaderOk()
      reads this, raw
    {
      base == null && fileIV == 0 ==> !reverse && (HEADER_SIZE <= |raw.bytes| ==> CurrentIV() != 0)
    }

    ghost predicate Core()
      reads Repr()
      ensures Core() ==> Wired()
      decreases Rank(), 2
    {
      && Wired() && raw.Valid() && HeaderOk() && |cacheData| <= bs
      && (base != null ==> base.Valid())
    }

    /** Both layers cache the same block. */
    ghost predicate Linked()
      reads this, base
    {
      base != null && cacheData != [] && base.cacheData != [] ==> base.cacheBlock == cacheBlock
    }

    /** The base caches a block only while this layer caches the same one. */
    ghost predicate Paired()
      reads this, base
    {
      base != null && !noCache && base.cacheData != [] ==> cacheData != [] && base.cacheBlock == cacheBlock
    }

    ghost predicate Valid()
      reads Repr()
      ensures Valid() ==> Wired() && Core() && 1 < bs && |cacheData| <= bs
      decreases Rank(), 3
    {
      && Core() && Intact(Fmt(), Store(), 0) && Linked()
      && Coherent(Contents(), bs, noCache, cacheBlock, cacheData)
    }

    /** No layer caches a block past the end of its file. */
    ghost predicate Tight()
      requires Wired()
      reads Repr()
      decreases Rank(), 4
    {
      && (noCache || cacheData == [] || Start(cacheBlock, bs) < |Contents()|)
      && (base != null ==> base.Tight())
    }

    /** The IV in memory is the one in the header on disk. */
    ghost predicate Sealed()
      requires Wired()
      reads Repr()
      decreases Rank(), 4
    {
      if base != null then base.Sealed()
      else !reverse && fileIV != 0 ==> HEADER_SIZE <= |raw.bytes| && HeaderIV(cipher, externalIV, raw.bytes) == fileIV
    }

    /** The stored form of block `k`, headers included. */
    ghost function Block(k: nat): seq<Byte>
      requires Wired()
      reads Repr()
    {
      Slice(Store(), Start(k, bs + macBytes + randBytes), bs + macBytes + randBytes)
    }

    /** A MAC block is let through: it is too short to carry data, or its MAC is right, or only a warning is wanted. */
    predicate LetThrough(c: seq<Byte>) {
      |c| <= macBytes + randBytes || warnOnly || MacPasses(cipher, macBytes, allowHoles, c)
    }

    /** The bytes in front are the MAC of everything behind them, the lowest byte first. */
    ghost predicate CarriesMac(c: seq<Byte>)
      requires macBytes <= |c|
    {
      var m := cipher.mac64(c[macBytes..], None);
      forall i: nat, j: nat :: i < macBytes && j < 8 ==> Bit(c[i], j) == Bit(m, 8 * i + j)
    }

    /** What is let through, written out. */
    lemma CheckPassed(c: seq<Byte>)
      requires macBytes + randBytes < |c|
      ensures LetThrough(c) <==>
        warnOnly || CarriesMac(c) || (allowHoles && forall i :: 0 <= i < |c| ==> c[i] == 0)
    {
      hide LowBytes, Bit;
      var m := cipher.mac64(c[macBytes..], None);
      var low := LowBytes(m, macBytes);
      if c[..macBytes] == low {
        forall i: nat, j: nat | i < macBytes && j < 8 ensures Bit(c[i], j) == Bit(m, 8 * i + j) {
          LowBytesAt(m, macBytes, i, j);
          assert c[i] == c[..macBytes][i];
        }
        assert CarriesMac(c);
      }
      if CarriesMac(c) {
        forall i: nat | i < macBytes ensures c[i] == low[i] {
          forall j: nat | j < 8 ensures Bit(c[i], j) == Bit(low[i], j) {
            LowBytesAt(m, macBytes, i, j);
          }
          SameByte(c[i], low[i]);
        }
        assert c[..macBytes] == low;
      }
      assert AllZero(c) <==> forall i :: 0 <= i < |c| ==> c[i] == 0;
      assert macBytes == 0 ==> c[..macBytes] == low;
    }

    /** Reading block `k` goes to the store, not to a stale block of the base. */
    ghost predicate Reachable(k: nat)
      requires Wired() && base != null
      reads Repr()
    {
      Start(k, base.bs) < |Store()| || !base.Hit(k)
    }

    /** Every stored block passes its header check. */
    ghost predicate Authentic()
      requires Wired()
      reads Repr()
    {
      Intact(Fmt(), Store(), 0)
    }

    /** The header is on disk and stands for the IV in use. */
    ghost predicate Stored()
      requires Wired()
      reads Repr()
      decreases Rank(), 5
    {
      Sealed() && HEADER_SIZE <= |raw.bytes|
    }

    /** Nothing stands in the way of an operation: a healthy disk and no torn header. */
    ghost predicate Steady()
      reads raw
    {
      raw.healthy && (|raw.bytes| == 0 || HEADER_SIZE <= |raw.bytes|)
    }

    predicate Hit(k: nat)
      reads this
    {
      !noCache && cacheBlock == k && cacheData != []
    }

    twostate predicate KeptKeys()
      reads this
    {
      externalIV == old(externalIV) && (old(fileIV) != 0 ==> fileIV == old(fileIV))
    }

    twostate predicate SameCache()
      reads this, base
    {
      && cacheBlock == old(cacheBlock) && cacheData == old(cacheData)
      && (base != null ==> base.cacheBlock == old(base.cacheBlock) && base.cacheData == old(base.cacheData))
    }

    twostate predicate SameFile()
      requires Wired()
      reads Repr()
    {
      && raw.bytes == old(raw.bytes) && KeptKeys()
      && Fmt() == old(Fmt()) && Store() == old(Store()) && Contents() == old(Contents())
      && (old(Sealed()) ==> Sealed())
    }

    lemma WiredSize()
      requires Wired()
      ensures 1 < bs
    {
    }

    lemma BaseApart()
      requires Wired()
      ensures base != null ==> base.Wired() && base.Repr() == {base, raw} && this !in base.Repr()
      ensures Repr() == (if base == null then {this, raw} else {this, base, raw})
    {
    }

    lemma FormatLawful()
      requires Wired()
      ensures Fmt().Lawful() && Fmt().bs == bs && Fmt().holes == (allowHoles && !reverse)
      ensures Fmt().hs == if base == null then 0 else macBytes + randBytes
    {
      if base == null {
        CipherFormatLawful(cipher, bs, allowHoles, reverse, CurrentIV());
      } else {
        MacFormatLawful(cipher, bs, macBytes, randBytes, allowHoles);
      }
    }

    // ---------------------------------------------------------------- size and header

    /** `SameFile` follows when what the file depends on is kept. */
    twostate lemma KeptFile()
      requires Wired() && raw.bytes == old(raw.bytes) && KeptKeys()
      requires CurrentIV() == old(CurrentIV()) && (base != null ==> base.SameFile())
      requires base == null ==> fileIV == old(fileIV) || (fileIV == old(CurrentIV()) && old(HeaderOk()))
      ensures SameFile()
    {
      hide Unblock, Intact, CipherFormat, MacFormat, HeaderIV;
      assert Fmt() == old(Fmt());
      assert Store() == old(Store());
    }

    /** The whole of `Valid` and `SameFile` follows when what the file depends on is kept. */
    twostate lemma Kept()
      requires Wired() && old(Valid()) && Core() && Linked()
      requires raw.bytes == old(raw.bytes) && KeptKeys()
      requires CurrentIV() == old(CurrentIV()) && (base != null ==> base.SameFile())
      requires base == null ==> fileIV == old(fileIV) || fileIV == old(CurrentIV())
      requires
        || (cacheBlock, cacheData) == old((cacheBlock, cacheData))
        || Coherent(old(Contents()), bs, noCache, cacheBlock, cacheData)
      ensures Valid() && SameFile()
    {
      hide Unblock, Intact, Coherent, CipherFormat, MacFormat, HeaderIV;
      assert Fmt() == old(Fmt());
      assert Store() == old(Store());
    }

    /** Fails (an assertion in the program) only on a torn header. */
    method GetSize() returns (r: Outcome<nat>)
      requires Valid() && !reverse
      modifies Repr()
      ensures Valid() && SameFile()
      ensures SameCache() && (old(Tight()) ==> Tight())
      ensures r.Err? <==> 0 < |raw.bytes| < HEADER_SIZE
      ensures r.Ok? ==> r.value == |Contents()|
      decreases Rank(), 0
    {
      hide Unblock, Intact, Coherent, CipherFormat, MacFormat, HeaderIV, LocWithoutHeader, LocWithHeader;
      FormatLawful();
      SizeFormula(Fmt(), Store());
      LocTrivial(|Store()|, Fmt().Stride(), Fmt().hs);
      if base == null {
        var size := raw.GetSize();
        Kept();
        if size > 0 {
          if size < HEADER_SIZE {
            return Err;
          }
          size := size - HEADER_SIZE;
        }
        r := Ok(size);
      } else {
        r := base.GetSize();
        Kept();
        if r.Ok? && r.value > 0 {
          var headerSize := macBytes + randBytes;
          r := Ok(LocWithoutHeader(r.value, bs + headerSize, headerSize));
        }
      }
    }

    /** Random bytes that are not all zero: the outcome of the generator's retry loop. */
    method RandomIV() returns (iv: Word64)
      ensures iv != 0
    {
      iv :| 0 < iv < TWO_64;
    }

    /**
     * Take the file IV from the header, or create a header on a file that has none. The IV of a file
     * that is not writable stays in memory.
     */
    method InitHeader() returns (r: Outcome<()>)
      requires base == null && !reverse && Wired() && raw.Valid() && fileIV == 0
      modifies this`fileIV, raw
      ensures raw.Valid() && (old(HeaderOk()) ==> HeaderOk())
      ensures raw.healthy && old(HeaderOk()) ==> r.Ok?
      ensures HEADER_SIZE <= old(|raw.bytes|) && HeaderIV(cipher, externalIV, old(raw.bytes)) == 0 ==> r.Err?
      ensures HEADER_SIZE <= old(|raw.bytes|) ==>
        raw.bytes == old(raw.bytes) && fileIV == if r.Ok? then old(CurrentIV()) else 0
      ensures old(|raw.bytes|) < HEADER_SIZE ==> |raw.bytes| <= HEADER_SIZE
      ensures r.Ok? ==> fileIV != 0
      ensures Sealed() <==> HEADER_SIZE <= old(|raw.bytes|) || (r.Ok? && !raw.readOnly)
      ensures raw.readOnly ==> raw.bytes == old(raw.bytes)
    {
      hide HeaderIV, HeaderBytes;
      var rawSize := raw.GetSize();
      if HEADER_SIZE <= rawSize {
        var buf := raw.Read(0, HEADER_SIZE);
        if buf.Err? {
          return Err;
        }
        assert buf.value == raw.bytes[..HEADER_SIZE];
        assert HeaderIV(cipher, externalIV, buf.value) == HeaderIV(cipher, externalIV, raw.bytes) by {
          HeaderPrefix(cipher, externalIV, raw.bytes);
        }
        fileIV := HeaderIV(cipher, externalIV, buf.value);
        return if fileIV == 0 then Err else Ok(());
      }
      fileIV := RandomIV();
      if raw.readOnly {
        return Ok(());
      }
      HeaderRoundTrip(cipher, externalIV, fileIV, []);
      var h := HeaderBytes(cipher, externalIV, fileIV);
      assert h + [] == h;
      ghost var n;
      r, n := raw.Write(0, h);
      if n != 0 {
        SpliceOver(old(raw.bytes), 0, h);
        assert Splice(old(raw.bytes), 0, h[..n]) == h[..n] + old(raw.bytes)[Min(n, |old(raw.bytes)|)..];
      }
    }

    // ---------------------------------------------------------------- reading

    /** Read and decode one block of the raw file. */
    method CipherReadOneBlock(k: nat) returns (r: Outcome<seq<Byte>>)
      requires base == null && Valid()
      modifies this`fileIV, raw
      ensures Valid() && SameFile()
      ensures raw.healthy ==> r.Ok?
      ensures r.Ok? ==> r.value == Slice(Contents(), Start(k, bs), bs)
    {
      hide Unblock, Intact, Coherent, CipherFormat, HeaderIV, Start, Slice, DecodeBlock, Drop;
      BaseApart();
      var offset := Start(k, bs) + (if reverse then 0 else HEADER_SIZE);
      var t := raw.Read(offset, bs);
      if t.Err? {
        return Err;
      }
      var buf := t.value;
      SliceFit(raw.bytes, offset, bs);
      SliceDrop(raw.bytes, if reverse then 0 else HEADER_SIZE, Start(k, bs), bs);
      if |buf| > 0 {
        if fileIV == 0 {
          var h := InitHeader();
          if h.Err? {
            Kept();
            return Err;
          }
        }
        Kept();
        buf := DecodeBlock(cipher, bs, allowHoles, reverse, fileIV, k, buf);
      }
      CipherBlockRead(k, t.value);
      r := Ok(buf);
    }

    lemma CipherBlockRead(k: nat, t: seq<Byte>)
      requires base == null && Valid() && t == Slice(Store(), Start(k, bs), bs)
      ensures Slice(Contents(), Start(k, bs), bs) ==
        if t == [] then [] else DecodeBlock(cipher, bs, allowHoles, reverse, CurrentIV(), k, t)
    {
      hide Unblock, Intact, DecodeBlock, Coherent, HeaderIV, Start;
      FormatLawful();
      if Start(k, bs) < |Contents()| {
        BlockRead(Fmt(), Store(), k);
      } else {
        PastEnd(Fmt(), Store(), k);
      }
    }

    /** Read one MAC block, check its header and strip it. */
    method MacReadOneBlock(k: nat) returns (r: Outcome<seq<Byte>>)
      requires base != null && Core() && cacheData == []
      modifies base, raw
      ensures Core() && SameFile() && (old(Valid()) ==> Valid())
      ensures r.Ok? && old(Reachable(k)) ==>
        var (c, hs) := (Block(k), macBytes + randBytes);
        LetThrough(c) && r.value == if |c| <= hs then [] else c[hs..]
      ensures raw.healthy && old(Reachable(k)) ==> (r.Ok? <==> LetThrough(Block(k)))
      ensures r.Ok? ==> |r.value| <= bs
      ensures old(Valid()) && (Start(k, bs) < |Contents()| || old(base.Tight() || !base.Hit(k))) ==>
        (raw.healthy ==> r.Ok?) && (r.Ok? ==> r.value == Slice(Contents(), Start(k, bs), bs))
      ensures base.cacheData == [] || base.cacheBlock == k
      ensures old(Valid()) && r.Ok? && |Contents()| <= Start(k, bs) && old(!base.Hit(k)) ==> base.cacheData == []
      ensures old(base.Tight()) ==> base.Tight()
      decreases Rank(), 1
    {
      hide Unblock, Intact, Coherent, MacFormat, CipherFormat, HeaderIV, LocWithHeader, Start, StoredLen, Slice,
        MacPasses, LetThrough, CheckAndStrip, Core, Fmt, Store, Contents, Tight, Sealed, HeaderOk, CurrentIV, Valid,
        Linked, Reachable;
      ghost var valid := Valid();
      if valid {
        MacBlockRead(k);
      }
      ReachableWhen(k);
      var t := FetchBlock(k);
      if valid {
        MacBlockRead(k);
      }
      if t.Err? {
        return Err;
      }
      r := CheckAndStrip(t.value);
    }

    /** The header check on the bytes that were read, unless they are a hole or carry no MAC. */
    function CheckAndStrip(buf: seq<Byte>): (r: Outcome<seq<Byte>>)
      ensures r.Ok? <==> LetThrough(buf)
      ensures r.Ok? ==> r.value == if |buf| <= macBytes + randBytes then [] else buf[macBytes + randBytes..]
    {
      var headerSize := macBytes + randBytes;
      var skipBlock := if allowHoles then AllZero(buf) else macBytes == 0;
      if |buf| <= headerSize then Ok([])
      else
        var fail := !skipBlock && LowBytes(cipher.mac64(buf[macBytes..], None), macBytes) != buf[..macBytes];
        if fail && !warnOnly then Err else Ok(buf[headerSize..])
    }

    lemma ReachableWhen(k: nat)
      requires base != null && Core()
      ensures base.Tight() || !base.Hit(k) || Start(k, base.bs) < |Store()| ==> Reachable(k)
    {
      hide Unblock, Intact, Coherent, Fmt, HeaderIV, Start, Slice;
    }

    /** The stored bytes of a block, through the cipher layer and its cache. */
    method FetchBlock(k: nat) returns (t: Outcome<seq<Byte>>)
      requires base != null && Core() && cacheData == []
      modifies base, raw
      ensures Core() && SameFile() && (old(Valid()) ==> Valid())
      ensures old(Reachable(k)) ==> (raw.healthy ==> t.Ok?) && (t.Ok? ==> t.value == Block(k))
      ensures t.Ok? ==> |t.value| <= bs + macBytes + randBytes
      ensures base.cacheData == [] || base.cacheBlock == k
      ensures t.Ok? && |Store()| <= Start(k, base.bs) && old(!base.Hit(k)) ==> base.cacheData == []
      ensures old(base.Tight()) ==> base.Tight()
      decreases Rank(), 1, 0
    {
      hide Unblock, Intact, Coherent, MacFormat, CipherFormat, HeaderIV, LocWithHeader, Start, StoredLen, Slice,
        MacPasses;
      var stride := bs + macBytes + randBytes;
      BlockStart(k, bs, macBytes + randBytes);
      if |Store()| <= Start(k, stride) {
        SlicePastEnd(Store(), Start(k, stride), stride);
      }
      t := base.Read(LocWithHeader(Start(k, bs), stride, macBytes + randBytes), stride);
      KeptFile();
      if old(Valid()) {
        Kept();
      }
    }

    lemma MacBlockRead(k: nat)
      requires base != null && Valid()
      ensures Start(k, bs) < |Contents()| ==> Start(k, base.bs) < |Store()|
      ensures var t := Slice(Store(), Start(k, base.bs), base.bs); var hs := macBytes + randBytes;
        if Start(k, bs) < |Contents()| then
          hs < |t| && MacPasses(cipher, macBytes, allowHoles, t) && Drop(t, hs) == Slice(Contents(), Start(k, bs), bs)
        else t == [] && Slice(Contents(), Start(k, bs), bs) == []
      ensures |Contents()| <= Start(k, bs) ==> |Store()| <= Start(k, base.bs)
      ensures var (c, hs) := (Block(k), macBytes + randBytes);
        LetThrough(c) && (if |c| <= hs then [] else c[hs..]) == Slice(Contents(), Start(k, bs), bs)
    {
      hide Unblock, Intact, Coherent, HeaderIV, Start;
      FormatLawful();
      if Start(k, bs) < |Contents()| {
        BlockRead(Fmt(), Store(), k);
      } else {
        PastEnd(Fmt(), Store(), k);
      }
    }

    method ReadOneBlock(k: nat) returns (r: Outcome<seq<Byte>>)
      requires Core() && cacheData == []
      modifies Repr()
      ensures Core() && SameFile() && cacheData == [] && (old(Valid()) ==> Valid())
      ensures base != null && r.Ok? && old(Reachable(k)) ==> LetThrough(Block(k))
      ensures base != null && raw.healthy && old(Reachable(k)) ==> (r.Ok? <==> LetThrough(Block(k)))
      ensures r.Ok? ==> |r.value| <= bs
      ensures old(Valid()) && (Start(k, bs) < |Contents()| || base == null || old(base.Tight() || !base.Hit(k))) ==>
        (raw.healthy ==> r.Ok?) && (r.Ok? ==> r.value == Slice(Contents(), Start(k, bs), bs))
      ensures old(Valid()) && r.Ok? && base != null && |Contents()| <= Start(k, bs) && old(!base.Hit(k)) ==>
        base.cacheData == []
      ensures base != null ==> base.cacheData == [] || base.cacheBlock == k
      ensures base != null && old(base.Tight()) ==> base.Tight()
      decreases Rank(), 2
    {
      hide Unblock, Intact, Coherent, MacFormat, CipherFormat, HeaderIV, Start, Fmt, Contents, Store;
      if base == null {
        Emptied();
        r := CipherReadOneBlock(k);
      } else {
        r := MacReadOneBlock(k);
      }
    }

    lemma LinkedTo(k: nat)
      requires Valid() && (Hit(k) || noCache || (base != null ==> base.cacheData == [] || base.cacheBlock == k))
      ensures base != null ==> noCache || base.cacheData == [] || base.cacheBlock == k
    {
    }

    /** Caching a block below the end of the file leaves nothing cached past it. */
    lemma TightBelow(k: nat)
      requires Valid() && (cacheData == [] || cacheBlock == k) && Start(k, bs) < |Contents()|
      requires base != null ==> noCache || base.cacheData == [] || base.cacheBlock == k
      ensures Tight()
    {
      hide Unblock, Intact, Coherent, Fmt, HeaderIV, Start, Slice;
      if base != null {
        MacBlockRead(k);
      }
    }

    /** A hit below the end of the file is the block itself; one past it is left by an untidy state only. */
    lemma HitFacts(k: nat)
      requires Valid() && Hit(k)
      ensures Start(k, bs) < |Contents()| ==> cacheData == Slice(Contents(), Start(k, bs), bs) && Tight() && Paired()
      ensures Tight() ==> Start(k, bs) < |Contents()|
    {
      hide Unblock, Intact, Fmt, HeaderIV, Start, Slice;
      if Start(k, bs) < |Contents()| {
        LinkedTo(k);
        TightBelow(k);
      }
    }

    /** Drop the cache, read a full block and cache what came back. */
    method CacheMiss(k: nat) returns (r: Outcome<seq<Byte>>)
      requires Core() && !Hit(k)
      modifies Repr()
      ensures Core() && SameFile() && (old(Valid()) ==> Valid())
      ensures base != null && old(Paired()) && r.Ok? ==> LetThrough(Block(k))
      ensures base != null && old(Paired()) && raw.healthy ==> (r.Ok? <==> LetThrough(Block(k)))
      ensures raw.healthy && old(Valid()) && (Start(k, bs) < |Contents()| || old(Paired())) ==> r.Ok?
      ensures cacheData == [] || cacheBlock == k
      ensures base != null ==> base.cacheData == [] || base.cacheBlock == k
      ensures r.Ok? ==> cacheData == r.value
      ensures old(Valid()) && r.Ok? && (Start(k, bs) < |Contents()| || old(Tight() || Paired())) ==>
        r.value == Slice(Contents(), Start(k, bs), bs)
      ensures old(Valid()) && r.Ok? && old(Paired()) ==> Paired()
      ensures r.Err? ==> cacheData == []
      ensures base != null && old(Tight()) ==> base.Tight()
      decreases Rank(), 3
    {
      hide Unblock, Intact, MacFormat, CipherFormat, HeaderIV, Start, Slice, Fmt, Store, Contents, Coherent, Valid,
        Core, Tight, Sealed, HeaderOk, CurrentIV, Wired, Linked, MacPasses, LetThrough, Reachable;
      SliceFit(Contents(), Start(k, bs), bs);
      DropCache(k);
      Emptied();
      r := ReadOneBlock(k);
      Emptied();
      if r.Ok? {
        if Valid() {
          ReadCoherent(k, r.value);
        }
        KeepBlock(k, r.value);
      }
    }

    /** What was read from below the end agrees with the file; past the end nothing has to. */
    lemma ReadCoherent(k: nat, d: seq<Byte>)
      requires Wired() && (Start(k, bs) < |Contents()| ==> d == Slice(Contents(), Start(k, bs), bs))
      ensures Coherent(Contents(), bs, noCache, k, d)
    {
    }

    method DropCache(ghost k: nat)
      requires Core() && !Hit(k)
      modifies this`cacheData
      ensures Core() && SameFile() && cacheData == [] && (old(Valid()) ==> Valid())
      ensures base != null && old(Paired()) ==> !base.Hit(k) && Reachable(k)
      ensures base != null && old(Tight()) ==> base.Tight()
    {
      hide Unblock, Intact, MacFormat, CipherFormat, HeaderIV, Start, Slice;
      BaseApart();
      cacheData := [];
      KeptFile();
      if old(Valid()) {
        Kept();
      }
    }

    method KeepBlock(k: nat, d: seq<Byte>)
      requires Core() && cacheData == [] && |d| <= bs && (Valid() ==> Coherent(Contents(), bs, noCache, k, d))
      requires base != null ==> base.cacheData == [] || base.cacheBlock == k
      modifies this`cacheBlock, this`cacheData
      ensures Core() && SameFile() && cacheBlock == k && cacheData == d && (old(Valid()) ==> Valid())
      ensures base != null && old(base.Tight()) ==> base.Tight()
    {
      hide Unblock, Intact, MacFormat, CipherFormat, HeaderIV, Start, Slice, Coherent;
      BaseApart();
      cacheBlock, cacheData := k, d;
      KeptFile();
      if old(Valid()) {
        Kept();
      }
    }

    /**
     * Serve at most one block, from the cache when it holds that block. A hit returns the cached
     * bytes and changes nothing, whether or not they agree with the file.
     */
    method CacheReadOneBlock(k: nat, len: nat) returns (r: Outcome<seq<Byte>>)
      requires len <= bs && Wired() && |cacheData| <= bs && (Core() || Hit(k))
      modifies Repr()
      ensures old(Hit(k)) ==> r == Ok(Slice(old(cacheData), 0, len)) && unchanged(Repr())
      ensures old(Core()) ==> Core() && SameFile() && (old(Valid()) ==> Valid())
      ensures base != null && !old(Hit(k)) && old(Paired()) && r.Ok? ==> LetThrough(Block(k))
      ensures base != null && !old(Hit(k)) && old(Paired()) && raw.healthy ==> (r.Ok? <==> LetThrough(Block(k)))
      ensures old(Valid()) && raw.healthy && (Start(k, bs) < |Contents()| || old(Paired())) ==> r.Ok?
      ensures r.Err? ==> cacheData == []
      ensures old(Valid()) && r.Ok? && !old(Hit(k)) && old(Paired()) ==>
        cacheData == Slice(Contents(), Start(k, bs), bs)
      ensures old(Valid()) && r.Ok? && (Start(k, bs) < |Contents()| || old(Paired())) ==> Paired()
      ensures r.Ok? ==> |r.value| <= len
      ensures old(Valid()) && r.Ok? && !old(Hit(k)) && old(Paired()) ==> r.value == Slice(Contents(), Start(k, bs), len)
      ensures old(Valid()) && r.Ok? && (Start(k, bs) < |Contents()| || old(Tight())) ==>
        r.value == Slice(Contents(), Start(k, bs), len)
      ensures cacheData == [] || cacheBlock == k
      ensures old(Valid()) && (Start(k, bs) < |Contents()| || old(Tight())) ==> Tight()
      decreases Rank(), 4
    {
      hide Unblock, Intact, MacFormat, CipherFormat, HeaderIV, Start, Fmt, Store, Contents, Coherent, Slice, Valid,
        Core, Tight, Sealed, HeaderOk, CurrentIV, Wired, Linked, MacPasses, LetThrough;
      if !noCache && cacheBlock == k && cacheData != [] {
        SlicePrefix(cacheData, len);
        SliceSlice(Contents(), Start(k, bs), bs, 0, len);
        if Valid() {
          HitFacts(k);
        }
        r := Ok(cacheData[..Min(len, |cacheData|)]);
      } else {
        r := CacheRefill(k, len);
      }
    }

    /** The miss branch of a block read. */
    method CacheRefill(k: nat, len: nat) returns (r: Outcome<seq<Byte>>)
      requires Core() && !Hit(k) && len <= bs
      modifies Repr()
      ensures Core() && SameFile() && (old(Valid()) ==> Valid())
      ensures base != null && old(Paired()) && r.Ok? ==> LetThrough(Block(k))
      ensures base != null && old(Paired()) && raw.healthy ==> (r.Ok? <==> LetThrough(Block(k)))
      ensures old(Valid()) && raw.healthy && (Start(k, bs) < |Contents()| || old(Paired())) ==> r.Ok?
      ensures r.Err? ==> cacheData == []
      ensures old(Valid()) && r.Ok? && old(Paired()) ==> cacheData == Slice(Contents(), Start(k, bs), bs)
      ensures old(Valid()) && r.Ok? && (Start(k, bs) < |Contents()| || old(Paired())) ==> Paired()
      ensures r.Ok? ==> |r.value| <= len
      ensures old(Valid()) && r.Ok? && (Start(k, bs) < |Contents()| || old(Tight() || Paired())) ==>
        r.value == Slice(Contents(), Start(k, bs), len)
      ensures cacheData == [] || cacheBlock == k
      ensures old(Valid()) && (Start(k, bs) < |Contents()| || old(Tight())) ==> Tight()
      decreases Rank(), 4, 0
    {
      hide Unblock, Intact, MacFormat, CipherFormat, HeaderIV, Start, Fmt, Store, Contents, Coherent, Slice, Valid,
        Core, MacPasses, LetThrough;
      ghost var c, i := Contents(), Start(k, bs);
      SliceSlice(c, i, bs, 0, len);
      r := CacheMiss(k);
      if r.Ok? {
        SlicePrefix(cacheData, len);
        r := Ok(cacheData[..Min(len, |cacheData|)]);
      }
      if old(Valid()) && i < |c| {
        LinkedTo(k);
        TightBelow(k);
        SliceFit(c, i, bs);
      } else if old(Valid() && Tight()) {
        SlicePastEnd(c, i, bs);
      }
    }

    /**
     * Serve a read of any size at any offset, block by block. A read that starts below the end of
     * the file, or with no block cached past it, returns exactly the flat file's bytes. A read that
     * starts at or past the end returns the tail of a stale cached block, if there is one.
     */
    method Read(off: nat, len: nat) returns (r: Outcome<seq<Byte>>)
      requires Wired() && |cacheData| <= bs
      requires Valid() || ((Core() || Hit(BlockOf(off, bs))) && PosIn(off, bs) == 0 && len <= bs)
      modifies Repr()
      ensures old(Hit(BlockOf(off, bs))) && PosIn(off, bs) == 0 && len <= bs ==>
        r == Ok(Slice(old(cacheData), 0, len)) && unchanged(Repr())
      ensures old(Core()) ==> Core() && SameFile() && (old(Valid()) ==> Valid())
      ensures base != null && PosIn(off, bs) == 0 && len <= bs && !old(Hit(BlockOf(off, bs))) && old(Paired()) ==>
        && (r.Ok? ==> LetThrough(Block(BlockOf(off, bs))))
        && (raw.healthy ==> (r.Ok? <==> LetThrough(Block(BlockOf(off, bs)))))
      ensures old(Valid()) && raw.healthy && (off < |Contents()| || old(Paired())) ==> r.Ok?
      ensures r.Ok? ==> |r.value| <= len
      ensures old(Valid()) && r.Ok? && old(Paired()) ==> Paired()
      ensures old(Valid() && Paired() && !Hit(BlockOf(off, bs))) && r.Ok? && PosIn(off, bs) == 0 && len <= bs ==>
        cacheData == Slice(Contents(), off, bs)
      ensures old(Valid()) && r.Ok? && (off < |Contents()| || old(Tight())) ==> r.value == Slice(Contents(), off, len)
      ensures old(Valid()) && r.Ok? && old(Paired()) && |Contents()| <= off ==>
        r.value == if old(Hit(BlockOf(off, bs))) then Slice(old(cacheData), PosIn(off, bs), len) else []
      ensures PosIn(off, bs) == 0 && len <= bs ==> cacheData == [] || cacheBlock == BlockOf(off, bs)
      ensures old(Valid() && Tight()) ==> Tight()
      decreases Rank(), 6
    {
      hide Unblock, Intact, MacFormat, CipherFormat, HeaderIV, Start, Fmt, Store, Contents, Coherent, Slice, Valid,
        Core, Tight, Sealed, HeaderOk, BlockOf, PosIn, Wired, CurrentIV, MacPasses, LetThrough;
      WiredSize();
      StartDiv(off, bs);
      var partialOffset: nat := off % bs;
      var blockNum: nat := off / bs;
      if partialOffset == 0 && len <= bs {
        r := CacheReadOneBlock(blockNum, len);
        if old(Valid()) && |Contents()| <= off {
          SlicePastEnd(Contents(), off, len);
        }
        return;
      }
      r := ReadBlocks(off, len, blockNum, partialOffset);
    }

    /** The block loop of a read. */
    method ReadBlocks(off: nat, len: nat, firstBlock: nat, firstOffset: nat) returns (r: Outcome<seq<Byte>>)
      requires Valid() && Start(firstBlock, bs) + firstOffset == off && firstOffset < bs
      modifies Repr()
      ensures Valid() && SameFile()
      ensures raw.healthy && (off < |Contents()| || old(Paired())) ==> r.Ok?
      ensures r.Ok? && old(Paired()) ==> Paired()
      ensures r.Ok? ==> |r.value| <= len
      ensures r.Ok? && (off < |Contents()| || old(Tight())) ==> r.value == Slice(Contents(), off, len)
      ensures r.Ok? && old(Paired()) && |Contents()| <= off ==>
        r.value == if old(Hit(firstBlock)) then Slice(old(cacheData), firstOffset, len) else []
      ensures old(Tight()) ==> Tight()
      decreases Rank(), 5
    {
      hide Unblock, Intact, MacFormat, CipherFormat, HeaderIV, Start, Fmt, Store, Contents, Coherent, Slice, Valid,
        Core, Tight, Sealed, HeaderOk, BlockOf, PosIn, Wired, CurrentIV;
      ghost var c := Contents();
      ghost var good := off < |c| || old(Tight());
      var blockNum: nat, partialOffset: nat := firstBlock, firstOffset;
      var out: seq<Byte>, size: nat := [], len;
      SliceNone(c, off);
      SliceNone(cacheData, partialOffset);
      while size != 0
        invariant Valid() && SameFile() && size + |out| == len
        invariant size != 0 ==> Start(blockNum, bs) + partialOffset == off + |out| && partialOffset < bs
        invariant good ==> out == Slice(c, off, |out|) && (Tight() || (out == [] && off < |c|))
        invariant off < |c| && out != [] ==> Paired()
        invariant old(Tight()) ==> Tight()
        invariant old(Paired()) ==> Paired()
        invariant out == [] ==>
          && blockNum == firstBlock && partialOffset == firstOffset
          && cacheBlock == old(cacheBlock) && cacheData == old(cacheData)
        invariant old(Paired()) && |c| <= off && out != [] ==>
          old(Hit(firstBlock)) && !Hit(blockNum) && out == Slice(old(cacheData), firstOffset, len)
        decreases size
      {
        var k := blockNum;
        var v := CacheReadOneBlock(k, bs);
        if v.Err? {
          return Err;
        }
        if good {
          ReadStep(c, off, out, k, partialOffset, bs, size, v.value);
        }
        SliceFit(c, Start(k, bs), bs);
        StartNext(k, bs);
        SliceFit(v.value, partialOffset, size);
        SliceAll(old(cacheData), bs);
        if |v.value| <= partialOffset {
          break;
        }
        out := out + Slice(v.value, partialOffset, size);
        size := len - |out|;
        blockNum := blockNum + 1;
        partialOffset := 0;
        if |v.value| < bs {
          break;
        }
      }
      r := Ok(out);
    }

    // ---------------------------------------------------------------- writing

    /** Encode one block and write it behind the header, creating the header first if need be. */
    method CipherWriteOneBlock(k: nat, d: seq<Byte>) returns (r: Outcome<()>, ghost e: seq<Byte>)
      requires base == null && Core() && !reverse && 0 < |d| <= bs
      modifies this`fileIV, raw
      ensures Core() && KeptKeys()
      ensures raw.healthy ==> r.Ok?
      ensures r.Ok? ==> Fmt().Encodes(k, e, d) && Store() == Splice(old(Store()), Start(k, bs), e)
      ensures r.Ok? ==> (Fmt() == old(Fmt()) || old(Store()) == []) && HEADER_SIZE <= |raw.bytes|
      ensures r.Ok? && old(fileIV) != 0 && old(|raw.bytes|) < HEADER_SIZE ==>
        (Sealed() <==> HeaderIV(cipher, externalIV, Resize(old(raw.bytes), HEADER_SIZE)) == fileIV)
      ensures r.Ok? && old(Sealed()) ==> Sealed()
      ensures old(Stored()) ==> Stored()
    {
      hide Unblock, Intact, Coherent, CipherFormat, HeaderIV, Start, Slice, EncodeBlock, Splice, Drop, Resize;
      if fileIV == 0 {
        var h := InitHeader();
        if h.Err? {
          return Err, [];
        }
        NewHeader(old(raw.bytes), raw.bytes);
      }
      ghost var b := raw.bytes;
      r, e := StoreBlock(k, d);
      if HEADER_SIZE <= |b| {
        HeaderSame(cipher, externalIV, b, raw.bytes);
      } else if r.Ok? {
        ResizeLen(b, HEADER_SIZE);
        HeaderSame(cipher, externalIV, Resize(b, HEADER_SIZE), raw.bytes);
      }
    }

    /** A header that had to be created is all there is. */
    lemma NewHeader(before: seq<Byte>, after: seq<Byte>)
      requires if HEADER_SIZE <= |before| then after == before else |after| <= HEADER_SIZE
      ensures Drop(after, HEADER_SIZE) == Drop(before, HEADER_SIZE)
      ensures |before| < HEADER_SIZE ==> Drop(before, HEADER_SIZE) == []
    {
    }

    /** Encode a block under the IV in memory and write it behind the place of the header. */
    method StoreBlock(k: nat, d: seq<Byte>) returns (r: Outcome<()>, ghost e: seq<Byte>)
      requires base == null && Core() && !reverse && fileIV != 0 && 0 < |d| <= bs
      modifies raw
      ensures Core() && Fmt() == old(Fmt())
      ensures raw.healthy ==> r.Ok?
      ensures r.Ok? ==> Fmt().Encodes(k, e, d) && Store() == Splice(old(Store()), Start(k, bs), e)
      ensures r.Ok? || HEADER_SIZE <= old(|raw.bytes|) ==> HEADER_SIZE <= |raw.bytes|
      ensures raw.readOnly ==> r.Err?
      ensures HEADER_SIZE <= old(|raw.bytes|) ==> raw.bytes[..HEADER_SIZE] == old(raw.bytes)[..HEADER_SIZE]
      ensures r.Ok? && old(|raw.bytes|) < HEADER_SIZE ==>
        raw.bytes[..HEADER_SIZE] == Resize(old(raw.bytes), HEADER_SIZE)[..HEADER_SIZE]
    {
      hide Unblock, Intact, Coherent, CipherFormat, HeaderIV, Start, Slice, EncodeBlock, Splice;
      e := EncodeBlock(cipher, bs, fileIV, k, d);
      var buf := EncodeBlock(cipher, bs, fileIV, k, d);
      EncodeBlockEncodes(cipher, bs, allowHoles, fileIV, k, d);
      ghost var b, n := raw.bytes, 0;
      r, n := raw.Write(Start(k, bs) + HEADER_SIZE, buf);
      WriteKeepsHeader(b, Start(k, bs) + HEADER_SIZE, buf, n);
      DropSplice(b, HEADER_SIZE, Start(k, bs), buf);
      SpliceAt(b, Start(k, bs) + HEADER_SIZE, buf, 0);
    }

    method RandomBytes(n: nat) returns (s: seq<Byte>)
      ensures |s| == n
    {
      assert |Zeros(n)| == n;
      s :| |s| == n;
    }

    /** Prefix a block with its MAC and random bytes and pass it to the cipher layer. */
    method MacWriteOneBlock(k: nat, d: seq<Byte>) returns (r: Outcome<()>, ghost e: seq<Byte>)
      requires base != null && Core() && 0 < |d| <= bs
      modifies base, raw
      ensures Core()
      ensures old(Steady()) ==> r.Ok? && Steady()
      ensures r.Ok? ==> Fmt().Encodes(k, e, d) && Store() == Splice(old(Store()), Start(k, Fmt().Stride()), e)
      ensures Fmt() == old(Fmt())
      ensures r.Ok? ==> base.cacheData != [] && base.cacheBlock == k && base.Tight()
      ensures r.Ok? && old(Sealed()) ==> Sealed()
      ensures old(Stored()) ==> Stored()
      decreases Rank(), 1
    {
      hide Unblock, Intact, Coherent, MacFormat, CipherFormat, HeaderIV, LocWithHeader, Start, Slice, Splice, MacBlock;
      var headerSize := macBytes + randBytes;
      var stride := bs + headerSize;
      FormatLawful();
      BaseApart();
      var rand := RandomBytes(randBytes);
      if randBytes > 0 {
        var ok := raw.Permitted();
        if !ok {
          return Err, [];
        }
      }
      e := MacBlock(cipher, macBytes, rand, d);
      var buf := MacBlock(cipher, macBytes, rand, d);
      MacBlockEncodes(cipher, bs, macBytes, rand, allowHoles, k, d);
      BlockStart(k, bs, headerSize);
      DivUnique(Start(k, stride) + |buf| - 1, stride, k, |buf| - 1);
      r := base.Write(LocWithHeader(Start(k, bs), stride, headerSize), buf);
    }

    method WriteOneBlock(k: nat, d: seq<Byte>) returns (r: Outcome<()>, ghost e: seq<Byte>)
      requires Core() && !reverse && 0 < |d| <= bs
      modifies Repr()
      ensures Core() && (cacheBlock, cacheData) == old((cacheBlock, cacheData)) && KeptKeys()
      ensures old(Steady()) ==> r.Ok? && Steady()
      ensures r.Ok? ==> Fmt().Encodes(k, e, d) && Store() == Splice(old(Store()), Start(k, Fmt().Stride()), e)
      ensures r.Ok? ==> Fmt() == old(Fmt()) || old(Store()) == []
      ensures r.Ok? && base != null ==> base.cacheData != [] && base.cacheBlock == k && base.Tight()
      ensures r.Ok? && old(Sealed()) ==> Sealed()
      ensures old(Stored()) ==> Stored()
      decreases Rank(), 2
    {
      hide Unblock, Intact, Coherent, HeaderIV, Start, Slice, Splice, Store, Contents;
      if base == null {
        r, e := CipherWriteOneBlock(k, d);
      } else {
        r, e := MacWriteOneBlock(k, d);
      }
    }

    /** Block `k` can be replaced by `n` bytes without leaving old bytes behind them. */
    ghost predicate Covers(k: nat, n: nat)
      requires Wired()
      reads Repr()
    {
      && (Start(k, bs) <= |Contents()| || (allowHoles && PosIn(|Contents()|, bs) == 0))
      && (n == bs || |Contents()| <= Start(k, bs) + n)
    }

    /** With nothing cached the file is consistent exactly when its store is; a cipher store always is. */
    lemma Emptied()
      requires Core() && cacheData == []
      ensures Valid() <==> Intact(Fmt(), Store(), 0)
      ensures base == null ==> Valid()
    {
      hide Unblock, Intact, HeaderIV, Start, Slice;
      if base == null {
        CipherIntact(cipher, bs, allowHoles, reverse, CurrentIV(), Store(), 0);
      }
    }

    /** The layer below is as long as the user data with its headers. */
    lemma SizesMatch()
      requires Wired() && Intact(Fmt(), Store(), 0)
      ensures Fmt().hs < Fmt().Stride() && |Store()| == LocWithHeader(|Contents()|, Fmt().Stride(), Fmt().hs)
    {
      hide Unblock, Intact, LocWithHeader, LocWithoutHeader;
      FormatLawful();
      SizeFormula(Fmt(), Store());
    }

    lemma Consistency()
      requires Core() && (cacheData == [] || Valid())
      ensures Valid() <==> Authentic()
      ensures Authentic() <==> Intact(Fmt(), Store(), 0)
    {
      hide Unblock, Intact, HeaderIV, Start, Slice;
      if cacheData == [] {
        Emptied();
      }
    }

    /** After a covering block write the flat contents are those of a flat write, and the cache agrees. */
    lemma Refined(k: nat, d: seq<Byte>, e: seq<Byte>, f: Format, s: seq<Byte>)
      requires Core() && cacheBlock == k && cacheData == d && Fmt().Encodes(k, e, d)
      requires base != null ==> base.cacheData != [] && base.cacheBlock == k && base.Tight()
      requires f.Lawful() && Intact(f, s, 0) && (Fmt() == f || s == [])
      requires Store() == Splice(s, Start(k, Fmt().Stride()), e)
      requires var n := |Unblock(f, s, 0)|;
        && (Start(k, bs) <= n || (Fmt().holes && PosIn(n, bs) == 0))
        && (|d| == bs || n <= Start(k, bs) + |d|)
      ensures Valid() && Tight() && Contents() == Splice(Unblock(f, s, 0), Start(k, bs), d)
    {
      hide Unblock, Intact, HeaderIV, Start, Slice, Splice, MacFormat, CipherFormat, PosIn;
      FormatLawful();
      UnblockEmpty(f, 0);
      UnblockEmpty(Fmt(), 0);
      var c := Unblock(f, s, 0);
      assert c == Unblock(Fmt(), s, 0);
      BlockWrite(Fmt(), s, k, e, d);
      SliceOfSplice(c, Start(k, bs), d, bs);
    }

    /** Whether a block just written is what reading it would return. */
    lemma Honest(k: nat, d: seq<Byte>, e: seq<Byte>, s: seq<Byte>)
      requires Wired() && Fmt().Encodes(k, e, d) && Start(k, Fmt().Stride()) <= |s|
      requires Store() == Splice(s, Start(k, Fmt().Stride()), e)
      ensures !noCache ==>
        (Coherent(Contents(), bs, noCache, k, d) <==> |d| == bs || |s| <= Start(k, Fmt().Stride()) + |e|)
    {
      hide Unblock, Intact, HeaderIV, Start, Slice, Splice, MacFormat, CipherFormat, PosIn, Store;
      FormatLawful();
      WrittenBack(Fmt(), s, k, e, d);
    }

    /** Write one block through, then cache it; a failed write empties the cache. */
    method CacheWriteOneBlock(k: nat, d: seq<Byte>) returns (r: Outcome<()>, ghost e: seq<Byte>)
      requires Core() && !reverse && 0 < |d| <= bs
      modifies Repr()
      ensures Core() && KeptKeys()
      ensures old(Steady()) ==> r.Ok? && Steady()
      ensures r.Err? ==> cacheData == [] && (base == null ==> Valid())
      ensures r.Ok? ==> cacheBlock == k && cacheData == d && Paired()
      ensures r.Ok? && base != null ==> base.cacheData != [] && base.cacheBlock == k && base.Tight()
      ensures r.Ok? ==> Fmt().Encodes(k, e, d) && Store() == Splice(old(Store()), Start(k, Fmt().Stride()), e)
      ensures r.Ok? ==> Fmt() == old(Fmt()) || old(Store()) == []
      ensures r.Ok? && old(Sealed()) ==> Sealed()
      ensures old(Stored()) ==> Stored()
      ensures r.Ok? && old(Valid() && Covers(k, |d|)) ==>
        Valid() && Contents() == Splice(old(Contents()), Start(k, bs), d) && Tight()
      ensures r.Ok? && !noCache && Start(k, Fmt().Stride()) <= |old(Store())| ==>
        (Coherent(Contents(), bs, noCache, k, d) <==> |d| == bs || |old(Store())| <= Start(k, Fmt().Stride()) + |e|)
      decreases Rank(), 3
    {
      hide Unblock, Intact, Coherent, HeaderIV, Start, Slice, Splice, MacFormat, CipherFormat, PosIn, Fmt, Store,
        Contents, Valid, Core, Tight, Sealed, HeaderOk, CurrentIV, Wired, Linked, Covers;
      FormatLawful();
      ghost var f, s := Fmt(), Store();
      ghost var covers := Valid() && Covers(k, |d|);
      if covers {
        CoversMeans(k, |d|);
      }
      r, e := WriteOneBlock(k, d);
      if r.Err? {
        SetCache(cacheBlock, []);
        Emptied();
      } else {
        SetCache(k, d);
        FormatLawful();
        if covers {
          Refined(k, d, e, f, s);
        }
        if Start(k, Fmt().Stride()) <= |s| {
          Honest(k, d, e, s);
        }
      }
    }

    lemma CoversMeans(k: nat, n: nat)
      requires Valid() && Covers(k, n) && !reverse
      ensures Intact(Fmt(), Store(), 0) && Contents() == Unblock(Fmt(), Store(), 0)
      ensures Start(k, bs) <= |Contents()| || (Fmt().holes && PosIn(|Contents()|, bs) == 0)
      ensures n == bs || |Contents()| <= Start(k, bs) + n
    {
      hide Unblock, Intact, HeaderIV, Start, PosIn;
      FormatLawful();
    }

    /** Remembering a block, or nothing, changes nothing else. */
    method SetCache(k: nat, d: seq<Byte>)
      requires Core() && |d| <= bs
      modifies this`cacheBlock, this`cacheData
      ensures Core() && cacheBlock == k && cacheData == d && KeptKeys()
      ensures Fmt() == old(Fmt()) && Store() == old(Store()) && Contents() == old(Contents())
      ensures Sealed() == old(Sealed())
      ensures base != null ==> base.Tight() == old(base.Tight())
    {
      hide Unblock, Intact, Coherent, HeaderIV, Start, Slice, MacFormat, CipherFormat;
      BaseApart();
      cacheBlock, cacheData := k, d;
      assert Fmt() == old(Fmt()) && Store() == old(Store());
    }

    /** Read what the last block holds and write it back grown to `q` bytes. */
    method PadBlock(k: nat, p: nat, q: nat) returns (r: Outcome<()>)
      requires Valid() && !reverse && |Contents()| == Start(k, bs) + p && p < q <= bs
      modifies Repr()
      ensures Core() && KeptKeys()
      ensures old(Steady() && (0 < p || Paired())) ==> r.Ok? && Steady()
      ensures r.Err? ==> cacheData == [] && (base == null ==> Valid())
      ensures r.Ok? ==> Paired()
      ensures r.Ok? ==> Valid() && Contents() == Resize(old(Contents()), Start(k, bs) + q) && Tight()
      ensures r.Ok? && old(Sealed()) ==> Sealed()
      ensures old(Stored()) ==> Stored()
      decreases Rank(), 5
    {
      hide Unblock, Intact, Coherent, HeaderIV, Start, Slice, Splice, MacFormat, CipherFormat, PosIn, Resize, Store,
        Contents, Valid, Core, HeaderOk, Tight, Sealed, CurrentIV, Fmt;
      ghost var c := Contents();
      var data := CacheReadOneBlock(k, p);
      if data.Err? {
        return Err;
      }
      SliceFit(c, Start(k, bs), p);
      SliceNone(c, Start(k, bs));
      SplicePad(c, Start(k, bs), p, q);
      var buf := data.value + Zeros(q - |data.value|);
      assert Covers(k, |buf|);
      ghost var e;
      r, e := CacheWriteOneBlock(k, buf);
    }

    /** Append zero blocks `first` up to `last`. */
    method PadZeroBlocks(first: nat, last: nat) returns (r: Outcome<()>)
      requires Valid() && !reverse && first <= last && |Contents()| == Start(first, bs)
      modifies Repr()
      ensures Core() && KeptKeys()
      ensures old(Steady()) ==> r.Ok? && Steady()
      ensures r.Err? ==> cacheData == [] && (base == null ==> Valid())
      ensures r.Ok? ==> Valid() && Contents() == Resize(old(Contents()), Start(last, bs))
      ensures r.Ok? && first == last ==>
        SameFile() && SameCache() && (old(Tight()) ==> Tight())
      ensures r.Ok? && (first != last || old(Paired())) ==> Paired()
      ensures r.Ok? && first != last ==> Tight()
      ensures r.Ok? && old(Sealed()) ==> Sealed()
      ensures old(Stored()) ==> Stored()
      decreases Rank(), 5
    {
      hide Unblock, Intact, Coherent, HeaderIV, Start, Slice, Splice, MacFormat, CipherFormat, PosIn, BlockOf, Resize,
        Store, Contents, Valid, Core, HeaderOk, Tight, Sealed, CurrentIV, Fmt, Wired;
      ghost var c := Contents();
      ResizeSame(c);
      r := Ok(());
      var k := first;
      while k != last
        invariant first <= k <= last && r.Ok? && KeptKeys()
        invariant Valid() && Contents() == Resize(c, Start(k, bs)) && |c| <= Start(k, bs) == |Contents()|
        invariant old(Steady()) ==> Steady()
        invariant k == first ==>
          SameFile() && SameCache() && (old(Tight()) ==> Tight())
        invariant k != first ==> Tight() && Paired()
        invariant old(Sealed()) ==> Sealed()
        invariant old(Stored()) ==> Stored()
        decreases last - k
      {
        StartNext(k, bs);
        SpliceZeros(Contents(), Start(k, bs), bs);
        ResizeResize(c, Start(k, bs), Start(k + 1, bs));
        ResizeLen(c, Start(k + 1, bs));
        assert Covers(k, |Zeros(bs)|);
        ghost var e;
        r, e := CacheWriteOneBlock(k, Zeros(bs));
        if r.Err? {
          return;
        }
        k := k + 1;
      }
    }

    /**
     * Fill the gap between the old and the new size with zeros: complete the last block, write the
     * zero blocks between (unless holes are allowed) and, if forced, the partial block at the end.
     * The file grows to `n`, which reaches the new size exactly when the last step was forced.
     */
    method PadFile(oldSize: nat, newSize: nat, forceWrite: bool) returns (r: Outcome<()>, ghost n: nat)
      requires Valid() && !reverse && oldSize == |Contents()| < newSize
      modifies Repr()
      ensures Core() && KeptKeys()
      ensures old(Steady() && (!forceWrite || Paired())) ==> r.Ok? && Steady()
      ensures r.Ok? && (n != oldSize || old(Paired())) ==> Paired()
      ensures r.Err? ==> cacheData == [] && (base == null ==> Valid())
      ensures r.Ok? ==> Valid() && oldSize <= n <= newSize && Contents() == Resize(old(Contents()), n)
      ensures r.Ok? && forceWrite && (!allowHoles || PosIn(newSize, bs) != 0) ==> n == newSize
      ensures r.Ok? ==> Start(BlockOf(newSize, bs), bs) <= n || (allowHoles && PosIn(n, bs) == 0)
      ensures r.Ok? && allowHoles && PosIn(oldSize, bs) == 0 && PosIn(newSize, bs) == 0 ==> n == oldSize
      ensures r.Ok? && !forceWrite ==> n == oldSize || n <= Start(BlockOf(newSize, bs), bs)
      ensures r.Ok? && n == oldSize ==>
        SameFile() && SameCache() && (old(Tight()) ==> Tight())
      ensures r.Ok? && n != oldSize ==> Tight()
      ensures r.Ok? && old(Sealed()) ==> Sealed()
      ensures old(Stored()) ==> Stored()
      decreases Rank(), 6
    {
      hide Unblock, Intact, Coherent, HeaderIV, Start, Slice, Splice, MacFormat, CipherFormat, PosIn, BlockOf, Resize,
        Store, Contents, Valid, Core, HeaderOk, Tight, Sealed, CurrentIV, Fmt, Wired;
      StartDiv(oldSize, bs);
      StartDiv(newSize, bs);
      var oldLastBlock: nat := oldSize / bs;
      var newLastBlock: nat := newSize / bs;
      ghost var c := Contents();
      ResizeSame(c);
      n := oldSize;
      r := Ok(());
      if oldLastBlock == newLastBlock {
        if forceWrite {
          r := PadBlock(oldLastBlock, oldSize % bs, newSize % bs);
          n := newSize;
        }
        return;
      }
      PadBetween(oldSize, newSize, bs);
      if oldSize % bs != 0 {
        r := PadBlock(oldLastBlock, oldSize % bs, bs);
        if r.Err? {
          return;
        }
        StartNext(oldLastBlock, bs);
        oldLastBlock := oldLastBlock + 1;
        n := Start(oldLastBlock, bs);
      }
      ResizeLen(c, n);
      DivUnique(n, bs, oldLastBlock, 0);
      StartMono(oldLastBlock, newLastBlock, bs);
      if !allowHoles {
        r := PadZeroBlocks(oldLastBlock, newLastBlock);
        if r.Err? {
          return;
        }
        ResizeResize(c, n, Start(newLastBlock, bs));
        n := Start(newLastBlock, bs);
        ResizeLen(c, n);
      }
      if forceWrite && newSize % bs != 0 {
        SpliceZeros(Contents(), Start(newLastBlock, bs), newSize % bs);
        ResizeResize(c, n, newSize);
        assert Covers(newLastBlock, newSize % bs);
        ghost var e;
        r, e := CacheWriteOneBlock(newLastBlock, Zeros(newSize % bs));
        n := newSize;
      }
    }

    /** Write a piece that lies within block `k`, merging it with what the block holds. */
    method MergeWrite(k: nat, p: nat, piece: seq<Byte>, fileSize: nat, lastNonEmptyBlock: int) returns (r: Outcome<()>)
      requires Valid() && !reverse && piece != [] && p + |piece| <= bs
      requires fileSize <= |Contents()| && (|Contents()| == fileSize || |Contents()| <= Start(k, bs))
      requires k > lastNonEmptyBlock <==> fileSize <= Start(k, bs)
      requires Start(k, bs) <= |Contents()| || (allowHoles && PosIn(|Contents()|, bs) == 0)
      modifies Repr()
      ensures Core() && KeptKeys()
      ensures old(Steady()) ==> r.Ok? && Steady()
      ensures r.Err? ==> cacheData == [] && (base == null ==> Valid())
      ensures r.Ok? ==> Valid() && Contents() == Splice(old(Contents()), Start(k, bs) + p, piece) && Tight()
      ensures r.Ok? ==> cacheData != [] && cacheBlock == k && Paired()
      ensures r.Ok? && old(Sealed()) ==> Sealed()
      ensures old(Stored()) ==> Stored()
      decreases Rank(), 5
    {
      hide Unblock, Intact, Coherent, HeaderIV, Start, Slice, Splice, MacFormat, CipherFormat, PosIn, BlockOf, Resize,
        Store, Contents, Valid, Core, HeaderOk, Tight, Sealed, CurrentIV, Fmt, Wired;
      ghost var c, i := Contents(), Start(k, bs);
      MergeBlock(c, i, bs, p, piece);
      SliceFit(c, i, bs);
      var buf: seq<Byte>;
      if |piece| == bs || (p == 0 && Start(k, bs) + |piece| >= fileSize) {
        buf := piece;
        SpliceWhole(Slice(c, i, bs), piece);
      } else if k > lastNonEmptyBlock {
        buf := Zeros(p) + piece;
        SpliceZeroFill(p, piece);
      } else {
        var found := CacheReadOneBlock(k, bs);
        if found.Err? {
          return Err;
        }
        buf := Splice(found.value, p, piece);
      }
      assert buf == Splice(Slice(c, i, bs), p, piece);
      assert Covers(k, |buf|);
      ghost var e;
      r, e := CacheWriteOneBlock(k, buf);
    }

    /**
     * Write any number of bytes at any offset: pad a gap first, then replace or merge block by
     * block. The decisions use the file size from before the call, as the program's do.
     */
    method Write(off: nat, data: seq<Byte>) returns (r: Outcome<()>)
      requires Valid() && !reverse && data != []
      modifies Repr()
      ensures Core() && KeptKeys()
      ensures old(Steady()) ==> r.Ok? && Steady()
      ensures r.Err? ==> cacheData == [] || (Valid() && SameFile() && SameCache())
      ensures r.Err? && base == null ==> Valid()
      ensures r.Err? ==> (Valid() <==> Authentic())
      ensures r.Ok? ==> Valid() && Contents() == Splice(old(Contents()), off, data) && Tight()
      ensures r.Ok? ==> cacheData != [] && cacheBlock == BlockOf(off + |data| - 1, bs) && Paired()
      ensures r.Ok? ==> |Store()| == LocWithHeader(|Contents()|, Fmt().Stride(), Fmt().hs)
      ensures r.Ok? && old(Sealed()) ==> Sealed()
      ensures old(Stored()) ==> Stored()
      decreases Rank(), 7
    {
      hide Unblock, Intact, Coherent, HeaderIV, Start, Slice, Splice, MacFormat, CipherFormat, PosIn, BlockOf, Resize,
        Store, Contents, Valid, Core, HeaderOk, Tight, Sealed, CurrentIV, Fmt, Wired, LocWithHeader;
      var size := GetSize();
      if size.Err? {
        Consistency();
        return Err;
      }
      var fileSize := size.value;
      StartDiv(off, bs);
      StartDiv(fileSize, bs);
      var blockNum: nat := off / bs;
      var partialOffset: nat := off % bs;
      var lastFileBlock: nat := fileSize / bs;
      var lastBlockSize: nat := fileSize % bs;
      var lastNonEmptyBlock: int := lastFileBlock;
      if lastBlockSize == 0 {
        lastNonEmptyBlock := lastNonEmptyBlock - 1;
      }
      ghost var c := Contents();
      ResizeSame(c);
      ghost var n := fileSize;
      if off > fileSize {
        r, n := PadFile(fileSize, off, false);
        if r.Err? {
          Consistency();
          return;
        }
      }
      ResizeLen(c, n);
      SpliceResize(c, n, off, data);
      if partialOffset == 0 && |data| <= bs {
        if |data| == bs || (blockNum == lastFileBlock && |data| >= lastBlockSize) {
          assert Covers(blockNum, |data|);
          DivUnique(off + |data| - 1, bs, blockNum, |data| - 1);
          ghost var e;
          r, e := CacheWriteOneBlock(blockNum, data);
          Consistency();
          if r.Ok? {
            SizesMatch();
          }
          return;
        }
      }
      r := WriteBlocks(off, data, blockNum, partialOffset, fileSize, lastNonEmptyBlock);
      Consistency();
      if r.Ok? {
        SizesMatch();
      }
    }

    /** The block loop of a write. */
    method WriteBlocks(off: nat, data: seq<Byte>, firstBlock: nat, firstOffset: nat, fileSize: nat,
                       lastNonEmptyBlock: int)
      returns (r: Outcome<()>)
      requires Valid() && !reverse && data != []
      requires Start(firstBlock, bs) + firstOffset == off && firstOffset < bs
      requires fileSize <= |Contents()| && (|Contents()| == fileSize || |Contents()| <= Start(firstBlock, bs))
      requires lastNonEmptyBlock ==
        if PosIn(fileSize, bs) == 0 then BlockOf(fileSize, bs) - 1 else BlockOf(fileSize, bs)
      requires Start(firstBlock, bs) <= |Contents()| || (allowHoles && PosIn(|Contents()|, bs) == 0)
      modifies Repr()
      ensures Core() && KeptKeys()
      ensures old(Steady()) ==> r.Ok? && Steady()
      ensures r.Err? ==> cacheData == [] && (base == null ==> Valid())
      ensures r.Ok? ==> Valid() && Contents() == Splice(old(Contents()), off, data) && Tight()
      ensures r.Ok? ==> cacheData != [] && cacheBlock == BlockOf(off + |data| - 1, bs) && Paired()
      ensures r.Ok? && old(Sealed()) ==> Sealed()
      ensures old(Stored()) ==> Stored()
      decreases Rank(), 6
    {
      hide Unblock, Intact, Coherent, HeaderIV, Start, Slice, Splice, MacFormat, CipherFormat, PosIn, BlockOf, Resize,
        Store, Contents, Valid, Core, HeaderOk, Tight, Sealed, CurrentIV, Fmt, Wired;
      ghost var c := Contents();
      SpliceNothing(c, off);
      var blockNum: nat, partialOffset: nat := firstBlock, firstOffset;
      var done := 0;
      r := Ok(());
      while done != |data|
        invariant done <= |data| && r.Ok? && KeptKeys()
        invariant Valid() && Contents() == Splice(c, off, data[..done])
        invariant done != |data| ==> Start(blockNum, bs) + partialOffset == off + done && partialOffset < bs
        invariant fileSize <= |Contents()|
        invariant done != |data| ==> |Contents()| == fileSize || |Contents()| <= Start(blockNum, bs)
        invariant done != |data| ==> Start(blockNum, bs) <= |Contents()| || (allowHoles && PosIn(|Contents()|, bs) == 0)
        invariant old(Steady()) ==> Steady()
        invariant old(Sealed()) ==> Sealed()
        invariant old(Stored()) ==> Stored()
        invariant 0 < done ==> Tight() && Paired() && cacheData != [] && cacheBlock == BlockOf(off + done - 1, bs)
        decreases |data| - done
      {
        var toCopy := Min(bs - partialOffset, |data| - done);
        var piece := data[done..done + toCopy];
        LastNonEmpty(fileSize, bs, blockNum);
        ghost var before := Contents();
        r := MergeWrite(blockNum, partialOffset, piece, fileSize, lastNonEmptyBlock);
        if r.Err? {
          return;
        }
        WriteStep(c, off, data, done, toCopy, blockNum, partialOffset, bs, before, Contents(), fileSize);
        done := done + toCopy;
        blockNum := blockNum + 1;
        partialOffset := 0;
      }
      assert data[..done] == data;
    }

    // ---------------------------------------------------------------- truncating

    /**
     * The part of a truncate that re-encodes blocks, before the layer below is cut or extended:
     * grow by padding to `n`, rewrite the block that becomes partial as `e`, or do nothing.
     */
    method TruncateBase(size: nat) returns (r: Outcome<()>, ghost n: nat, ghost e: seq<Byte>)
      requires Valid() && !reverse
      modifies Repr()
      ensures Core() && KeptKeys()
      ensures old(Steady() && Paired()) ==> r.Ok? && Steady()
      ensures r.Ok? && old(Paired()) ==> Paired()
      ensures r.Ok? && old(Sealed()) ==> Sealed()
      ensures old(Stored()) ==> Stored()
      ensures r.Ok? && (|old(Contents())| <= size || PosIn(size, bs) == 0) ==>
        Valid() && (n == |old(Contents())| ==>
          SameFile() && SameCache() && (old(Tight()) ==> Tight()))
      ensures r.Ok? && |old(Contents())| <= size ==>
        && |old(Contents())| <= n <= size && Contents() == Resize(old(Contents()), n)
        && (n == size || (allowHoles && PosIn(n, bs) == 0 && PosIn(size, bs) == 0))
        && (n != |old(Contents())| ==> Tight())
        && (allowHoles && PosIn(|old(Contents())|, bs) == 0 && PosIn(size, bs) == 0 ==> n == |old(Contents())|)
      ensures r.Ok? && size < |old(Contents())| && PosIn(size, bs) == 0 ==> n == |old(Contents())|
      ensures r.Ok? && size < |old(Contents())| && PosIn(size, bs) != 0 ==>
        var k := BlockOf(size, bs);
        && Fmt() == old(Fmt()) && Store() == Splice(old(Store()), Start(k, Fmt().Stride()), e)
        && cacheBlock == k && cacheData == Slice(old(Contents()), Start(k, bs), PosIn(size, bs))
        && Fmt().Encodes(k, e, cacheData)
        && (base != null ==> base.cacheData != [] && base.cacheBlock == k && base.Tight())
      decreases Rank(), 7
    {
      hide Unblock, Intact, Coherent, HeaderIV, Start, Slice, Splice, MacFormat, CipherFormat, PosIn, BlockOf, Resize,
        Store, Contents, Valid, Core, HeaderOk, Tight, Sealed, CurrentIV, Fmt, Wired;
      n, e := 0, [];
      var oldSize := GetSize();
      if oldSize.Err? {
        return Err, n, e;
      }
      ghost var c := Contents();
      n := |c|;
      ResizeSame(c);
      StartDiv(size, bs);
      var partialBlock: nat := size % bs;
      if size > oldSize.value {
        r, n := PadFile(oldSize.value, size, true);
        if r.Ok? {
          ResizeLen(c, n);
          PadGap(n, size, bs);
        }
      } else if size == oldSize.value {
        r := Ok(());
      } else if partialBlock != 0 {
        var k: nat := size / bs;
        var found := CacheReadOneBlock(k, bs);
        if found.Err? {
          return Err, n, e;
        }
        SliceFit(c, Start(k, bs), bs);
        SliceSlice(c, Start(k, bs), bs, 0, partialBlock);
        SlicePrefix(found.value, partialBlock);
        SliceFit(c, Start(k, bs), partialBlock);
        StoreNonempty();
        r, e := CacheWriteOneBlock(k, found.value[..partialBlock]);
      } else {
        r := Ok(());
      }
    }

    lemma StoreNonempty()
      requires Valid() && Contents() != []
      ensures Store() != []
    {
      FormatLawful();
      UnblockEmpty(Fmt(), 0);
    }

    /** Would growing to this size bring a stale block of some layer below the end of its file? */
    ghost predicate Stale(size: nat)
      requires Wired()
      reads Repr()
      decreases Rank(), 4
    {
      || StaleBlock(|Contents()|, size, bs, allowHoles, noCache, cacheBlock, cacheData)
      || (base != null && base.Stale(LocWithHeader(size, bs + macBytes + randBytes, macBytes + randBytes)))
    }

    /** Make sure the header exists and its IV is in memory; needs a file that is, or can be, open for writing. */
    method PrepareHeader() returns (r: Outcome<()>)
      requires base == null && Valid() && !reverse
      modifies Repr()
      ensures Core() && SameCache() && KeptKeys()
      ensures raw.healthy ==> r.Ok?
      ensures r.Ok? ==> fileIV != 0 && Valid() && Contents() == old(Contents())
      ensures r.Ok? && HEADER_SIZE <= old(|raw.bytes|) ==> fileIV == old(CurrentIV())
      ensures r.Ok? && old(Tight()) ==> Tight()
      ensures r.Ok? && raw.healthy ==> old(Steady()) ==> Steady()
      ensures r.Ok? && (old(Sealed()) || old(fileIV) == 0) ==> Sealed()
      ensures old(Stored()) ==> Stored()
      ensures r.Err? && HEADER_SIZE <= old(|raw.bytes|) ==> Valid() && SameFile()
    {
      hide Unblock, Intact, Coherent, HeaderIV, Start, Slice, CipherFormat;
      BaseApart();
      FormatLawful();
      r := Ok(());
      if fileIV == 0 {
        if raw.readOnly {
          return Err;
        }
        r := InitHeader();
        if HEADER_SIZE <= old(|raw.bytes|) {
          Kept();
        }
        if r.Ok? {
          if HEADER_SIZE > old(|raw.bytes|) {
            FormatLawful();
            UnblockEmpty(Fmt(), 0);
            UnblockEmpty(old(Fmt()), 0);
            assert Store() == [] && old(Store()) == [];
          }
        }
      }
    }

    /** The final cut or extension of the layer below completes a truncate of the flat file. */
    lemma Completed(size: nat, f: Format, s: seq<Byte>, c: seq<Byte>, pre: seq<Byte>, n: nat, e: seq<Byte>)
      requires Wired() && Fmt() == f && c == Unblock(f, s, 0) && Intact(f, s, 0)
      requires Store() == Resize(pre, LocWithHeader(size, f.Stride(), f.hs))
      requires size < |c| && PosIn(size, bs) == 0 ==> pre == s
      requires size < |c| && PosIn(size, bs) != 0 ==>
        var k := BlockOf(size, bs);
        && pre == Splice(s, Start(k, f.Stride()), e)
        && f.Encodes(k, e, Slice(c, Start(k, bs), PosIn(size, bs)))
      requires |c| <= size ==>
        && Intact(f, pre, 0) && Unblock(f, pre, 0) == Resize(c, n) && |c| <= n <= size
        && (n == size || (allowHoles && PosIn(n, bs) == 0 && PosIn(size, bs) == 0))
      requires !reverse
      ensures Intact(Fmt(), Store(), 0) && Contents() == Resize(c, size)
    {
      hide Unblock, Intact, Coherent, HeaderIV, Start, Slice, Splice, MacFormat, CipherFormat, PosIn, BlockOf, Resize,
        LocWithHeader;
      FormatLawful();
      if size < |c| {
        if PosIn(size, bs) == 0 {
          ShrinkAligned(f, s, size);
        } else {
          ShrinkInside(f, s, size, e);
        }
      } else {
        ResizeLen(c, n);
        GrowTo(f, pre, size);
        ResizeResize(c, n, size);
      }
    }

    /** Truncate through the IV header. */
    method CipherTruncate(size: nat) returns (r: Outcome<()>)
      requires base == null && Valid() && !reverse
      modifies Repr()
      ensures Core() && KeptKeys()
      ensures old(Steady()) ==> r.Ok? && Steady()
      ensures r.Ok? ==> Intact(Fmt(), Store(), 0) && Contents() == Resize(old(Contents()), size)
      ensures r.Ok? ==> (Valid() <==> !old(Stale(size)))
      ensures r.Ok? && old(Sealed()) ==> Sealed()
      ensures old(Stored()) ==> Stored()
      ensures r.Ok? && (size == |old(Contents())| || (PosIn(size, bs) == 0 && size < |old(Contents())|)) ==> SameCache()
      ensures r.Ok? && PosIn(size, bs) == 0 && allowHoles && PosIn(|old(Contents())|, bs) == 0 ==> SameCache()
      ensures r.Ok? && size < |old(Contents())| && PosIn(size, bs) != 0 ==> cacheBlock == BlockOf(size, bs)
      ensures r.Ok? && old(Tight()) && (|old(Contents())| <= size || PosIn(size, bs) != 0) ==> Tight()
      decreases Rank(), 8
    {
      hide Unblock, Intact, Coherent, HeaderIV, Start, Slice, Splice, MacFormat, CipherFormat, PosIn, BlockOf, Resize,
        LocWithHeader, StaleBlock, Drop;
      r := PrepareHeader();
      if r.Err? {
        return;
      }
      FormatLawful();
      ghost var f, s, c := Fmt(), Store(), Contents();
      ghost var n, e;
      r, n, e := TruncateBase(size);
      if r.Err? {
        return;
      }
      ResizeSame(c);
      ResizeLen(c, n);
      r := CutRaw(size, f, s, c, n, e, old(cacheBlock), old(cacheData));
    }

    /** What `TruncateBase` leaves behind, on its way to contents `c` resized to `size`. */
    ghost predicate Rewritten(size: nat, f: Format, s: seq<Byte>, c: seq<Byte>, n: nat, e: seq<Byte>, oldBlock: nat,
                              oldData: seq<Byte>)
      requires Wired()
      reads Repr()
    {
      if size < |c| && PosIn(size, bs) != 0 then
        var k := BlockOf(size, bs);
        && cacheBlock == k && cacheData == Slice(c, Start(k, bs), PosIn(size, bs))
        && Store() == Splice(s, Start(k, f.Stride()), e) && f.Encodes(k, e, cacheData)
        && (base != null ==> base.cacheData != [] && base.cacheBlock == k && base.Tight())
      else
        && Valid() && Contents() == Resize(c, n)
        && (if size < |c| then n == |c| && Store() == s
            else |c| <= n <= size && (n == size || (allowHoles && PosIn(n, bs) == 0 && PosIn(size, bs) == 0)))
        && (n == |c| ==> cacheBlock == oldBlock && cacheData == oldData)
        && (n != |c| ==> Tight())
        && (|c| <= size && allowHoles && PosIn(|c|, bs) == 0 && PosIn(size, bs) == 0 ==> n == |c|)
    }

    /** The cipher layer's last step: give the raw file its final length. */
    method CutRaw(size: nat, ghost f: Format, ghost s: seq<Byte>, ghost c: seq<Byte>, ghost n: nat,
                  ghost e: seq<Byte>, ghost oldBlock: nat, ghost oldData: seq<Byte>)
      returns (r: Outcome<()>)
      requires base == null && Core() && !reverse && fileIV != 0 && Fmt() == f
      requires c == Unblock(f, s, 0) && Intact(f, s, 0)
      requires Rewritten(size, f, s, c, n, e, oldBlock, oldData)
      modifies Repr()
      ensures Core() && KeptKeys() && SameCache()
      ensures raw.healthy ==> r.Ok? && Steady()
      ensures r.Ok? && old(Sealed()) ==> Sealed()
      ensures old(Stored()) ==> Stored()
      ensures r.Ok? ==> Intact(Fmt(), Store(), 0) && Contents() == Resize(c, size)
      ensures r.Ok? ==> (Valid() <==> !StaleBlock(|c|, size, bs, allowHoles, noCache, oldBlock, oldData))
      ensures r.Ok? && ((old(Tight()) && |c| <= size) || (size < |c| && PosIn(size, bs) != 0)) ==> Tight()
    {
      hide Unblock, Intact, Coherent, HeaderIV, Start, Slice, Splice, MacFormat, CipherFormat, PosIn, BlockOf, Resize,
        LocWithHeader, StaleBlock, Drop;
      FormatLawful();
      BaseApart();
      ghost var pre, b := Store(), raw.bytes;
      ResizeSame(c);
      ResizeLen(c, n);
      ResizeLen(c, size);
      r := raw.Truncate(size + HEADER_SIZE);
      if r.Ok? {
        DropResize(b, HEADER_SIZE, size);
        LocTrivial2(size, bs);
        HeaderKept(b, size + HEADER_SIZE);
        Completed(size, f, s, c, pre, n, e);
        Settled(size, c, n, oldBlock, oldData);
      }
    }

    /** Whether the cache still agrees with the file after a truncate. */
    lemma Settled(size: nat, c: seq<Byte>, n: nat, oldBlock: nat, oldData: seq<Byte>)
      requires Core() && Linked() && Intact(Fmt(), Store(), 0) && Contents() == Resize(c, size)
      requires if size < |c| && PosIn(size, bs) != 0 then
          cacheBlock == BlockOf(size, bs) && cacheData == Slice(c, Start(BlockOf(size, bs), bs), PosIn(size, bs))
        else
          && Coherent(Resize(c, n), bs, noCache, cacheBlock, cacheData)
          && (if size < |c| then n == |c|
              else |c| <= n <= size && (n == size || (allowHoles && PosIn(n, bs) == 0 && PosIn(size, bs) == 0)))
          && (n == |c| ==> cacheBlock == oldBlock && cacheData == oldData)
          && (n != |c| ==> noCache || cacheData == [] || Start(cacheBlock, bs) < n)
          && (|c| <= size && allowHoles && PosIn(|c|, bs) == 0 && PosIn(size, bs) == 0 ==> n == |c|)
      ensures Valid() <==> !StaleBlock(|c|, size, bs, allowHoles, noCache, oldBlock, oldData)
      ensures size < |c| && PosIn(size, bs) != 0 ==> Start(cacheBlock, bs) < |Contents()|
    {
      hide Unblock, Intact, HeaderIV, Start, Slice, Splice, MacFormat, CipherFormat, PosIn, BlockOf, Resize, Fmt, Store;
      ResizeLen(c, size);
      if size < |c| && PosIn(size, bs) != 0 {
        StartDiv(size, bs);
        SliceCutTail(c, Start(BlockOf(size, bs), bs), PosIn(size, bs), bs);
      } else {
        TruncateCoherent(c, size, n, bs, allowHoles, noCache, oldBlock, oldData, cacheBlock, cacheData);
      }
    }

    lemma HeaderKept(b: seq<Byte>, m: nat)
      requires base == null && HEADER_SIZE <= m && raw.bytes == Resize(b, m)
      ensures HEADER_SIZE <= |raw.bytes|
      ensures HEADER_SIZE <= |b| ==> HeaderIV(cipher, externalIV, b) == HeaderIV(cipher, externalIV, raw.bytes)
    {
      if HEADER_SIZE <= |b| {
        assert b[..HEADER_SIZE] == raw.bytes[..HEADER_SIZE];
      }
    }

    /** Truncate through the MAC headers. */
    method MacTruncate(size: nat) returns (r: Outcome<()>)
      requires base != null && Valid() && !reverse
      modifies Repr()
      ensures old(Steady() && Paired()) ==> r.Ok? && Steady()
      ensures r.Ok? && old(Paired()) ==> Paired()
      ensures r.Ok? ==> Intact(Fmt(), Store(), 0) && Contents() == Resize(old(Contents()), size)
      ensures r.Ok? ==> (Valid() <==> !old(Stale(size)))
      ensures r.Ok? && old(Sealed()) ==> Sealed()
      ensures old(Stored()) ==> Stored()
      ensures r.Ok? && (size == |old(Contents())| || (PosIn(size, bs) == 0 && size < |old(Contents())|)) ==> SameCache()
      ensures r.Ok? && PosIn(size, bs) == 0 && allowHoles && PosIn(|old(Contents())|, bs) == 0 ==> SameCache()
      ensures r.Ok? && size < |old(Contents())| && PosIn(size, bs) != 0 ==> cacheBlock == BlockOf(size, bs)
      ensures r.Ok? && old(Tight()) && (|old(Contents())| <= size || PosIn(size, bs) != 0) ==> Tight()
      decreases Rank(), 8
    {
      hide Unblock, Intact, Coherent, HeaderIV, Start, Slice, Splice, MacFormat, CipherFormat, PosIn, BlockOf, Resize,
        LocWithHeader, StaleBlock, Drop;
      FormatLawful();
      ghost var f, s, c := Fmt(), Store(), Contents();
      ghost var stale := base.Stale(LocWithHeader(size, bs + macBytes + randBytes, macBytes + randBytes));
      if stale {
        StaleBelow(size);
      }
      ghost var n, e;
      r, n, e := TruncateBase(size);
      if r.Err? {
        return;
      }
      ResizeSame(c);
      ResizeLen(c, n);
      r := CutBase(size, f, s, c, n, e, old(cacheBlock), old(cacheData), stale);
    }

    /** A block of the base comes back below the end only when this layer grows between boundaries too. */
    lemma StaleBelow(size: nat)
      requires base != null && Valid()
      requires base.Stale(LocWithHeader(size, bs + macBytes + randBytes, macBytes + randBytes))
      ensures allowHoles && PosIn(|Contents()|, bs) == 0 && PosIn(size, bs) == 0 && |Contents()| < size
    {
      hide Unblock, Intact, Coherent, MacFormat, CipherFormat, HeaderIV, Start, LocWithHeader, LocWithoutHeader,
        PosIn, BlockOf, Store, Contents;
      var hs, len := macBytes + randBytes, |Contents()|;
      FormatLawful();
      SizeFormula(Fmt(), Store());
      assert len == |Unblock(Fmt(), Store(), 0)| by {
        ContentsAre();
      }
      StoreBelow();
      LocAligned(len, bs, hs);
      LocAligned(size, bs, hs);
      if size <= len {
        LocMono(size, len, bs, hs);
      }
    }

    lemma ContentsAre()
      requires Wired()
      ensures Contents() == Unblock(Fmt(), Store(), 0)
    {
    }

    lemma StoreBelow()
      requires Wired() && base != null
      ensures Store() == base.Contents()
    {
    }

    /** Only the case where nothing was written can leave a stale block in the base's cache. */
    lemma BaseFresh(size: nat, f: Format, s: seq<Byte>, c: seq<Byte>, n: nat, e: seq<Byte>, oldBlock: nat,
                    oldData: seq<Byte>)
      requires base != null && Core() && Fmt() == f && c == Unblock(f, s, 0) && Intact(f, s, 0)
      requires Rewritten(size, f, s, c, n, e, oldBlock, oldData)
      ensures var loc := LocWithHeader(size, f.Stride(), f.hs); var k := BlockOf(size, bs);
        && (size < |c| ==> loc <= |Store()|)
        && (|c| <= size == n ==> loc == |Store()|)
        && (size < |c| && PosIn(size, bs) != 0 ==> BlockOf(loc, base.bs) == k && PosIn(loc, base.bs) != 0)
        && (PosIn(size, bs) == 0 ==> PosIn(loc, base.bs) == 0)
        && (|c| <= size && n < size ==> |Store()| <= loc && PosIn(|Store()|, base.bs) == 0)
    {
      hide Unblock, Intact, Coherent, HeaderIV, Start, Slice, Splice, MacFormat, CipherFormat, PosIn, BlockOf, Resize,
        LocWithHeader, StoredLen, LocWithoutHeader;
      FormatLawful();
      LocOfSize(f, size);
      var k, r, w := BlockOf(size, bs), PosIn(size, bs), f.Stride();
      DivUnique(LocWithHeader(size, w, f.hs), w, k, if r == 0 then 0 else f.hs + r);
      if size < |c| {
        if r == 0 {
          CutAligned(f, s, k);
        } else {
          SliceFit(c, Start(k, bs), r);
          SpliceAt(s, Start(k, w), e, 0);
        }
      } else {
        ResizeLen(c, n);
        SizeFormula(f, Store());
        if n < size {
          LocOfSize(f, n);
          var m := BlockOf(n, bs);
          DivUnique(|Store()|, w, m, 0);
          StartBelow(m, k, 0, bs);
          StartMono(m, k, w);
        }
      }
    }

    /** The MAC layer's last step: give the cipher layer its final length. */
    method CutBase(size: nat, ghost f: Format, ghost s: seq<Byte>, ghost c: seq<Byte>, ghost n: nat,
                   ghost e: seq<Byte>, ghost oldBlock: nat, ghost oldData: seq<Byte>, ghost stale: bool)
      returns (r: Outcome<()>)
      requires base != null && Core() && Fmt() == f
      requires c == Unblock(f, s, 0) && Intact(f, s, 0)
      requires Rewritten(size, f, s, c, n, e, oldBlock, oldData)
      requires n == |c| < size ==> (stale <==> base.Stale(LocWithHeader(size, f.Stride(), f.hs)))
      requires stale ==> n == |c| < size
      modifies Repr()
      ensures old(Steady()) ==> r.Ok? && Steady()
      ensures r.Ok? && old(Sealed()) ==> Sealed()
      ensures old(Stored()) ==> Stored()
      ensures r.Ok? ==> Intact(Fmt(), Store(), 0) && Contents() == Resize(c, size)
      ensures r.Ok? ==> (Valid() <==> !stale && !StaleBlock(|c|, size, bs, allowHoles, noCache, oldBlock, oldData))
      ensures r.Ok? && ((old(Tight()) && |c| <= size) || (size < |c| && PosIn(size, bs) != 0)) ==> Tight()
      ensures r.Ok? && (size == |c| || PosIn(size, bs) == 0) ==> SameCache()
      ensures r.Ok? ==> cacheBlock == old(cacheBlock)
      ensures r.Ok? && old(Paired()) ==> Paired()
      decreases Rank(), 7
    {
      hide Unblock, Intact, Coherent, HeaderIV, Start, Slice, Splice, MacFormat, CipherFormat, PosIn, BlockOf, Resize,
        LocWithHeader, StaleBlock, Drop;
      FormatLawful();
      BaseApart();
      var headerSize := macBytes + randBytes;
      var loc := LocWithHeader(size, bs + headerSize, headerSize);
      ghost var pre := Store();
      ResizeSame(c);
      ResizeLen(c, n);
      ResizeLen(c, size);
      BaseFresh(size, f, s, c, n, e, oldBlock, oldData);
      StartDiv(size, bs);
      if loc <= |pre| || base.Tight() {
        NotStale(|pre|, loc, base.bs, allowHoles, noCache, base.cacheBlock, base.cacheData);
      }
      r := base.Truncate(loc);
      if r.Ok? {
        Completed(size, f, s, c, pre, n, e);
        if Core() {
          Settled(size, c, n, oldBlock, oldData);
        }
      }
    }

    method Truncate(size: nat) returns (r: Outcome<()>)
      requires Valid() && !reverse
      modifies Repr()
      ensures old(Steady() && Paired()) ==> r.Ok? && Steady()
      ensures r.Ok? && old(Paired()) ==> Paired()
      ensures r.Ok? ==> Intact(Fmt(), Store(), 0) && Contents() == Resize(old(Contents()), size)
      ensures r.Ok? ==> |Store()| == LocWithHeader(size, Fmt().Stride(), Fmt().hs)
      ensures r.Ok? ==> (Valid() <==> !old(Stale(size)))
      ensures r.Ok? && old(Sealed()) ==> Sealed()
      ensures old(Stored()) ==> Stored()
      ensures r.Ok? && (size == |old(Contents())| || (PosIn(size, bs) == 0 && size < |old(Contents())|)) ==> SameCache()
      ensures r.Ok? && PosIn(size, bs) == 0 && allowHoles && PosIn(|old(Contents())|, bs) == 0 ==> SameCache()
      ensures r.Ok? && size < |old(Contents())| && PosIn(size, bs) != 0 ==> cacheBlock == BlockOf(size, bs)
      ensures r.Ok? && old(Tight()) && (|old(Contents())| <= size || PosIn(size, bs) != 0) ==> Tight()
      decreases Rank(), 9
    {
      hide Unblock, Intact, Coherent, HeaderIV, Start, Slice, Splice, PosIn, BlockOf, Resize, LocWithHeader,
        StaleBlock, Contents, Store, Valid, Core, Tight, Sealed, Fmt;
      if base == null {
        r := CipherTruncate(size);
      } else {
        r := MacTruncate(size);
      }
      if r.Ok? {
        ResizeLen(old(Contents()), size);
        SizesMatch();
      }
    }

    // ---------------------------------------------------------------- re-keying

    /** Write the header for the file IV under the current external IV; the shifting leaves fileIV at zero. */
    method WriteHeader() returns (r: Outcome<()>, ghost n: nat)
      requires base == null && Wired() && raw.Valid()
      modifies this`fileIV, raw
      ensures raw.Valid() && fileIV == 0
      ensures raw.healthy ==> r.Ok?
      ensures r.Ok? ==> raw.bytes == Splice(old(raw.bytes), 0, HeaderBytes(cipher, externalIV, old(fileIV)))
      ensures r.Err? ==> n < HEADER_SIZE == |HeaderBytes(cipher, externalIV, old(fileIV))|
      ensures r.Err? ==> raw.bytes == Splice(old(raw.bytes), 0, HeaderBytes(cipher, externalIV, old(fileIV))[..n])
    {
      hide Splice, Pow2, ToBigEndian, HeaderIV, CipherFormat;
      var buf: seq<Byte> := [];
      WordBounds();
      for i := 0 to HEADER_SIZE
        invariant fileIV < Pow2(8 * (HEADER_SIZE - i))
        invariant ToBigEndian(fileIV, HEADER_SIZE - i) + buf == ToBigEndian(old(fileIV), HEADER_SIZE)
        invariant raw.Valid() && raw.bytes == old(raw.bytes)
      {
        ShiftByte(fileIV, HEADER_SIZE - i);
        buf := [fileIV % 256] + buf;
        fileIV := fileIV / 256;
      }
      HeaderRoundTrip(cipher, externalIV, old(fileIV), []);
      assert buf == ToBigEndian(old(fileIV), HEADER_SIZE);
      r, n := raw.Write(0, cipher.streamEncode(buf, externalIV));
    }

    /**
     * Tell the file its external IV. The first time this only records it; afterwards the header is
     * rewritten under the new IV, and the contents stay as they are. When that fails after `n` header
     * bytes, the IV in memory is gone: contents survive if no byte was written, or if the mixed header
     * still yields the old IV.
     */
    method SetIV(iv: Word64) returns (ok: bool, ghost n: nat)
      requires base == null && !reverse && Wired() && (externalIV != 0 ==> Valid())
      modifies this, raw
      ensures old(externalIV) == 0 ==>
        ok && externalIV == iv && raw.bytes == old(raw.bytes) && fileIV == old(fileIV) && SameCache()
      ensures old(externalIV) != 0 && raw.healthy ==> ok
      ensures old(externalIV) != 0 && ok ==>
        && externalIV == iv && fileIV == 0 && HEADER_SIZE <= |raw.bytes|
        && (HEADER_SIZE <= old(|raw.bytes|) ==> HeaderIV(cipher, iv, raw.bytes) == old(CurrentIV()))
        && Valid() && Sealed() && Contents() == old(Contents()) && SameCache() && (old(Tight()) ==> Tight())
      ensures old(externalIV) != 0 && !ok ==> externalIV == old(externalIV)
      ensures old(externalIV) != 0 && !ok && old(Stored()) && (n == 0 || CurrentIV() == old(CurrentIV())) ==>
        Valid() && Stored() && Contents() == old(Contents())
    {
      n := 0;
      if externalIV == 0 {
        externalIV := iv;
        return true, n;
      }
      hide *;
      if fileIV == 0 {
        var h := PrepareHeader();
        if h.Err? {
          return false, n;
        }
      }
      ok, n := Rekey(iv);
    }

    /** Rewrite the header of a file whose IV is in memory. */
    method Rekey(iv: Word64) returns (ok: bool, ghost n: nat)
      requires base == null && !reverse && Valid() && fileIV != 0
      modifies this, raw
      ensures raw.healthy ==> ok
      ensures ok ==>
        && externalIV == iv && fileIV == 0 && HEADER_SIZE <= |raw.bytes|
        && HeaderIV(cipher, iv, raw.bytes) == old(fileIV)
        && Valid() && Sealed() && Contents() == old(Contents()) && SameCache() && (old(Tight()) ==> Tight())
      ensures !ok ==> externalIV == old(externalIV) && fileIV == 0 && SameCache() && n < HEADER_SIZE
      ensures !ok ==> n <= |HeaderBytes(cipher, iv, old(fileIV))|
      ensures !ok ==> raw.bytes == Splice(old(raw.bytes), 0, HeaderBytes(cipher, iv, old(fileIV))[..n])
      ensures !ok && old(Stored()) && (n == 0 || CurrentIV() == old(fileIV)) ==>
        Valid() && Stored() && Contents() == old(Contents())
    {
      hide Unblock, Intact, Coherent, HeaderIV, HeaderBytes, Start, Slice, Splice, CipherFormat, Drop;
      ghost var b, v := raw.bytes, fileIV;
      var oldIV := externalIV;
      externalIV := iv;
      var w;
      w, n := WriteHeader();
      if w.Err? {
        externalIV := oldIV;
        if old(Stored()) {
          SpliceNothing(b, 0);
          SpliceFrontPart(b, HeaderBytes(cipher, iv, v), n);
          assert n == 0 ==> HeaderBytes(cipher, iv, v)[..n] == [] && raw.bytes == b;
          assert Store() == Drop(b, HEADER_SIZE);
        }
        return false, n;
      }
      HeaderRoundTrip(cipher, iv, v, Drop(b, HEADER_SIZE));
      SpliceFront(b, HeaderBytes(cipher, iv, v));
      assert Store() == Drop(b, HEADER_SIZE);
      return true, n;
    }
  }
}
