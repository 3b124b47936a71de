/**
 * Reverse mode with per-file IVs: a plaintext file is presented as the enciphered file it would
 * be stored as, an 8-byte header followed by enciphered blocks.
 */
module ReverseFiles {
  import opened Bytes
  import opened Arith
  import opened Ciphers
  import opened Blocks
  import opened Formats
  import opened BlockFiles

  /** The header bytes shown for a file whose inode hashes to `digest`. */
  function ReverseHeader(cipher: Cipher, externalIV: Word64, digest: seq<Byte>): seq<Byte> {
    cipher.streamEncode(digest, externalIV)
  }

  /** The file IV that the digest stands for. */
  function DigestIV(digest: seq<Byte>): Word64
    requires |digest| == HEADER_SIZE
  {
    BigEndianInverse(digest);
    Pow2Word();
    BigEndian(digest)
  }

  /** The enciphered file that a plaintext stands for. */
  function ReverseView(cipher: Cipher, bs: nat, holes: bool, externalIV: Word64, digest: seq<Byte>,
                       plain: seq<Byte>): seq<Byte>
    requires |digest| == HEADER_SIZE && 0 < bs
  {
    var body := Unblock(CipherFormat(cipher, bs, holes, true, DigestIV(digest)), plain, 0);
    ReverseHeader(cipher, externalIV, digest) + body
  }

  /** The header bytes the program hands out for a request that starts inside the header. */
  function HeaderPart(header: seq<Byte>, off: nat, len: nat): seq<Byte>
    requires |header| == HEADER_SIZE && off < HEADER_SIZE
  {
    header[HEADER_SIZE - Min(HEADER_SIZE - off, len)..]
  }

  /**
   * The header part is the right one exactly when the request reaches the end of the header (or
   * is empty): a request that stops inside it gets the header's tail instead.
   */
  lemma HeaderPartRight(off: nat, len: nat)
    requires off < HEADER_SIZE
    ensures
      (forall header: seq<Byte> | |header| == HEADER_SIZE :: HeaderPart(header, off, len) == Slice(header, off, len))
      <==> len == 0 || HEADER_SIZE <= off + len
  {
    hide HeaderPart, Slice;
    if len == 0 || HEADER_SIZE <= off + len {
      forall header: seq<Byte> | |header| == HEADER_SIZE
        ensures HeaderPart(header, off, len) == Slice(header, off, len)
      {
        WholePart(header, off, len);
      }
    } else {
      var header: seq<Byte> := [0, 1, 2, 3, 4, 5, 6, 7];
      InnerPart(header, off, len);
    }
  }

  lemma WholePart(header: seq<Byte>, off: nat, len: nat)
    requires |header| == HEADER_SIZE && off < HEADER_SIZE && (len == 0 || HEADER_SIZE <= off + len)
    ensures HeaderPart(header, off, len) == Slice(header, off, len)
  {
  }

  /** A request that stops inside the header gets bytes from further back. */
  lemma InnerPart(header: seq<Byte>, off: nat, len: nat)
    requires header == [0, 1, 2, 3, 4, 5, 6, 7] && 0 < len && off + len < HEADER_SIZE
    ensures HeaderPart(header, off, len) != Slice(header, off, len)
  {
    assert HeaderPart(header, off, len)[0] == HEADER_SIZE - len;
    assert Slice(header, off, len)[0] == off;
  }

  /** Two headerless formats that undo each other block by block undo each other on whole files. */
  lemma {:induction false} FormatsInverse(up: Format, down: Format, p: seq<Byte>, k: nat)
    requires up.bs == down.bs > 0 && up.hs == down.hs == 0
    requires forall j, d :: 0 < |d| <= up.bs ==> |up.dec(j, d)| == |d| && down.dec(j, up.dec(j, d)) == d
    ensures |Unblock(up, p, k)| == |p| && Unblock(down, Unblock(up, p, k), k) == p
    decreases |p|
  {
    if p != [] {
      var n := Min(up.bs, |p|);
      var c, rest := up.dec(k, p[..n]), Unblock(up, p[n..], k + 1);
      FormatsInverse(up, down, p[n..], k + 1);
      assert |c| == n && down.dec(k, c) == p[..n];
      assert Unblock(up, p, k) == c + rest && Min(up.bs, |c + rest|) == n;
      assert (c + rest)[..n] == c && (c + rest)[n..] == rest;
    }
  }

  /** Enciphering a plaintext block by block and reading the result in normal mode is the identity. */
  lemma ViewBody(cipher: Cipher, bs: nat, holes: bool, fileIV: Word64, p: seq<Byte>)
    requires CipherOk(cipher, bs, holes)
    ensures var up := CipherFormat(cipher, bs, holes, true, fileIV);
      var down := CipherFormat(cipher, bs, holes, false, fileIV);
      |Unblock(up, p, 0)| == |p| && Unblock(down, Unblock(up, p, 0), 0) == p
  {
    hide Unblock, DecodeBlock;
    var up, down := CipherFormat(cipher, bs, holes, true, fileIV), CipherFormat(cipher, bs, holes, false, fileIV);
    forall j, d | 0 < |d| <= bs ensures |up.dec(j, d)| == |d| && down.dec(j, up.dec(j, d)) == d {
      BlockThere(cipher, bs, holes, fileIV, j, d);
    }
    FormatsInverse(up, down, p, 0);
  }

  lemma BlockThere(cipher: Cipher, bs: nat, holes: bool, fileIV: Word64, k: nat, d: seq<Byte>)
    requires CipherOk(cipher, bs, holes) && 0 < |d| <= bs
    ensures var up := CipherFormat(cipher, bs, holes, true, fileIV);
      var down := CipherFormat(cipher, bs, holes, false, fileIV);
      |up.dec(k, d)| == |d| && down.dec(k, up.dec(k, d)) == d
  {
    EncodeBlockEncodes(cipher, bs, holes, fileIV, k, d);
    assert CipherFormat(cipher, bs, holes, true, fileIV).dec(k, d) == EncodeBlock(cipher, bs, fileIV, k, d);
  }

  /** Normal-mode reading of the view recovers the file IV from the header and then the plaintext. */
  lemma ViewInverts(cipher: Cipher, bs: nat, holes: bool, externalIV: Word64, digest: seq<Byte>, plain: seq<Byte>)
    requires CipherOk(cipher, bs, holes) && |digest| == HEADER_SIZE
    ensures var view := ReverseView(cipher, bs, holes, externalIV, digest, plain);
      && HEADER_SIZE <= |view| == |plain| + HEADER_SIZE
      && HeaderIV(cipher, externalIV, view) == DigestIV(digest)
      && var format := CipherFormat(cipher, bs, holes, false, HeaderIV(cipher, externalIV, view));
      Unblock(format, Drop(view, HEADER_SIZE), 0) == plain
  {
    hide Unblock, CipherFormat;
    ViewBody(cipher, bs, holes, DigestIV(digest), plain);
    var h := ReverseHeader(cipher, externalIV, digest);
    assert digest != [];
    var view := ReverseView(cipher, bs, holes, externalIV, digest, plain);
    assert view[..HEADER_SIZE] == h;
    assert Drop(view, HEADER_SIZE) == view[|h|..];
  }

  /** A view can be opened in normal mode, where a zero IV is refused, exactly when its digest is not zero. */
  lemma ZeroDigest(cipher: Cipher, bs: nat, holes: bool, externalIV: Word64, digest: seq<Byte>, plain: seq<Byte>)
    requires CipherOk(cipher, bs, holes) && |digest| == HEADER_SIZE
    ensures HEADER_SIZE <= |ReverseView(cipher, bs, holes, externalIV, digest, plain)|
    ensures HeaderIV(cipher, externalIV, ReverseView(cipher, bs, holes, externalIV, digest, plain)) == 0
      <==> forall i :: 0 <= i < HEADER_SIZE ==> digest[i] == 0
  {
    hide ReverseView, HeaderIV, Unblock;
    ViewInverts(cipher, bs, holes, externalIV, digest, plain);
    ZeroBytes(digest);
  }

  lemma {:induction false} ZeroBytes(s: seq<Byte>)
    ensures BigEndian(s) == 0 <==> forall i :: 0 <= i < |s| ==> s[i] == 0
  {
    if s != [] {
      ZeroBytes(s[..|s| - 1]);
    }
  }

  /** The header shown, followed by the plaintext enciphered under some IV. */
  function ViewUnder(f: BlockFile, digest: seq<Byte>, iv: Word64): seq<Byte>
    requires 0 < f.bs
    reads f, f.raw
  {
    var body := Unblock(CipherFormat(f.cipher, f.bs, f.allowHoles, true, iv), f.raw.bytes, 0);
    ReverseHeader(f.cipher, f.externalIV, digest) + body
  }

  /**
   * A zero IV counts as missing, so the first block that is read makes the program look for a header in
   * the plaintext: it takes the IV from there or, in a file too short for one, makes one up.
   */
  method MissingIV(f: BlockFile, off: nat, len: nat) returns (r: Outcome<()>)
    requires f.base == null && f.reverse && f.Wired() && f.raw.Valid() && f.fileIV == 0
    modifies f`fileIV, f.raw
    ensures f.raw.Valid() && f.raw.bytes == old(f.raw.bytes)
    ensures r.Ok? && f.fileIV == 0 ==> len == 0 || |f.raw.bytes| <= off
    ensures r.Ok? && f.fileIV != 0 && HEADER_SIZE <= |f.raw.bytes| ==>
      f.fileIV == HeaderIV(f.cipher, f.externalIV, f.raw.bytes)
    ensures f.raw.healthy && r.Err? ==>
      HEADER_SIZE <= |f.raw.bytes| && HeaderIV(f.cipher, f.externalIV, f.raw.bytes) == 0
  {
    hide HeaderIV, Slice;
    StartDiv(off, f.bs);
    var size := f.raw.GetSize();
    if Start(off / f.bs, f.bs) >= size || (len == 0 && off % f.bs != 0) {
      return Ok(());
    }
    if size < HEADER_SIZE {
      f.fileIV := f.RandomIV();
      return Ok(());
    }
    var buf := f.raw.Read(0, HEADER_SIZE);
    if buf.Err? {
      return Err;
    }
    SliceFront(f.raw.bytes);
    HeaderPrefix(f.cipher, f.externalIV, f.raw.bytes);
    f.fileIV := HeaderIV(f.cipher, f.externalIV, buf.value);
    r := if f.fileIV == 0 then Err else Ok(());
  }

  lemma SliceFront(s: seq<Byte>)
    requires HEADER_SIZE <= |s|
    ensures Slice(s, 0, HEADER_SIZE) == s[..HEADER_SIZE]
  {
  }

  /**
   * A read of the reverse view. `digest` is the truncated hash of the inode number. Reverse mounts
   * run with the block cache switched off and do not write. What is read is enciphered under the IV of
   * the digest; when that is zero, under one found in the plaintext, which the header shown does not tell.
   */
  method ReverseRead(f: BlockFile, off: nat, len: nat, digest: seq<Byte>) returns (r: Outcome<seq<Byte>>)
    requires f.base == null && f.reverse && f.noCache && f.Wired() && f.raw.Valid() && |f.cacheData| <= f.bs
    requires |digest| == HEADER_SIZE
    modifies f, f.raw
    ensures f.raw.bytes == old(f.raw.bytes) && f.externalIV == old(f.externalIV)
    ensures DigestIV(digest) != 0 ==> f.fileIV == DigestIV(digest) && (f.raw.healthy ==> r.Ok?)
    ensures DigestIV(digest) == 0 && r.Ok? && f.fileIV != 0 && HEADER_SIZE <= |f.raw.bytes| ==>
      f.fileIV == HeaderIV(f.cipher, f.externalIV, f.raw.bytes)
    ensures DigestIV(digest) == 0 && f.raw.healthy && r.Err? ==>
      HEADER_SIZE <= |f.raw.bytes| && HeaderIV(f.cipher, f.externalIV, f.raw.bytes) == 0
    ensures r.Ok? && (len == 0 || HEADER_SIZE <= off + len) ==>
      r.value == Slice(ViewUnder(f, digest, f.fileIV), off, len)
    ensures r.Ok? && (len == 0 || HEADER_SIZE <= off + len) && DigestIV(digest) != 0 ==>
      r.value == Slice(ReverseView(f.cipher, f.bs, f.allowHoles, f.externalIV, digest, f.raw.bytes), off, len)
    ensures r.Ok? && 0 < len && off + len < HEADER_SIZE ==>
      r.value == ReverseHeader(f.cipher, f.externalIV, digest)[HEADER_SIZE - len..]
  {
    hide Unblock, CipherFormat, Slice, BlockFile.Sealed, HeaderIV;
    var header := ReverseHeader(f.cipher, f.externalIV, digest);
    assert digest != [] && |header| == HEADER_SIZE;
    f.fileIV := DigestIV(digest);
    var part := [];
    if off < HEADER_SIZE {
      part := HeaderPart(header, off, len);
      if |part| == len {
        HeaderOnly(f, digest, off, len);
        return Ok(part);
      }
    }
    var from: nat := if off < HEADER_SIZE then 0 else off - HEADER_SIZE;
    r := BodyRead(f, from, len - |part|);
    if r.Ok? {
      PartAndBody(f, digest, off, len, part, r.value);
      r := Ok(part + r.value);
    }
  }

  /** The part of a reverse read behind the header. */
  method BodyRead(f: BlockFile, off: nat, len: nat) returns (r: Outcome<seq<Byte>>)
    requires f.base == null && f.reverse && f.noCache && f.Wired() && f.raw.Valid() && |f.cacheData| <= f.bs
    modifies f, f.raw
    ensures f.raw.bytes == old(f.raw.bytes) && f.externalIV == old(f.externalIV)
    ensures old(f.fileIV) != 0 ==> f.fileIV == old(f.fileIV) && (f.raw.healthy ==> r.Ok?)
    ensures old(f.fileIV) == 0 && r.Ok? && f.fileIV != 0 && HEADER_SIZE <= |f.raw.bytes| ==>
      f.fileIV == HeaderIV(f.cipher, f.externalIV, f.raw.bytes)
    ensures old(f.fileIV) == 0 && f.raw.healthy && r.Err? ==>
      HEADER_SIZE <= |f.raw.bytes| && HeaderIV(f.cipher, f.externalIV, f.raw.bytes) == 0
    ensures r.Ok? ==>
      r.value == Slice(Unblock(CipherFormat(f.cipher, f.bs, f.allowHoles, true, f.fileIV), f.raw.bytes, 0), off, len)
  {
    hide Unblock, CipherFormat, Slice, BlockFile.Sealed, HeaderIV;
    if f.fileIV == 0 {
      var found := MissingIV(f, off, len);
      if found.Err? {
        return Err;
      }
      if f.fileIV == 0 {
        NothingThere(f, off, len);
        return Ok([]);
      }
    }
    CipherIntact(f.cipher, f.bs, f.allowHoles, f.reverse, f.fileIV, f.Store(), 0);
    r := f.Read(off, len);
  }

  lemma NothingThere(f: BlockFile, off: nat, len: nat)
    requires f.base == null && f.Wired() && (len == 0 || |f.raw.bytes| <= off)
    ensures Slice(Unblock(CipherFormat(f.cipher, f.bs, f.allowHoles, true, f.fileIV), f.raw.bytes, 0), off, len) == []
  {
    hide Unblock, CipherFormat;
    ViewBody(f.cipher, f.bs, f.allowHoles, f.fileIV, f.raw.bytes);
  }

  lemma HeaderOnly(f: BlockFile, digest: seq<Byte>, off: nat, len: nat)
    requires 0 < f.bs && f.cipher.Sound() && |digest| == HEADER_SIZE && off < HEADER_SIZE
    requires |HeaderPart(ReverseHeader(f.cipher, f.externalIV, digest), off, len)| == len
    ensures var part := HeaderPart(ReverseHeader(f.cipher, f.externalIV, digest), off, len);
      len == 0 || HEADER_SIZE <= off + len ==> part == Slice(ViewUnder(f, digest, f.fileIV), off, len)
  {
    hide Unblock;
  }

  lemma PartAndBody(f: BlockFile, digest: seq<Byte>, off: nat, len: nat, part: seq<Byte>, rest: seq<Byte>)
    requires 0 < f.bs && f.cipher.Sound() && |digest| == HEADER_SIZE
    requires var header := ReverseHeader(f.cipher, f.externalIV, digest);
      |header| == HEADER_SIZE && part == if off < HEADER_SIZE then HeaderPart(header, off, len) else []
    requires |part| < len || off >= HEADER_SIZE
    requires rest == Slice(Unblock(CipherFormat(f.cipher, f.bs, f.allowHoles, true, f.fileIV), f.raw.bytes, 0),
      if off < HEADER_SIZE then 0 else off - HEADER_SIZE, len - |part|)
    ensures part + rest == Slice(ViewUnder(f, digest, f.fileIV), off, len)
  {
    hide Unblock, DecodeBlock;
    var header := ReverseHeader(f.cipher, f.externalIV, digest);
    var body := Unblock(CipherFormat(f.cipher, f.bs, f.allowHoles, true, f.fileIV), f.raw.bytes, 0);
    if off < HEADER_SIZE {
      SliceAcross(header, body, off, len);
    } else {
      SliceBehind(header, body, off, len);
    }
  }
}
