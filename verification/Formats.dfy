/** The two block formats in use: enciphered blocks and MAC blocks. */
module Formats {
  import opened Bytes
  import opened Ciphers
  import opened Arith
  import opened Blocks

  /** The per-block initialization vector: block number xor file IV. */
  function BlockIV(k: nat, fileIV: Word64): Word64 {
    XorWord(k % TWO_64, fileIV)
  }

  /** Bit for bit the IV of a block is the sum of block number and file IV modulo 2. */
  lemma BlockIVBits(k: nat, fileIV: Word64, i: nat)
    requires k < TWO_64
    ensures Bit(BlockIV(k, fileIV), i) == if i < 64 then (Bit(k, i) + Bit(fileIV, i)) % 2 else 0
  {
    hide BitXor, Bit;
    XorBit(64, k, fileIV, i);
  }

  /** Different blocks of a file have different IVs, and so has a block under different file IVs. */
  lemma BlockIVDiffers(k: nat, j: nat, v: Word64, w: Word64)
    requires k < TWO_64 && j < TWO_64
    ensures BlockIV(k, v) == BlockIV(j, v) ==> k == j
    ensures BlockIV(k, v) == BlockIV(k, w) ==> v == w
    ensures BlockIV(0, v) == v
  {
    hide BitXor, Pow2;
    Pow2Word();
    XorInverse(64, k, v);
    XorInverse(64, j, v);
    XorCommutes(64, k, v);
    XorCommutes(64, k, w);
    XorInverse(64, v, k);
    XorInverse(64, w, k);
    XorNothing(64, v);
  }

  /** A full block is stored under the block cipher, a short one under the stream cipher, each with its own IV. */
  lemma StoredForm(cipher: Cipher, bs: nat, fileIV: Word64, k: nat, d: seq<Byte>, iv: Word64)
    requires k < TWO_64 && forall i :: Bit(iv, i) == if i < 64 then (Bit(k, i) + Bit(fileIV, i)) % 2 else 0
    ensures EncodeBlock(cipher, bs, fileIV, k, d) ==
      if |d| == bs then cipher.blockEncode(d, iv) else cipher.streamEncode(d, iv)
  {
    hide Bit, BlockIV;
    forall i ensures Bit(iv, i) == Bit(BlockIV(k, fileIV), i) {
      BlockIVBits(k, fileIV, i);
    }
    Pow2Word();
    SameBits(64, iv, BlockIV(k, fileIV));
  }

  /** What `readOneBlock` of the cipher layer makes of the bytes found below it. */
  function DecodeBlock(cipher: Cipher, bs: nat, holes: bool, reverse: bool, fileIV: Word64, k: nat,
                       c: seq<Byte>): seq<Byte> {
    var iv := BlockIV(k, fileIV);
    if |c| != bs then
      if reverse then cipher.streamEncode(c, iv) else cipher.streamDecode(c, iv)
    else if reverse then cipher.blockEncode(c, iv)
    else if holes && AllZero(c) then c
    else cipher.blockDecode(c, iv)
  }

  /** What `writeOneBlock` of the cipher layer stores (normal mode). */
  function EncodeBlock(cipher: Cipher, bs: nat, fileIV: Word64, k: nat, d: seq<Byte>): seq<Byte> {
    if |d| != bs then cipher.streamEncode(d, BlockIV(k, fileIV)) else cipher.blockEncode(d, BlockIV(k, fileIV))
  }

  function CipherFormat(cipher: Cipher, bs: nat, holes: bool, reverse: bool, fileIV: Word64): Format {
    Format(bs, 0, holes && !reverse,
           (k, c) => DecodeBlock(cipher, bs, holes, reverse, fileIV, k, c), (k, c) => true)
  }

  /** The configurations `CipherFileIO` accepts. */
  ghost predicate CipherOk(cipher: Cipher, bs: nat, holes: bool) {
    cipher.Sound() && 1 < bs && bs % cipher.unit == 0 && (holes ==> cipher.HoleSafe(bs))
  }

  /** Every block size above one is accepted with the cipher that changes nothing, holes or not. */
  lemma PlainOk(mac64: (seq<Byte>, Option<Word64>) -> Word64, bs: nat, holes: bool)
    requires 1 < bs
    ensures CipherOk(PlainCipher(mac64), bs, holes)
  {
    PlainSound(mac64, bs);
  }

  lemma CipherFormatLawful(cipher: Cipher, bs: nat, holes: bool, reverse: bool, fileIV: Word64)
    requires CipherOk(cipher, bs, holes)
    ensures var f := CipherFormat(cipher, bs, holes, reverse, fileIV); f.Lawful() && f.bs == bs && f.hs == 0
  {
  }

  lemma EncodeBlockEncodes(cipher: Cipher, bs: nat, holes: bool, fileIV: Word64, k: nat, d: seq<Byte>)
    requires CipherOk(cipher, bs, holes) && 0 < |d| <= bs
    ensures CipherFormat(cipher, bs, holes, false, fileIV).Encodes(k, EncodeBlock(cipher, bs, fileIV, k, d), d)
  {
    var e := EncodeBlock(cipher, bs, fileIV, k, d);
    if |d| == bs && holes && AllZero(e) {
      assert AllZero(d);
      assert e == d;
    }
  }

  predicate MacPasses(cipher: Cipher, macBytes: nat, holes: bool, c: seq<Byte>) {
    macBytes <= |c| &&
    ((holes && AllZero(c)) || macBytes == 0 || c[..macBytes] == LowBytes(cipher.mac64(c[macBytes..], None), macBytes))
  }

  /** A MAC block that is accepted is refused when only its MAC bytes are changed. */
  lemma ChangedMac(cipher: Cipher, macBytes: nat, holes: bool, c: seq<Byte>, d: seq<Byte>)
    requires macBytes <= |c| && macBytes <= |d| && c[macBytes..] == d[macBytes..] && c[..macBytes] != d[..macBytes]
    requires MacPasses(cipher, macBytes, holes, c) && !(holes && (AllZero(c) || AllZero(d)))
    ensures !MacPasses(cipher, macBytes, holes, d)
  {
  }

  /** The stored MAC is the least significant byte first. */
  lemma MacByteAt(cipher: Cipher, macBytes: nat, c: seq<Byte>, i: nat, j: nat)
    requires MacPasses(cipher, macBytes, false, c) && i < macBytes && j < 8
    ensures Bit(c[i], j) == Bit(cipher.mac64(c[macBytes..], None), 8 * i + j)
  {
    hide Bit, LowBytes;
    var m := cipher.mac64(c[macBytes..], None);
    LowBytesAt(m, macBytes, i, j);
    assert c[..macBytes][i] == c[i];
  }

  function MacFormat(cipher: Cipher, bs: nat, macBytes: nat, randBytes: nat, holes: bool): Format {
    Format(bs, macBytes + randBytes, holes,
           (k, c) => Drop(c, macBytes + randBytes), (k, c) => MacPasses(cipher, macBytes, holes, c))
  }

  lemma MacFormatLawful(cipher: Cipher, bs: nat, macBytes: nat, randBytes: nat, holes: bool)
    requires 1 < bs
    ensures MacFormat(cipher, bs, macBytes, randBytes, holes).Lawful()
  {
  }

  /** The length of any store of MAC blocks, torn or not: a last piece of at most a header carries nothing. */
  lemma {:induction false} MacLength(f: Format, s: seq<Byte>, k: nat, n: nat, r: nat)
    requires f.Lawful() && (forall j, c :: f.dec(j, c) == Drop(c, f.hs))
    requires r < f.Stride() && |s| == Start(n, f.Stride()) + r
    ensures |Unblock(f, s, k)| == Start(n, f.bs) + if r <= f.hs then 0 else r - f.hs
  {
    hide Start, Unblock;
    var a, b := s[..Start(n, f.Stride())], s[Start(n, f.Stride())..];
    assert s == a + b;
    UnblockConcat(f, a, b, k, n);
    LastPiece(f, b, k + n);
  }

  lemma LastPiece(f: Format, b: seq<Byte>, k: nat)
    requires f.Lawful() && (forall j, c :: f.dec(j, c) == Drop(c, f.hs)) && |b| < f.Stride()
    ensures |Unblock(f, b, k)| == if |b| <= f.hs then 0 else |b| - f.hs
  {
    if b != [] {
      assert b[..|b|] == b && b[|b|..] == [];
    }
  }

  /** The size the MAC layer computes is the size of its contents exactly when no header is torn. */
  lemma MacSizeRight(cipher: Cipher, bs: nat, macBytes: nat, randBytes: nat, holes: bool, s: seq<Byte>)
    requires 1 < bs
    ensures var f := MacFormat(cipher, bs, macBytes, randBytes, holes);
      LocWithoutHeader(|s|, f.Stride(), f.hs) == |Unblock(f, s, 0)| <==> !(0 < PosIn(|s|, f.Stride()) < f.hs)
  {
    var f := MacFormat(cipher, bs, macBytes, randBytes, holes);
    var w, hs := f.Stride(), f.hs;
    MacFormatLawful(cipher, bs, macBytes, randBytes, holes);
    hide Start, Unblock, BlockOf, PosIn, MacPasses;
    StartDiv(|s|, w);
    var n, r := BlockOf(|s|, w), PosIn(|s|, w);
    MacLength(f, s, 0, n, r);
    RoundUp(|s|, w, n, r);
    var up := if r == 0 then n else n + 1;
    assert up * hs == Start(up, hs) by {
      StartIs(up, hs);
    }
    StartNext(n, hs);
    StartSum(n, bs, hs);
  }

  lemma StartIs(k: nat, w: nat)
    ensures Start(k, w) == k * w
  {
  }

  /** A MAC block for `d` with any random bytes. */
  function MacBlock(cipher: Cipher, macBytes: nat, rand: seq<Byte>, d: seq<Byte>): seq<Byte> {
    LowBytes(cipher.mac64(rand + d, None), macBytes) + rand + d
  }

  lemma MacBlockEncodes(cipher: Cipher, bs: nat, macBytes: nat, rand: seq<Byte>, holes: bool, k: nat, d: seq<Byte>)
    requires 0 < |d| <= bs
    ensures MacFormat(cipher, bs, macBytes, |rand|, holes).Encodes(k, MacBlock(cipher, macBytes, rand, d), d)
  {
    var e := MacBlock(cipher, macBytes, rand, d);
    assert e[macBytes..] == rand + d;
  }
}
