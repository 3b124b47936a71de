/**
 * The stream mode used for partial blocks, headers, names and keys: two passes of an underlying
 * keyed transform, with a prefix-xor shuffle and a 64-byte chunk reversal between them, worked in
 * place on a buffer.
 */
module StreamCipher {
  import opened Bytes
  import opened Buffers
  import opened Ciphers

  const FLIP_CHUNK: nat := 64

  // ---------------------------------------------------------------- the three buffer steps

  /** Each byte xored with the result so far. */
  function Shuffled(s: seq<Byte>): (r: seq<Byte>)
    ensures |r| == |s|
  {
    if |s| <= 1 then s
    else
      var p := Shuffled(s[..|s| - 1]);
      p + [XorByte(s[|s| - 1], p[|s| - 2])]
  }

  /** Each byte xored with its left neighbour. */
  function Unshuffled(s: seq<Byte>): (r: seq<Byte>)
    ensures |r| == |s|
  {
    seq(|s|, i requires 0 <= i < |s| => if i == 0 then s[0] else XorByte(s[i], s[i - 1]))
  }

  function Reversed(s: seq<Byte>): (r: seq<Byte>)
    ensures |r| == |s|
  {
    seq(|s|, i requires 0 <= i < |s| => s[|s| - 1 - i])
  }

  /** Every chunk of 64 bytes, and the rest, reversed. */
  function Flipped(s: seq<Byte>): (r: seq<Byte>)
    ensures |r| == |s|
  {
    if |s| <= FLIP_CHUNK then Reversed(s)
    else Reversed(s[..FLIP_CHUNK]) + Flipped(s[FLIP_CHUNK..])
  }

  /** The shuffle satisfies its defining recurrence at every position. */
  lemma {:induction false} ShuffledAt(s: seq<Byte>, i: nat)
    requires i < |s|
    ensures Shuffled(s)[i] == if i == 0 then s[0] else XorByte(s[i], Shuffled(s)[i - 1])
  {
    if 1 < |s| && i < |s| - 1 {
      ShuffledAt(s[..|s| - 1], i);
    }
  }

  lemma UnshuffledAt(s: seq<Byte>, i: nat)
    requires i < |s|
    ensures Unshuffled(s)[i] == if i == 0 then s[0] else XorByte(s[i], s[i - 1])
  {
  }

  lemma XorByteInverse(a: Byte, b: Byte)
    ensures XorByte(XorByte(a, b), b) == a
  {
    Pow2Word();
    XorInverse(8, a, b);
  }

  lemma UnshuffleShuffle(s: seq<Byte>)
    ensures Unshuffled(Shuffled(s)) == s
  {
    hide XorByte, Shuffled;
    var t := Shuffled(s);
    forall i | 0 <= i < |s| ensures Unshuffled(t)[i] == s[i] {
      ShuffledAt(s, i);
      if i > 0 {
        XorByteInverse(s[i], t[i - 1]);
      }
    }
  }

  lemma {:induction false} ShuffleUnshuffle(s: seq<Byte>)
    ensures Shuffled(Unshuffled(s)) == s
  {
    hide XorByte, Shuffled, Unshuffled;
    if |s| <= 1 {
      UnshuffledShort(s);
      ShuffledShort(s);
    } else {
      var n := |s| - 1;
      ShuffleUnshuffle(s[..n]);
      UnshuffledPrefix(s, n);
      ShuffledLong(Unshuffled(s));
      UnshuffledAt(s, n);
      XorByteInverse(s[n], s[n - 1]);
      assert s == s[..n] + [s[n]] && s[..n][n - 1] == s[n - 1];
    }
  }

  lemma UnshuffledPrefix(s: seq<Byte>, n: nat)
    requires n <= |s|
    ensures Unshuffled(s)[..n] == Unshuffled(s[..n])
  {
    hide XorByte;
  }

  lemma UnshuffledShort(s: seq<Byte>)
    requires |s| <= 1
    ensures Unshuffled(s) == s
  {
    hide XorByte;
  }

  lemma ShuffledShort(s: seq<Byte>)
    ensures |s| <= 1 ==> Shuffled(s) == s
  {
  }

  lemma ShuffledLong(s: seq<Byte>)
    requires 1 < |s|
    ensures var n := |s| - 1; Shuffled(s) == Shuffled(s[..n]) + [XorByte(s[n], Shuffled(s[..n])[n - 1])]
  {
  }

  lemma {:induction false} FlipFlip(s: seq<Byte>)
    ensures Flipped(Flipped(s)) == s
    decreases |s|
  {
    if FLIP_CHUNK < |s| {
      FlipFlip(s[FLIP_CHUNK..]);
      var t := Flipped(s);
      assert t[..FLIP_CHUNK] == Reversed(s[..FLIP_CHUNK]) && t[FLIP_CHUNK..] == Flipped(s[FLIP_CHUNK..]);
      assert Reversed(t[..FLIP_CHUNK]) == s[..FLIP_CHUNK];
    }
  }

  method ShuffleBytes(buf: array<Byte>)
    modifies buf
    ensures buf[..] == Shuffled(old(buf[..]))
  {
    hide XorByte, Shuffled;
    ghost var s := buf[..];
    if buf.Length > 0 {
      ShuffledAt(s, 0);
    }
    var i := 0;
    while i < buf.Length - 1
      invariant 0 <= i && (0 < buf.Length ==> i < buf.Length)
      invariant forall j :: 0 <= j <= i && j < buf.Length ==> buf[j] == Shuffled(s)[j]
      invariant forall j :: i < j < buf.Length ==> buf[j] == s[j]
    {
      ShuffledAt(s, i + 1);
      buf[i + 1] := XorByte(buf[i + 1], buf[i]);
      i := i + 1;
    }
  }

  method UnshuffleBytes(buf: array<Byte>)
    requires 0 < buf.Length
    modifies buf
    ensures buf[..] == Unshuffled(old(buf[..]))
  {
    hide XorByte, Unshuffled;
    ghost var s := buf[..];
    UnshuffledAt(s, 0);
    var i := buf.Length - 1;
    while i != 0
      invariant 0 <= i < buf.Length
      invariant forall j :: i < j < buf.Length ==> buf[j] == Unshuffled(s)[j]
      invariant forall j :: 0 <= j <= i ==> buf[j] == s[j]
    {
      UnshuffledAt(s, i);
      buf[i] := XorByte(buf[i], buf[i - 1]);
      i := i - 1;
    }
  }

  /** One chunk, read backwards. */
  method ReversedChunk(buf: array<Byte>, at: nat, n: nat) returns (rev: seq<Byte>)
    requires at + n <= buf.Length
    ensures rev == Reversed(buf[at..at + n])
  {
    rev := [];
    for i := 0 to n
      invariant |rev| == i && forall j :: 0 <= j < i ==> rev[j] == buf[at + n - (j + 1)]
    {
      rev := rev + [buf[at + n - (i + 1)]];
    }
  }

  method FlipBytes(buf: array<Byte>)
    modifies buf
    ensures buf[..] == Flipped(old(buf[..]))
  {
    hide Reversed, Flipped, HalfFlipped;
    ghost var s := buf[..];
    var at := 0;
    FlipStart(s);
    while at != buf.Length
      invariant 0 <= at <= buf.Length && HalfFlipped(s, buf[..], at)
      decreases buf.Length - at
    {
      var toFlip := Min(FLIP_CHUNK, buf.Length - at);
      ghost var before := buf[..];
      var rev := ReversedChunk(buf, at, toFlip);
      assert buf[at..at + toFlip] == before[at..at + toFlip];
      CopyInto(buf, at, rev);
      FlipAdvance(s, before, at, toFlip, buf[..]);
      at := at + toFlip;
    }
    FlipEnd(s, buf[..]);
  }

  /** The chunks before `at` are done, the rest is as it was. */
  ghost predicate HalfFlipped(s: seq<Byte>, now: seq<Byte>, at: nat) {
    at <= |s| == |now| && now[at..] == s[at..] && Flipped(s) == now[..at] + Flipped(s[at..])
  }

  lemma FlipStart(s: seq<Byte>)
    ensures HalfFlipped(s, s, 0)
  {
    assert s[0..] == s && s[..0] + Flipped(s) == Flipped(s);
  }

  lemma FlipEnd(s: seq<Byte>, now: seq<Byte>)
    requires HalfFlipped(s, now, |s|)
    ensures now == Flipped(s)
  {
    assert s[|s|..] == [] && now[..|s|] == now && now + [] == now;
  }

  lemma FlipAdvance(s: seq<Byte>, before: seq<Byte>, at: nat, n: nat, after: seq<Byte>)
    requires HalfFlipped(s, before, at) && at + n <= |s| && n == Min(FLIP_CHUNK, |s| - at) && 0 < n
    requires after == before[..at] + Reversed(before[at..at + n]) + before[at + n..]
    ensures HalfFlipped(s, after, at + n)
  {
    hide Reversed, Flipped;
    FlipStep(s, before, at, n);
    var rev := Reversed(s[at..at + n]);
    assert after[..at + n] == before[..at] + rev;
    assert before[..at] + (rev + Flipped(s[at + n..])) == after[..at + n] + Flipped(s[at + n..]);
  }

  lemma FlipStep(s: seq<Byte>, before: seq<Byte>, at: nat, n: nat)
    requires at + n <= |s| == |before| && n == Min(FLIP_CHUNK, |s| - at) && 0 < n && before[at..] == s[at..]
    ensures Flipped(s[at..]) == Reversed(s[at..at + n]) + Flipped(s[at + n..])
    ensures before[at..at + n] == s[at..at + n] && before[at + n..] == s[at + n..]
  {
    assert s[at..][..n] == s[at..at + n] && s[at..][n..] == s[at + n..];
    assert before[at..][..n] == before[at..at + n] && before[at..][n..] == before[at + n..];
  }

  /** Position by position: a byte trades places within its chunk of 64, the last chunk being shorter. */
  lemma {:induction false} FlippedAt(s: seq<Byte>, i: nat)
    requires i < |s|
    ensures var start := i / 64 * 64; var end := if start + 64 <= |s| then start + 64 else |s|;
      0 <= start + end - 1 - i < |s| && Flipped(s)[i] == s[start + end - 1 - i]
    decreases |s|
  {
    if 64 < |s| && 64 <= i {
      FlippedAt(s[64..], i - 64);
      assert (i - 64) / 64 * 64 == i / 64 * 64 - 64;
    }
  }

  // ---------------------------------------------------------------- the whole transform

  /** The underlying keyed transform: one pass of the cipher in stream mode under a seed. */
  datatype Pass = Pass(enc: (seq<Byte>, Word64) -> seq<Byte>, dec: (seq<Byte>, Word64) -> seq<Byte>)
  {
    ghost predicate Sound() {
      && (forall s, iv :: |enc(s, iv)| == |s| && dec(enc(s, iv), iv) == s)
      && (forall s, iv :: |dec(s, iv)| == |s| && enc(dec(s, iv), iv) == s)
    }
  }

  /** iv64 + 1 in 64-bit arithmetic. */
  function NextIV(iv: Word64): Word64 { (iv + 1) % TWO_64 }

  function StreamEncoded(p: Pass, s: seq<Byte>, iv: Word64): seq<Byte> {
    p.enc(Shuffled(Flipped(p.enc(Shuffled(s), iv))), NextIV(iv))
  }

  function StreamDecoded(p: Pass, s: seq<Byte>, iv: Word64): seq<Byte> {
    Unshuffled(p.dec(Flipped(Unshuffled(p.dec(s, NextIV(iv)))), iv))
  }

  /** Encoding and decoding are mutually inverse and keep the length, for every buffer and every IV. */
  lemma StreamLaws(p: Pass, s: seq<Byte>, iv: Word64)
    requires p.Sound()
    ensures |StreamEncoded(p, s, iv)| == |s| && StreamDecoded(p, StreamEncoded(p, s, iv), iv) == s
    ensures |StreamDecoded(p, s, iv)| == |s| && StreamEncoded(p, StreamDecoded(p, s, iv), iv) == s
  {
    hide Shuffled, Unshuffled, Flipped;
    var a := p.enc(Shuffled(s), iv);
    UnshuffleShuffle(s);
    FlipFlip(a);
    UnshuffleShuffle(Flipped(a));
    var b := Unshuffled(p.dec(s, NextIV(iv)));
    ShuffleUnshuffle(p.dec(s, NextIV(iv)));
    FlipFlip(b);
    ShuffleUnshuffle(p.dec(Flipped(b), iv));
  }

  /** The cipher of the file and name layers, with this transform as its stream mode. */
  /** Two bytes written out: each pass works on the shuffled pair, the second one reversed and under the next IV. */
  lemma PairEncoded(p: Pass, a: Byte, b: Byte, iv: Word64)
    requires p.Sound()
    ensures var u := p.enc([a, XorByte(b, a)], iv);
      && |u| == 2
      && StreamEncoded(p, [a, b], iv) == p.enc([u[1], XorByte(u[0], u[1])], if iv == TWO_64 - 1 then 0 else iv + 1)
  {
    hide XorByte;
    var u := p.enc([a, XorByte(b, a)], iv);
    PairShuffled(a, b);
    PairShuffled(u[1], u[0]);
    assert Flipped(u) == [u[1], u[0]];
  }

  lemma PairShuffled(a: Byte, b: Byte)
    ensures Shuffled([a, b]) == [a, XorByte(b, a)]
  {
    hide XorByte;
    assert [a, b][..1] == [a];
    assert Shuffled([a]) == [a];
  }

  function WithStreamMode(c: Cipher, p: Pass): Cipher {
    c.(streamEncode := (s, iv) => StreamEncoded(p, s, iv), streamDecode := (s, iv) => StreamDecoded(p, s, iv))
  }

  /** The stream mode meets what the file and name layers assume of it, whatever the block mode is. */
  lemma StreamModeSound(c: Cipher, p: Pass)
    requires c.Sound() && p.Sound()
    ensures WithStreamMode(c, p).Sound()
  {
    hide StreamEncoded, StreamDecoded;
    var d := WithStreamMode(c, p);
    forall s: seq<Byte>, iv: Word64 | s != []
      ensures |d.streamEncode(s, iv)| == |s| && d.streamDecode(d.streamEncode(s, iv), iv) == s
      ensures |d.streamDecode(s, iv)| == |s| && d.streamEncode(d.streamDecode(s, iv), iv) == s
    {
      StreamLaws(p, s, iv);
    }
  }

  method StreamEncode(p: Pass, buf: array<Byte>, iv: Word64)
    requires p.Sound() && 0 < buf.Length
    modifies buf
    ensures buf[..] == StreamEncoded(p, old(buf[..]), iv)
  {
    hide Shuffled, Flipped;
    ShuffleBytes(buf);
    Fill(buf, p.enc(buf[..], iv));
    FlipBytes(buf);
    ShuffleBytes(buf);
    Fill(buf, p.enc(buf[..], NextIV(iv)));
  }

  method StreamDecode(p: Pass, buf: array<Byte>, iv: Word64)
    requires p.Sound() && 0 < buf.Length
    modifies buf
    ensures buf[..] == StreamDecoded(p, old(buf[..]), iv)
  {
    hide Unshuffled, Flipped;
    Fill(buf, p.dec(buf[..], NextIV(iv)));
    UnshuffleBytes(buf);
    FlipBytes(buf);
    Fill(buf, p.dec(buf[..], iv));
    UnshuffleBytes(buf);
  }

  // ---------------------------------------------------------------- key wrapping

  const KEY_CHECKSUM_BYTES: nat := 4

  /** The 64-bit MAC folded to 32 bits. */
  function Mac32(mac64: seq<Byte> -> Word64, data: seq<Byte>): (r: Word64)
    ensures r < 0x1_0000_0000
  {
    Pow2Half();
    var m := mac64(data);
    BitXor(32, m / 0x1_0000_0000, m % 0x1_0000_0000)
  }

  lemma Mac32Bits(mac64: seq<Byte> -> Word64, data: seq<Byte>, i: nat)
    requires i < 32
    ensures Bit(Mac32(mac64, data), i) == (Bit(mac64(data), i) + Bit(mac64(data), i + 32)) % 2
  {
    hide Bit, BitXor;
    FoldBit(mac64(data), i);
  }

  /** A wrapped key: the checksum, most significant byte first, then the key enciphered under it. */
  function WrapKey(p: Pass, mac64: seq<Byte> -> Word64, key: seq<Byte>): seq<Byte> {
    var checksum := Mac32(mac64, key);
    ToBigEndian(checksum, KEY_CHECKSUM_BYTES) + StreamEncoded(p, key, checksum)
  }

  function UnwrapKey(p: Pass, mac64: seq<Byte> -> Word64, data: seq<Byte>, checkKey: bool): Option<seq<Byte>>
    requires KEY_CHECKSUM_BYTES <= |data|
  {
    var checksum := BigEndian(data[..KEY_CHECKSUM_BYTES]) % TWO_64;
    var key := StreamDecoded(p, data[KEY_CHECKSUM_BYTES..], checksum);
    if Mac32(mac64, key) != checksum && checkKey then None else Some(key)
  }

  /** Four checksum bytes, the most significant first, then the key under the checksum as IV. */
  lemma WrapLayout(p: Pass, mac64: seq<Byte> -> Word64, key: seq<Byte>)
    requires p.Sound()
    ensures var w := WrapKey(p, mac64, key);
      |w| == |key| + 4 && BigEndian(w[..4]) == Mac32(mac64, key) && w[4..] == StreamEncoded(p, key, Mac32(mac64, key))
  {
    hide StreamEncoded, Mac32, BigEndian, ToBigEndian;
    StreamLaws(p, key, Mac32(mac64, key));
    Pow2Half();
    ToBigEndianInverse(Mac32(mac64, key), 4);
    var w := WrapKey(p, mac64, key);
    assert w[..4] == ToBigEndian(Mac32(mac64, key), 4);
  }

  /** Reading a written key with the checksum test on accepts it and gives the same key. */
  lemma KeyRoundTrip(p: Pass, mac64: seq<Byte> -> Word64, key: seq<Byte>, checkKey: bool)
    requires p.Sound()
    ensures KEY_CHECKSUM_BYTES <= |WrapKey(p, mac64, key)|
    ensures UnwrapKey(p, mac64, WrapKey(p, mac64, key), checkKey) == Some(key)
  {
    hide StreamEncoded, StreamDecoded, Mac32;
    var checksum := Mac32(mac64, key);
    var data := WrapKey(p, mac64, key);
    assert data[..KEY_CHECKSUM_BYTES] == ToBigEndian(checksum, KEY_CHECKSUM_BYTES);
    assert data[KEY_CHECKSUM_BYTES..] == StreamEncoded(p, key, checksum);
    Pow2Half();
    ToBigEndianInverse(checksum, KEY_CHECKSUM_BYTES);
    StreamLaws(p, key, checksum);
  }

  /** Without the checksum test anything is accepted. */
  lemma UnwrapUnchecked(p: Pass, mac64: seq<Byte> -> Word64, data: seq<Byte>)
    requires 4 <= |data|
    ensures UnwrapKey(p, mac64, data, false).Some?
  {
  }

  /** Conversely, an accepted key is one whose wrapping is the data that was read. */
  lemma UnwrapAccepts(p: Pass, mac64: seq<Byte> -> Word64, data: seq<Byte>)
    requires p.Sound() && KEY_CHECKSUM_BYTES <= |data| && UnwrapKey(p, mac64, data, true).Some?
    ensures WrapKey(p, mac64, UnwrapKey(p, mac64, data, true).value) == data
  {
    hide StreamEncoded, StreamDecoded, Mac32, BigEndian, ToBigEndian, Pass.Sound;
    var front, rest := data[..KEY_CHECKSUM_BYTES], data[KEY_CHECKSUM_BYTES..];
    ChecksumBytes(front);
    StreamLaws(p, rest, BigEndian(front));
    assert data == front + rest;
  }

  lemma ChecksumBytes(front: seq<Byte>)
    requires |front| == KEY_CHECKSUM_BYTES
    ensures BigEndian(front) < 0x1_0000_0000 && BigEndian(front) % TWO_64 == BigEndian(front)
    ensures ToBigEndian(BigEndian(front), KEY_CHECKSUM_BYTES) == front
  {
    hide BigEndian, ToBigEndian;
    Pow2Half();
    BigEndianInverse(front);
  }
}
