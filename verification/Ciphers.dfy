/** Machine-word operations and the abstract cipher that the file and name layers rely on. */
module Ciphers {
  import opened Bytes

  function Pow2(n: nat): (r: nat)
    ensures 0 < r
  {
    if n == 0 then 1 else 2 * Pow2(n - 1)
  }

  lemma {:induction false} Pow2Add(a: nat, b: nat)
    ensures Pow2(a + b) == Pow2(a) * Pow2(b)
  {
    if b > 0 {
      Pow2Add(a, b - 1);
    }
  }

  lemma Pow2Byte()
    ensures Pow2(8) == 256
  {
    assert Pow2(4) == 16;
    Pow2Add(4, 4);
  }

  lemma Pow2Quarter()
    ensures Pow2(16) == 0x1_0000
  {
    hide Pow2;
    Pow2Byte();
    Pow2Add(8, 8);
  }

  lemma Pow2Half()
    ensures Pow2(32) == 0x1_0000_0000
  {
    hide Pow2;
    Pow2Quarter();
    Pow2Add(16, 16);
  }

  lemma Pow2Word()
    ensures Pow2(8) == 256 && Pow2(64) == TWO_64
  {
    hide Pow2;
    Pow2Byte();
    Pow2Half();
    Pow2Add(32, 32);
  }

  /** Exclusive or of the low `n` bits. */
  function BitXor(n: nat, a: nat, b: nat): (r: nat)
    ensures r < Pow2(n)
  {
    if n == 0 then 0 else (a + b) % 2 + 2 * BitXor(n - 1, a / 2, b / 2)
  }

  lemma LowBit(a: nat, b: nat, hi: nat)
    ensures var v := (a + b) % 2 + 2 * hi; v / 2 == hi && v % 2 == (a + b) % 2 && (v + b) % 2 == a % 2
  {
  }

  lemma {:induction false} XorInverse(n: nat, a: nat, b: nat)
    requires a < Pow2(n)
    ensures BitXor(n, BitXor(n, a, b), b) == a
  {
    if n > 0 {
      var hi := BitXor(n - 1, a / 2, b / 2);
      LowBit(a, b, hi);
      XorInverse(n - 1, a / 2, b / 2);
      XorStep(n, BitXor(n, a, b), b);
    }
  }

  lemma XorStep(n: nat, a: nat, b: nat)
    requires 0 < n
    ensures BitXor(n, a, b) == (a + b) % 2 + 2 * BitXor(n - 1, a / 2, b / 2)
  {
  }

  /** Bit `i` of a number, counted from the least significant. */
  function Bit(v: nat, i: nat): (b: nat)
    ensures b < 2
    decreases i
  {
    if i == 0 then v % 2 else Bit(v / 2, i - 1)
  }

  /** Every bit of the exclusive or is the sum of the two bits modulo 2; above the width there is nothing. */
  lemma {:induction false} XorBit(n: nat, a: nat, b: nat, i: nat)
    ensures Bit(BitXor(n, a, b), i) == if i < n then (Bit(a, i) + Bit(b, i)) % 2 else 0
    decreases n, i
  {
    if n == 0 {
      ZeroBits(i);
    } else {
      hide BitXor;
      XorStep(n, a, b);
      var hi := BitXor(n - 1, a / 2, b / 2);
      LowBit(a, b, hi);
      ParitySum(a, b);
      if i > 0 {
        XorBit(n - 1, a / 2, b / 2, i - 1);
      }
    }
  }

  lemma ParitySum(a: nat, b: nat)
    ensures (a + b) % 2 == (a % 2 + b % 2) % 2
  {
  }

  lemma {:induction false} ZeroBits(i: nat)
    ensures Bit(0, i) == 0
  {
    if i > 0 {
      ZeroBits(i - 1);
    }
  }

  lemma {:induction false} XorCommutes(n: nat, a: nat, b: nat)
    ensures BitXor(n, a, b) == BitXor(n, b, a)
  {
    if n > 0 {
      XorCommutes(n - 1, a / 2, b / 2);
    }
  }

  lemma {:induction false} XorNothing(n: nat, b: nat)
    requires b < Pow2(n)
    ensures BitXor(n, 0, b) == b
  {
    if n > 0 {
      XorNothing(n - 1, b / 2);
    }
  }

  /** Numbers below a power of two with the same bits are the same. */
  lemma {:induction false} SameBits(n: nat, a: nat, b: nat)
    requires a < Pow2(n) && b < Pow2(n) && forall i :: Bit(a, i) == Bit(b, i)
    ensures a == b
    decreases n
  {
    if n > 0 {
      assert Bit(a, 0) == Bit(b, 0);
      forall i: nat ensures Bit(a / 2, i) == Bit(b / 2, i) {
        assert Bit(a, i + 1) == Bit(b, i + 1);
      }
      SameBits(n - 1, a / 2, b / 2);
    }
  }

  /** A number without its `n` low bits. */
  function Halved(v: nat, n: nat): nat
    decreases n
  {
    if n == 0 then v else Halved(v / 2, n - 1)
  }

  lemma {:induction false} HalvedBit(v: nat, n: nat, i: nat)
    ensures Bit(Halved(v, n), i) == Bit(v, n + i)
    decreases n
  {
    if n > 0 {
      HalvedBit(v / 2, n - 1, i);
    }
  }

  lemma {:induction false} HalvedAdd(v: nat, m: nat, n: nat)
    ensures Halved(v, m + n) == Halved(Halved(v, m), n)
    decreases m
  {
    if m > 0 {
      HalvedAdd(v / 2, m - 1, n);
    }
  }

  lemma HalvedFour(v: nat)
    ensures Halved(v, 4) == v / 16
  {
    assert Halved(v, 4) == v / 2 / 2 / 2 / 2;
  }

  lemma HalvedByte(v: nat)
    ensures Halved(v, 8) == v / 256
  {
    hide Halved;
    HalvedFour(v);
    HalvedFour(v / 16);
    HalvedAdd(v, 4, 4);
  }

  lemma HalvedQuarter(v: nat)
    ensures Halved(v, 16) == v / 0x1_0000
  {
    hide Halved;
    HalvedByte(v);
    HalvedByte(v / 256);
    HalvedAdd(v, 8, 8);
  }

  lemma HalvedHalf(v: nat)
    ensures Halved(v, 32) == v / 0x1_0000_0000
  {
    hide Halved;
    HalvedQuarter(v);
    HalvedQuarter(v / 0x1_0000);
    HalvedAdd(v, 16, 16);
  }

  /** What is added above the low `n` bits does not change them. */
  lemma {:induction false} AddAbove(n: nat, x: nat, q: nat, i: nat)
    requires i < n
    ensures Pow2(n) * q >= 0 && Bit(x + Pow2(n) * q, i) == Bit(x, i)
    decreases n
  {
    var y := Pow2(n - 1) * q;
    assert y >= 0 && Pow2(n) * q == 2 * y by { Twice(Pow2(n - 1), q); }
    assert (x + 2 * y) % 2 == x % 2 && (x + 2 * y) / 2 == x / 2 + y;
    if i > 0 {
      AddAbove(n - 1, x / 2, q, i - 1);
    }
  }

  lemma Twice(p: nat, q: nat)
    ensures p * q >= 0 && 2 * p * q == 2 * (p * q)
  {
  }

  /** The low byte, quarter and half of a word keep their bits. */
  lemma LowPartBit(v: nat, i: nat)
    ensures i < 8 ==> Bit(v % 256, i) == Bit(v, i)
    ensures i < 16 ==> Bit(v % 0x1_0000, i) == Bit(v, i)
    ensures i < 32 ==> Bit(v % 0x1_0000_0000, i) == Bit(v, i)
  {
    hide Bit, Pow2;
    Pow2Byte();
    Pow2Quarter();
    Pow2Half();
    if i < 8 {
      AddAbove(8, v % 256, v / 256, i);
    }
    if i < 16 {
      AddAbove(16, v % 0x1_0000, v / 0x1_0000, i);
    }
    if i < 32 {
      AddAbove(32, v % 0x1_0000_0000, v / 0x1_0000_0000, i);
    }
  }

  /** Bit `i` of a word folded to its half. */
  lemma FoldBit(m: nat, i: nat)
    requires i < 32
    ensures Bit(BitXor(32, m / 0x1_0000_0000, m % 0x1_0000_0000), i) == (Bit(m, i) + Bit(m, i + 32)) % 2
  {
    hide Bit, BitXor, Halved;
    XorBit(32, m / 0x1_0000_0000, m % 0x1_0000_0000, i);
    HalvedHalf(m);
    HalvedBit(m, 32, i);
    LowPartBit(m, i);
  }

  /** Bytes with the same eight bits are the same. */
  lemma SameByte(a: Byte, b: Byte)
    requires forall j :: 0 <= j < 8 ==> Bit(a, j) == Bit(b, j)
    ensures a == b
  {
    hide Bit;
    Pow2Byte();
    forall j: nat | 8 <= j ensures Bit(a, j) == Bit(b, j) {
      NoBits(8, a, j);
      NoBits(8, b, j);
    }
    assert forall j: nat :: Bit(a, j) == Bit(b, j);
    SameBits(8, a, b);
  }

  lemma {:induction false} NoBits(n: nat, v: nat, i: nat)
    requires v < Pow2(n) && n <= i
    ensures Bit(v, i) == 0
    decreases n
  {
    if n == 0 {
      ZeroBits(i);
    } else {
      NoBits(n - 1, v / 2, i - 1);
    }
  }

  function XorByte(a: Byte, b: Byte): Byte {
    Pow2Word();
    BitXor(8, a, b)
  }

  lemma XorByteBits(a: Byte, b: Byte, i: nat)
    ensures Bit(XorByte(a, b), i) == if i < 8 then (Bit(a, i) + Bit(b, i)) % 2 else 0
  {
    hide BitXor, Bit;
    XorBit(8, a, b, i);
  }

  function XorWord(a: Word64, b: Word64): Word64 {
    Pow2Word();
    BitXor(64, a, b)
  }

  /** The `n` low-order bytes of a word, least significant first. */
  function LowBytes(w: nat, n: nat): (r: seq<Byte>)
    ensures |r| == n
  {
    if n == 0 then [] else [w % 256] + LowBytes(w / 256, n - 1)
  }

  /** Byte `i` holds bits `8 * i` to `8 * i + 7`. */
  lemma {:induction false} LowBytesAt(w: nat, n: nat, i: nat, j: nat)
    requires i < n && j < 8
    ensures Bit(LowBytes(w, n)[i], j) == Bit(w, 8 * i + j)
    decreases n
  {
    hide Bit, Halved;
    if i == 0 {
      LowPartBit(w, j);
    } else {
      LowBytesAt(w / 256, n - 1, i - 1, j);
      HalvedByte(w);
      HalvedBit(w, 8, 8 * (i - 1) + j);
    }
  }

  /** Folding bytes into a value, most significant first. */
  function BigEndian(s: seq<Byte>): nat {
    if s == [] then 0 else BigEndian(s[..|s| - 1]) * 256 + s[|s| - 1]
  }

  /** The last byte holds the lowest bits. */
  lemma {:induction false} BigEndianAt(s: seq<Byte>, i: nat, j: nat)
    requires i < |s| && j < 8
    ensures Bit(BigEndian(s), 8 * (|s| - 1 - i) + j) == Bit(s[i], j)
    decreases |s|
  {
    hide Bit, Halved;
    var n := |s| - 1;
    var hi, v := BigEndian(s[..n]), BigEndian(s);
    assert v == s[n] + 256 * hi;
    if i == n {
      Pow2Byte();
      AddAbove(8, s[n], hi, j);
    } else {
      BigEndianAt(s[..n], i, j);
      HalvedByte(v);
      HalvedBit(v, 8, 8 * (n - 1 - i) + j);
      assert v / 256 == hi;
      assert 8 + (8 * (n - 1 - i) + j) == 8 * (n - i) + j;
    }
  }

  /** The bytes of a value, most significant first. */
  function ToBigEndian(w: nat, n: nat): (r: seq<Byte>)
    ensures |r| == n
  {
    if n == 0 then [] else ToBigEndian(w / 256, n - 1) + [w % 256]
  }

  lemma {:induction false} BigEndianInverse(s: seq<Byte>)
    ensures ToBigEndian(BigEndian(s), |s|) == s
    ensures BigEndian(s) < Pow2(8 * |s|)
  {
    if s != [] {
      BigEndianInverse(s[..|s| - 1]);
      Pow2Word();
      Pow2Add(8 * (|s| - 1), 8);
      assert 8 * (|s| - 1) + 8 == 8 * |s|;
    }
  }

  lemma {:induction false} ToBigEndianInverse(w: nat, n: nat)
    requires w < Pow2(8 * n)
    ensures BigEndian(ToBigEndian(w, n)) == w
  {
    if n > 0 {
      Pow2Word();
      Pow2Add(8 * (n - 1), 8);
      ToBigEndianInverse(w / 256, n - 1);
      assert ToBigEndian(w, n)[..n - 1] == ToBigEndian(w / 256, n - 1);
    }
  }

  /**
   * A keyed cipher. The key is fixed, so every operation is a function of the bytes and the
   * initialization vector; `unit` is the block length of the block cipher.
   */
  datatype Cipher = Cipher(
    unit: nat,
    blockEncode: (seq<Byte>, Word64) -> seq<Byte>,
    blockDecode: (seq<Byte>, Word64) -> seq<Byte>,
    streamEncode: (seq<Byte>, Word64) -> seq<Byte>,
    streamDecode: (seq<Byte>, Word64) -> seq<Byte>,
    mac64: (seq<Byte>, Option<Word64>) -> Word64)
  {
    /** The only laws assumed of the cryptography: lengths are kept and each pair is mutually inverse. */
    ghost predicate Sound() {
      && 0 < unit < 128
      && (forall s, iv :: |s| % unit == 0 ==>
            && |blockEncode(s, iv)| == |s| && blockDecode(blockEncode(s, iv), iv) == s)
      && (forall s, iv :: |s| % unit == 0 ==>
            && |blockDecode(s, iv)| == |s| && blockEncode(blockDecode(s, iv), iv) == s)
      && (forall s, iv :: s != [] ==>
            && |streamEncode(s, iv)| == |s| && streamDecode(streamEncode(s, iv), iv) == s)
      && (forall s, iv :: s != [] ==>
            && |streamDecode(s, iv)| == |s| && streamEncode(streamDecode(s, iv), iv) == s)
    }

    /** No plain block other than the zero block is enciphered to zeros (needed when holes are allowed). */
    ghost predicate HoleSafe(bs: nat) {
      forall s, iv :: |s| == bs && AllZero(blockEncode(s, iv)) ==> AllZero(s)
    }
  }

  /** The cipher that changes nothing, with a given MAC, satisfies the laws. */
  function PlainCipher(mac64: (seq<Byte>, Option<Word64>) -> Word64): Cipher {
    Cipher(1, (s, iv) => s, (s, iv) => s, (s, iv) => s, (s, iv) => s, mac64)
  }

  lemma PlainSound(mac64: (seq<Byte>, Option<Word64>) -> Word64, bs: nat)
    ensures PlainCipher(mac64).Sound() && PlainCipher(mac64).HoleSafe(bs)
  {
  }
}
