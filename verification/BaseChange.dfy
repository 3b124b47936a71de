/**
 * Repacking a byte string between power-of-two bases. A string of `a`-bit digits, least
 * significant first, stands for a number; changing base is writing that number in `b`-bit digits.
 */
module BaseChange {
  import opened Bytes
  import opened Arith
  import opened Ciphers

  function B64ToB256Bytes(n: nat): nat { n * 6 / 8 }

  function B32ToB256Bytes(n: nat): nat { n * 5 / 8 }

  function B256ToB64Bytes(n: nat): nat { (n * 8 + 5) / 6 }

  function B256ToB32Bytes(n: nat): nat { (n * 8 + 4) / 5 }

  // ---------------------------------------------------------------- numbers and digits

  /** The number a string of `a`-bit digits stands for. */
  function Val(s: seq<Byte>, a: nat): nat {
    if s == [] then 0 else s[0] + Pow2(a) * Val(s[1..], a)
  }

  /** The `n` lowest `b`-bit digits of a number. */
  function Digits(v: nat, b: nat, n: nat): (r: seq<Byte>)
    requires b <= 8
    ensures |r| == n
    decreases n
  {
    if n == 0 then [] else [LowDigit(v, b)] + Digits(Shift(v, b), b, n - 1)
  }

  function Shift(v: nat, b: nat): nat { BlockOf(v, Pow2(b)) }

  function LowDigit(v: nat, b: nat): Byte
    requires b <= 8
  {
    Pow2Word();
    Pow2Mono(b, 8);
    PosIn(v, Pow2(b))
  }

  predicate InBase(s: seq<Byte>, a: nat) {
    forall i :: 0 <= i < |s| ==> s[i] < Pow2(a)
  }

  lemma Pow2Mono(a: nat, b: nat)
    requires a <= b
    ensures Pow2(a) <= Pow2(b)
  {
    Pow2Add(a, b - a);
    MulAtLeast(Pow2(a), Pow2(b - a));
  }

  lemma MulAtLeast(x: nat, y: nat)
    requires 0 < y
    ensures x <= x * y
  {
  }

  /** Quotient and remainder are unaffected by adding a multiple of the divisor, resp. shift by it. */
  lemma DivAddMul(x: nat, m: nat, y: nat)
    requires 0 < m
    ensures m * y >= 0 && (x + m * y) % m == x % m && (x + m * y) / m == x / m + y
  {
    StartDiv(x, m);
    var q, r := BlockOf(x, m), PosIn(x, m);
    assert x + m * y == Start(q + y, m) + r by { assert (q + y) * m == q * m + m * y; }
    DivUnique(x + m * y, m, q + y, r);
  }

  lemma {:induction false} ValBound(s: seq<Byte>, a: nat)
    requires InBase(s, a)
    ensures Val(s, a) < Pow2(Start(|s|, a))
    decreases |s|
  {
    hide Start;
    StartNext(if s == [] then 0 else |s| - 1, a);
    if s != [] {
      ValBound(s[1..], a);
      Pow2Add(a, Start(|s| - 1, a));
      MulBelow(s[0], Pow2(a), Val(s[1..], a), Pow2(Start(|s| - 1, a)));
    }
  }

  lemma MulBelow(x: nat, m: nat, y: nat, n: nat)
    requires x < m && y < n
    ensures x + m * y < m * n
  {
    assert m * (y + 1) <= m * n;
  }

  /** Digits of a number made of digits are those digits. */
  lemma {:induction false} DigitsOfVal(s: seq<Byte>, a: nat)
    requires a <= 8 && InBase(s, a)
    ensures Digits(Val(s, a), a, |s|) == s
    decreases |s|
  {
    hide Pow2, LowDigit, Shift;
    if s != [] {
      DigitsOfVal(s[1..], a);
      DigitJoin(s[0], Val(s[1..], a), a);
    }
  }

  /** A low digit put in front of a number is its low digit; the number is the rest. */
  lemma DigitJoin(x: nat, y: nat, b: nat)
    requires b <= 8 && x < Pow2(b)
    ensures Pow2(b) * y >= 0 && LowDigit(x + Pow2(b) * y, b) == x && Shift(x + Pow2(b) * y, b) == y
  {
    hide Pow2;
    DivAddMul(x, Pow2(b), y);
    SmallDiv(x, Pow2(b));
    StartDiv(x + Pow2(b) * y, Pow2(b));
  }

  lemma SmallDiv(x: nat, m: nat)
    requires x < m
    ensures x / m == 0 && x % m == x
  {
  }

  /** A number that fits is recovered from its digits. */
  lemma {:induction false} ValOfDigits(v: nat, b: nat, n: nat)
    requires b <= 8 && v < Pow2(Start(n, b))
    ensures Val(Digits(v, b, n), b) == v
    decreases n
  {
    hide Start, Pow2, LowDigit, Shift;
    StartNext(if n == 0 then 0 else n - 1, b);
    if n == 0 {
      Pow2Zero();
    } else {
      Pow2Add(b, Start(n - 1, b));
      DigitSplit(v, b, Pow2(Start(n - 1, b)));
      ValOfDigits(Shift(v, b), b, n - 1);
      assert Digits(v, b, n)[1..] == Digits(Shift(v, b), b, n - 1);
    }
  }

  lemma Pow2Zero()
    ensures Pow2(0) == 1
  {
  }

  lemma DigitSplit(v: nat, b: nat, n: nat)
    requires b <= 8
    ensures v == LowDigit(v, b) + Pow2(b) * Shift(v, b) && LowDigit(v, b) < Pow2(b)
    ensures v < Pow2(b) * n ==> Shift(v, b) < n
  {
    hide Pow2;
    var m := Pow2(b);
    StartDiv(v, m);
    if v < m * n {
      DivBelow(v, m, n);
    }
  }

  lemma DivBelow(v: nat, m: nat, n: nat)
    requires 0 < m && v < m * n
    ensures 0 <= v / m < n
  {
    StartDiv(v, m);
    var q := BlockOf(v, m);
    assert Start(n, m) == m * n;
    if n <= q {
      StartMono(n, q, m);
    }
  }

  lemma {:induction false} DigitsPrefix(v: nat, b: nat, m: nat, n: nat)
    requires b <= 8 && m <= n
    ensures Digits(v, b, n)[..m] == Digits(v, b, m)
    decreases m
  {
    if m > 0 {
      DigitsPrefix(Shift(v, b), b, m - 1, n - 1);
    }
  }

  lemma {:induction false} DigitsInBase(v: nat, b: nat, n: nat)
    requires b <= 8
    ensures InBase(Digits(v, b, n), b)
    decreases n
  {
    hide Pow2, LowDigit, Shift;
    if n > 0 {
      DigitSplit(v, b, 0);
      DigitsInBase(Shift(v, b), b, n - 1);
    }
  }

  /**
   * The codec law: bytes written in enough `b`-bit digits come back as the first bytes of the
   * number those digits stand for, however many bytes are extracted.
   */
  lemma RepackRoundTrip(s: seq<Byte>, b: nat, n: nat, m: nat)
    requires b <= 8 && Start(|s|, 8) <= Start(n, b) && |s| <= m
    ensures Digits(Val(Digits(Val(s, 8), b, n), b), 8, m)[..|s|] == s
  {
    hide Start;
    Pow2Word();
    var v := Val(s, 8);
    ValBound(s, 8);
    Pow2Mono(Start(|s|, 8), Start(n, b));
    ValOfDigits(v, b, n);
    DigitsPrefix(v, 8, |s|, m);
    DigitsOfVal(s, 8);
  }

  /** The length formulas: enough digits going out, exactly the bytes coming back. */
  /** The way back rounds down, for every text length. */
  lemma BinaryLengths(n: nat)
    ensures B64ToB256Bytes(n) * 8 <= n * 6 < (B64ToB256Bytes(n) + 1) * 8
    ensures B32ToB256Bytes(n) * 8 <= n * 5 < (B32ToB256Bytes(n) + 1) * 8
  {
  }

  // ---------------------------------------------------------------- bit for bit

  /** Bit `p` of a string of digits of `a` bits each, the low bits of the first digit first. */
  function BitAt(s: seq<Byte>, a: nat, p: nat): nat
    requires 0 < a && p < |s| * a
    decreases |s|
  {
    if p < a then Bit(s[0], p) else BitAt(s[1..], a, p - a)
  }

  lemma {:induction false} ValBit(s: seq<Byte>, a: nat, p: nat)
    requires 0 < a <= 8 && InBase(s, a) && p < |s| * a
    ensures Bit(Val(s, a), p) == BitAt(s, a, p)
    decreases |s|
  {
    hide Bit, Halved;
    var rest := Val(s[1..], a);
    assert Pow2(a) * rest >= 0 && Val(s, a) == s[0] + Pow2(a) * rest;
    if p < a {
      AddAbove(a, s[0], rest, p);
    } else {
      ValBit(s[1..], a, p - a);
      HalvedDigit(a, s[0], rest);
      HalvedBit(Val(s, a), a, p - a);
    }
  }

  /** The digits of any number hold its bits in order. */
  lemma {:induction false} DigitsBit(v: nat, b: nat, n: nat, p: nat)
    requires 0 < b <= 8 && p < n * b
    ensures BitAt(Digits(v, b, n), b, p) == Bit(v, p)
    decreases n
  {
    hide Bit, Halved;
    var x, y := LowDigit(v, b), Shift(v, b);
    DigitsCons(v, b, n - 1);
    assert Digits(v, b, n)[1..] == Digits(y, b, n - 1);
    DigitSplit(v, b, 0);
    if p < b {
      AddAbove(b, x, y, p);
    } else {
      DigitsBit(y, b, n - 1, p - b);
      HalvedDigit(b, x, y);
      HalvedBit(v, b, p - b);
    }
  }

  lemma {:induction false} HalvedDigit(a: nat, x: nat, y: nat)
    requires x < Pow2(a)
    ensures Pow2(a) * y >= 0 && Halved(x + Pow2(a) * y, a) == y
    decreases a
  {
    if a > 0 {
      var z := Pow2(a - 1) * y;
      assert z >= 0 && Pow2(a) * y == 2 * z by { Twice(Pow2(a - 1), y); }
      assert (x + 2 * z) / 2 == x / 2 + z;
      HalvedDigit(a - 1, x / 2, y);
    }
  }

  /** Repacking keeps every bit in its place: bit `p` of the output is bit `p` of the input. */
  lemma RepackBits(s: seq<Byte>, b: nat, n: nat, p: nat)
    requires 0 < b <= 8 && Start(|s|, 8) <= Start(n, b) && p < |s| * 8 && p < n * b
    ensures BitAt(Digits(Val(s, 8), b, n), b, p) == BitAt(s, 8, p)
  {
    hide Val, Digits, Start, Bit, BitAt;
    AllInBase(s);
    ValBound(s, 8);
    Pow2Mono(Start(|s|, 8), Start(n, b));
    ValOfDigits(Val(s, 8), b, n);
    DigitsInBase(Val(s, 8), b, n);
    ValBit(s, 8, p);
    ValBit(Digits(Val(s, 8), b, n), b, p);
  }

  lemma AllInBase(s: seq<Byte>)
    ensures InBase(s, 8)
  {
    Pow2Byte();
  }

  lemma RepackLengths(n: nat)
    ensures Start(n, 8) <= Start(B256ToB64Bytes(n), 6) && B64ToB256Bytes(B256ToB64Bytes(n)) == n
    ensures Start(n, 8) <= Start(B256ToB32Bytes(n), 5) && B32ToB256Bytes(B256ToB32Bytes(n)) == n
    ensures 0 < n ==> Start(B256ToB64Bytes(n) - 1, 6) < Start(n, 8) && Start(B256ToB32Bytes(n) - 1, 5) < Start(n, 8)
  {
  }

  // ---------------------------------------------------------------- the work register

  /** What is left of a number after `n` digits were taken off. */
  function Rest(v: nat, b: nat, n: nat): nat
    decreases n
  {
    if n == 0 then v else Rest(Shift(v, b), b, n - 1)
  }

  lemma {:induction false} DigitsSnoc(v: nat, b: nat, n: nat)
    requires b <= 8
    ensures Digits(v, b, n + 1) == Digits(v, b, n) + [LowDigit(Rest(v, b, n), b)]
    ensures Rest(v, b, n + 1) == Shift(Rest(v, b, n), b)
    decreases n
  {
    hide LowDigit, Shift;
    if n > 0 {
      DigitsSnoc(Shift(v, b), b, n - 1);
    }
  }

  /** Source digits `s` queued behind `work`, which holds `bits` bits. */
  function Queue(work: nat, bits: nat, s: seq<Byte>, a: nat): nat {
    work + Pow2(bits) * Val(s, a)
  }

  lemma QueueEmpty(work: nat, bits: nat, a: nat)
    ensures Queue(work, bits, [], a) == work && Queue(0, 0, [], a) == 0
  {
  }

  lemma QueueStart(s: seq<Byte>, a: nat)
    ensures Queue(0, 0, s, a) == Val(s, a)
  {
  }

  /** Moving one source digit onto the high end of the register. */
  lemma QueueRead(work: nat, bits: nat, s: seq<Byte>, a: nat)
    requires work < Pow2(bits) && s != [] && s[0] < Pow2(a)
    ensures 0 <= s[0] * Pow2(bits) && work + s[0] * Pow2(bits) < Pow2(bits + a)
    ensures Queue(work + s[0] * Pow2(bits), bits + a, s[1..], a) == Queue(work, bits, s, a)
  {
    hide Pow2;
    var p, q, v := Pow2(bits), Pow2(a), Val(s[1..], a);
    Pow2Add(bits, a);
    MulBelow(work, p, s[0], q);
    Distribute(p, s[0], q, v);
  }

  lemma Distribute(p: nat, x: nat, q: nat, v: nat)
    ensures p * (x + q * v) == x * p + (p * q) * v
  {
    assert q * v >= 0;
    assert p * (x + q * v) == p * x + p * (q * v);
    assert p * (q * v) == (p * q) * v;
  }

  /** Taking one digit off the low end of the register. */
  lemma QueueEmit(work: nat, bits: nat, s: seq<Byte>, a: nat, b: nat)
    requires b <= 8 && b <= bits && work < Pow2(bits)
    ensures LowDigit(Queue(work, bits, s, a), b) == LowDigit(work, b)
    ensures Shift(Queue(work, bits, s, a), b) == Queue(Shift(work, b), bits - b, s, a)
    ensures Shift(work, b) < Pow2(bits - b)
  {
    hide Pow2;
    var m, h, v := Pow2(b), Pow2(bits - b), Val(s, a);
    Pow2Add(b, bits - b);
    MulAssoc(m, h, v);
    DivAddMul(work, m, h * v);
    StartDiv(work + m * (h * v), m);
    StartDiv(work, m);
    DivBelow(work, m, h);
  }

  lemma MulAssoc(m: nat, h: nat, v: nat)
    ensures (m * h) * v == m * (h * v) && h * v >= 0
  {
  }

  // ---------------------------------------------------------------- the two repackers

  /** The inner loop of the out-of-place repacker: emit while a whole digit is in the register. */
  method EmitDigits(dst: array<Byte>, out: nat, b: nat, work: nat, workBits: nat, ghost v: nat, ghost s: seq<Byte>,
                    ghost a: nat)
    returns (work': nat, bits': nat, out': nat)
    requires 0 < b <= 8 && out <= dst.Length && work < Pow2(workBits)
    requires Start(out, b) + workBits < Start(dst.Length + 1, b)
    requires Rest(v, b, out) == Queue(work, workBits, s, a) && dst[..out] == Digits(v, b, out)
    modifies dst
    ensures bits' < b && out <= out' <= dst.Length && work' < Pow2(bits')
    ensures Start(out', b) + bits' == Start(out, b) + workBits
    ensures Rest(v, b, out') == Queue(work', bits', s, a)
    ensures dst[..out'] == Digits(v, b, out') && dst[out'..] == old(dst[out'..])
  {
    hide Pow2, LowDigit, Shift, Start, Val, Queue, Digits, Rest;
    work', bits', out' := work, workBits, out;
    while bits' >= b
      invariant out <= out' <= dst.Length && work' < Pow2(bits') && Start(out', b) + bits' == Start(out, b) + workBits
      invariant Rest(v, b, out') == Queue(work', bits', s, a)
      invariant dst[..out'] == Digits(v, b, out') && dst[out'..] == old(dst[out'..])
    {
      QueueEmit(work', bits', s, a, b);
      DigitsSnoc(v, b, out');
      StartNext(out', b);
      StartBelow(dst.Length + 1, out' + 1, 0, b);
      dst[out'] := LowDigit(work', b);
      work', bits', out' := Shift(work', b), bits' - b, out' + 1;
    }
  }

  /** Out of place: digits of `src` into `dst`; a last partial digit only if `dstLen` leaves room. */
  method ChangeBase2(src: array<Byte>, srcLen: nat, a: nat, dst: array<Byte>, dstLen: nat, b: nat)
    returns (ghost n: nat)
    requires src != dst && srcLen <= src.Length && InBase(src[..srcLen], a)
    requires 0 < a && 0 < b <= 8 && dstLen <= dst.Length && Start(srcLen, a) < Start(dst.Length + 1, b)
    modifies dst
    ensures n <= dst.Length && Start(n, b) < Start(srcLen, a) + b && Start(srcLen, a) < Start(n + 1, b)
    ensures n < dstLen ==> Start(srcLen, a) <= Start(n, b)
    ensures dst[..n] == Digits(Val(src[..srcLen], a), b, n) && dst[n..] == old(dst[n..])
  {
    hide Pow2, LowDigit, Shift, Start, Val, Queue, Digits, Rest, InBase;
    ghost var s := src[..srcLen];
    ghost var v := Val(s, a);
    var work: nat, workBits: nat, i: nat, out: nat := 0, 0, 0, 0;
    QueueStart(s, a);
    Pow2Zero();
    StartNext(0, a);
    StartNext(0, b);
    DigitsNone(v, b);
    assert s[0..] == s;
    while i != srcLen
      invariant 0 <= i <= srcLen && 0 <= workBits < b && 0 <= out <= dst.Length
      invariant src[..srcLen] == s && work < Pow2(workBits)
      invariant Start(i, a) == Start(out, b) + workBits
      invariant Rest(v, b, out) == Queue(work, workBits, s[i..], a)
      invariant dst[..out] == Digits(v, b, out) && dst[out..] == old(dst[out..])
    {
      SourceStep(s, i, a, work, workBits);
      assert src[i] == s[i];
      work := work + src[i] * Pow2(workBits);
      workBits := workBits + a;
      i := i + 1;
      work, workBits, out := EmitDigits(dst, out, b, work, workBits, v, s[i..], a);
    }
    assert s[i..] == [];
    QueueEmpty(work, workBits, a);
    StartNext(out, b);
    if workBits != 0 && out < dstLen {
      DigitsSnoc(v, b, out);
      StartNext(out + 1, b);
      PutLast(dst, out, LowDigit(work, b), Digits(v, b, out));
      out := out + 1;
    }
    n := out;
  }

  /** Put one more digit behind those at the front of the buffer. */
  method PutLast(dst: array<Byte>, at: nat, digit: Byte, ghost d: seq<Byte>)
    requires at < dst.Length && dst[..at] == d
    modifies dst
    ensures dst[..at + 1] == d + [digit] && dst[at + 1..] == old(dst[at + 1..])
  {
    dst[at] := digit;
  }

  /** One more source digit goes into the register. */
  lemma SourceStep(s: seq<Byte>, i: nat, a: nat, work: nat, bits: nat)
    requires i < |s| && InBase(s, a) && work < Pow2(bits)
    ensures 0 <= s[i] * Pow2(bits) && work + s[i] * Pow2(bits) < Pow2(bits + a)
    ensures Queue(work + s[i] * Pow2(bits), bits + a, s[i + 1..], a) == Queue(work, bits, s[i..], a)
    ensures Start(i + 1, a) == Start(i, a) + a && Start(i + 1, a) <= Start(|s|, a)
  {
    hide Pow2, Start, Val, Queue;
    assert s[i..][1..] == s[i + 1..] && s[i..][0] == s[i];
    QueueRead(work, bits, s[i..], a);
    StartNext(i, a);
    StartMono(i + 1, |s|, a);
  }

  lemma DigitsNone(v: nat, b: nat)
    requires b <= 8
    ensures Digits(v, b, 0) == [] && Rest(v, b, 0) == v
  {
  }

  /** Read source digits until a whole output digit is in the register. */
  method FillWork(buf: array<Byte>, src: nat, srcLen: nat, a: nat, b: nat, work: nat, workBits: nat)
    returns (work': nat, bits: nat, i: nat)
    requires src + srcLen <= buf.Length && InBase(buf[src..src + srcLen], a)
    requires 0 < a && 0 < b <= 8 && work < Pow2(workBits)
    ensures i <= srcLen && work' < Pow2(bits) && (i == srcLen || b <= bits)
    ensures Start(srcLen - i, a) + bits == Start(srcLen, a) + workBits
    ensures Queue(work', bits, buf[src + i..src + srcLen], a) == Queue(work, workBits, buf[src..src + srcLen], a)
    ensures workBits < b ==> bits < b + a
  {
    hide Pow2, Start, Queue, Val;
    ghost var s := buf[src..src + srcLen];
    work', bits, i := work, workBits, 0;
    assert s[0..] == s;
    while i != srcLen && bits < b
      invariant 0 <= i <= srcLen && work' < Pow2(bits)
      invariant Start(srcLen - i, a) + bits == Start(srcLen, a) + workBits
      invariant Queue(work', bits, s[i..], a) == Queue(work, workBits, s, a)
      invariant workBits < b ==> bits < b + a
      decreases srcLen - i
    {
      QueueRead(work', bits, s[i..], a);
      StartNext(srcLen - i - 1, a);
      assert s[i..][1..] == s[i + 1..] && s[i..][0] == buf[src + i];
      work' := work' + buf[src + i] * Pow2(bits);
      bits := bits + a;
      i := i + 1;
    }
    assert buf[src + i..src + srcLen] == s[i..];
  }

  /**
   * In place: one recursion level per output digit. Every level reads what it needs, lets the
   * deeper levels read the rest, and only then writes its digit, so no write overtakes a read.
   */
  method Repack(buf: array<Byte>, src: nat, srcLen: nat, a: nat, b: nat, outputPartialLastByte: bool,
                work: nat, workBits: nat, outLoc: nat, ghost room: nat) returns (ghost n: nat)
    requires src + srcLen <= buf.Length && InBase(buf[src..src + srcLen], a)
    requires 0 < a && 0 < b <= 8 && work < Pow2(workBits)
    requires 0 < room && outLoc + room <= buf.Length && Start(srcLen, a) + workBits <= Start(room, b)
    modifies buf
    ensures 0 < n <= room
    ensures 0 < Start(srcLen, a) + workBits ==> Start(n - 1, b) < Start(srcLen, a) + workBits
    ensures outputPartialLastByte ==> Start(srcLen, a) + workBits <= Start(n, b)
    ensures a <= b && workBits < b ==> Start(srcLen, a) + workBits < Start(n + 1, b)
    ensures buf[..] ==
      old(buf[..outLoc]) + Digits(Queue(work, workBits, old(buf[src..src + srcLen]), a), b, n) + old(buf[outLoc + n..])
    decreases Start(srcLen, a) + workBits, 1
  {
    hide Pow2, LowDigit, Shift, Start, Val, Queue, Digits, Rest, InBase;
    ghost var o, x := buf[..], Queue(work, workBits, buf[src..src + srcLen], a);
    var work', bits, i := FillWork(buf, src, srcLen, a, b, work, workBits);
    StartNext(0, a);
    var at, left := src + i, srcLen - i;
    assert src + srcLen == at + left;
    if i != srcLen {
      Suffix(buf, src, srcLen, i, a);
      n := Deeper(buf, at, left, a, b, outputPartialLastByte, work', bits, outLoc, room);
    } else {
      assert buf[at..at + left] == [];
      QueueEmpty(work', bits, a);
      n := Flush(buf, b, outputPartialLastByte, work', bits, outLoc, room);
      FlushCount(n, b, bits);
    }
    assert buf[..] == o[..outLoc] + Digits(x, b, n) + o[outLoc + n..];
  }

  lemma FlushCount(n: nat, b: nat, bits: nat)
    requires 0 < n && 0 < b
    ensures bits < b + b ==> bits < Start(n + 1, b)
  {
    hide Start;
    StartNext(n, b);
    StartMono(1, n, b);
    StartNext(1, b);
  }

  /** A whole digit is in the register and input is left: recurse for the rest, then write the digit. */
  method Deeper(buf: array<Byte>, src: nat, srcLen: nat, a: nat, b: nat, outputPartialLastByte: bool,
                work: nat, workBits: nat, outLoc: nat, ghost room: nat) returns (ghost n: nat)
    requires 0 < srcLen && src + srcLen <= buf.Length && InBase(buf[src..src + srcLen], a)
    requires 0 < a && 0 < b <= 8 && b <= workBits && work < Pow2(workBits)
    requires 0 < room && outLoc + room <= buf.Length && Start(srcLen, a) + workBits <= Start(room, b)
    modifies buf
    ensures 0 < n <= room
    ensures Start(n - 1, b) < Start(srcLen, a) + workBits
    ensures outputPartialLastByte ==> Start(srcLen, a) + workBits <= Start(n, b)
    ensures a <= b && workBits < b + b ==> Start(srcLen, a) + workBits < Start(n + 1, b)
    ensures buf[..] ==
      old(buf[..outLoc]) + Digits(Queue(work, workBits, old(buf[src..src + srcLen]), a), b, n) + old(buf[outLoc + n..])
    decreases Start(srcLen, a) + workBits, 0
  {
    hide Pow2, LowDigit, Shift, Start, Val, Queue, Digits, Rest, InBase;
    ghost var o, t := buf[..], buf[src..src + srcLen];
    ghost var x := Queue(work, workBits, t, a);
    QueueEmit(work, workBits, t, a, b);
    StillToCome(srcLen, a, b, workBits, room);
    n := Repack(buf, src, srcLen, a, b, outputPartialLastByte, Shift(work, b), workBits - b, outLoc + 1, room - 1);
    assert buf[..] == o[..outLoc + 1] + Digits(Shift(x, b), b, n) + o[outLoc + 1 + n..];
    DigitsCons(x, b, n);
    OneMore(n, b);
    PutDigit(buf, outLoc, LowDigit(work, b), o, Digits(Shift(x, b), b, n));
    n := n + 1;
  }

  lemma StillToCome(left: nat, a: nat, b: nat, bits: nat, room: nat)
    requires 0 < left && 0 < a && 0 < b <= bits && 0 < room && Start(left, a) + bits <= Start(room, b)
    ensures 1 < room && Start(left, a) + (bits - b) <= Start(room - 1, b) && 0 < Start(left, a)
  {
    hide Start;
    StartMono(1, left, a);
    StartNext(0, a);
    StartNext(0, b);
    StartNext(room - 1, b);
  }

  lemma OneMore(n: nat, b: nat)
    requires 0 < n
    ensures Start(n, b) == Start(n - 1, b) + b && Start(n + 1, b) == Start(n, b) + b
    ensures Start(n + 2, b) == Start(n + 1, b) + b
    ensures Start(0, b) == 0
  {
    hide Start;
    StartNext(n - 1, b);
    StartNext(n, b);
    StartNext(n + 1, b);
  }

  lemma Suffix(buf: array<Byte>, src: nat, srcLen: nat, i: nat, a: nat)
    requires i <= srcLen && src + srcLen <= buf.Length && InBase(buf[src..src + srcLen], a)
    ensures InBase(buf[src + i..src + srcLen], a)
  {
    assert buf[src..src + srcLen][i..] == buf[src + i..src + srcLen];
  }

  /** Put a digit in front of the digits already written behind it. */
  method PutDigit(buf: array<Byte>, at: nat, digit: Byte, ghost o: seq<Byte>, ghost d: seq<Byte>)
    requires at + 1 + |d| <= buf.Length == |o| && buf[..] == o[..at + 1] + d + o[at + 1 + |d|..]
    modifies buf
    ensures buf[..] == o[..at] + ([digit] + d) + o[at + 1 + |d|..]
  {
    buf[at] := digit;
  }

  /** No input left: write the low digit, and the remaining ones if a partial digit is wanted. */
  method Flush(buf: array<Byte>, b: nat, outputPartialLastByte: bool, work: nat, workBits: nat, outLoc: nat,
               ghost room: nat)
    returns (ghost n: nat)
    requires 0 < b <= 8 && 0 < room && outLoc + room <= buf.Length && workBits <= Start(room, b)
    modifies buf
    ensures 0 < n <= room && (0 < workBits ==> Start(n - 1, b) < workBits)
    ensures if outputPartialLastByte then workBits <= Start(n, b) else n == 1
    ensures buf[..] == old(buf[..outLoc]) + Digits(work, b, n) + old(buf[outLoc + n..])
  {
    hide LowDigit, Shift, Start, Digits, Rest, Pow2, Queue, Val, InBase;
    ghost var o := buf[..];
    DigitsNone(work, b);
    DigitsSnoc(work, b, 0);
    StartNext(0, b);
    assert buf[..] == o[..outLoc] + Digits(work, b, 0) + o[outLoc..];
    AppendDigit(buf, outLoc, LowDigit(work, b), o, outLoc, Digits(work, b, 0));
    n := 1;
    if outputPartialLastByte {
      n := FlushRest(buf, b, Shift(work, b), workBits - b, outLoc + 1, work, workBits, outLoc, o, room);
    }
  }

  /** The loop that writes the remaining digits of the register; `work` is what it held at first. */
  method FlushRest(buf: array<Byte>, b: nat, register: nat, bits: int, at: nat,
                   ghost work: nat, ghost workBits: nat, ghost outLoc: nat, ghost o: seq<Byte>, ghost room: nat)
    returns (ghost n: nat)
    requires 0 < b <= 8 && 0 < room && outLoc + room <= buf.Length == |o| && workBits <= Start(room, b)
    requires at == outLoc + 1 && bits == workBits - Start(1, b) && register == Rest(work, b, 1)
    requires buf[..] == o[..outLoc] + Digits(work, b, 1) + o[outLoc + 1..]
    modifies buf
    ensures 0 < n <= room && (0 < workBits ==> Start(n - 1, b) < workBits) && workBits <= Start(n, b)
    ensures buf[..] == o[..outLoc] + Digits(work, b, n) + o[outLoc + n..]
  {
    hide LowDigit, Shift, Start, Digits, Rest, Pow2, Queue, Val, InBase;
    StartNext(0, b);
    var rest, left, out := register, bits, at;
    n := 1;
    while left > 0
      invariant 0 < n <= room && out == outLoc + n && left == workBits - Start(n, b)
      invariant 0 < workBits ==> Start(n - 1, b) < workBits
      invariant rest == Rest(work, b, n)
      invariant buf[..] == o[..outLoc] + Digits(work, b, n) + o[outLoc + n..]
      decreases left
    {
      DigitsSnoc(work, b, n);
      StartNext(n, b);
      StartBelow(room, n, 0, b);
      AppendDigit(buf, out, LowDigit(rest, b), o, outLoc, Digits(work, b, n));
      rest := Shift(rest, b);
      left := left - b;
      out := out + 1;
      n := n + 1;
    }
  }

  /** Put a digit behind the digits already written. */
  method AppendDigit(buf: array<Byte>, at: nat, digit: Byte, ghost o: seq<Byte>, ghost start: nat, ghost d: seq<Byte>)
    requires at == start + |d| < buf.Length == |o| && buf[..] == o[..start] + d + o[at..]
    modifies buf
    ensures buf[..] == o[..start] + (d + [digit]) + o[at + 1..]
  {
    buf[at] := digit;
  }

  lemma DigitsCons(v: nat, b: nat, n: nat)
    requires b <= 8
    ensures Digits(v, b, n + 1) == [LowDigit(v, b)] + Digits(Shift(v, b), b, n)
  {
  }

  /** Same output as `ChangeBase2`, written over the input. */
  method ChangeBase2Inline(buf: array<Byte>, srcLen: nat, a: nat, b: nat, outputPartialLastByte: bool, ghost room: nat)
    returns (ghost n: nat)
    requires srcLen <= buf.Length && InBase(buf[..srcLen], a) && 0 < a && 0 < b <= 8
    requires 0 < room <= buf.Length && Start(srcLen, a) <= Start(room, b)
    modifies buf
    ensures 0 < n <= room
    ensures 0 < srcLen ==> Start(n - 1, b) < Start(srcLen, a)
    ensures outputPartialLastByte ==> Start(srcLen, a) <= Start(n, b)
    ensures a <= b ==> Start(srcLen, a) < Start(n + 1, b)
    ensures buf[..n] == Digits(Val(old(buf[..srcLen]), a), b, n) && buf[n..] == old(buf[n..])
  {
    hide Start, Val, Digits, Queue;
    Pow2Zero();
    QueueStart(buf[..srcLen], a);
    StartMono(0, srcLen, a);
    StartNext(0, a);
    if 0 < srcLen {
      StartMono(1, srcLen, a);
    }
    assert buf[0..0 + srcLen] == buf[..srcLen];
    n := Repack(buf, 0, srcLen, a, b, outputPartialLastByte, 0, 0, 0, room);
    assert buf[..] == buf[..n] + buf[n..];
  }

  lemma CountUnique(n: nat, m: nat, w: nat, x: nat)
    requires 0 < w && 0 < n && 0 < m
    requires Start(n - 1, w) < x <= Start(n, w) && Start(m - 1, w) < x <= Start(m, w)
    ensures n == m
  {
    hide Start;
    StartBelow(n, m - 1, 0, w);
    StartBelow(m, n - 1, 0, w);
  }

  /**
   * The two repackers agree: when the destination is given the rounded-up length `up`, the number `n`
   * of digits written out of place, the number `m` written in place and `up` are the same, so both
   * outputs are the same digits.
   */
  lemma CountsAgree(bits: nat, b: nat, up: nat, n: nat, m: nat)
    requires 0 < b && 0 < up && Start(up - 1, b) < bits <= Start(up, b)
    requires Start(n, b) < bits + b && bits < Start(n + 1, b) && (n < up ==> bits <= Start(n, b))
    requires 0 < m && Start(m - 1, b) < bits <= Start(m, b)
    ensures n == up == m
  {
    hide Start;
    CountUnique(m, up, b, bits);
    StartNext(up, b);
    StartBelow(n, up + 1, 0, b);
    if n < up {
      StartMono(n, up - 1, b);
    }
  }

  /** Both repackers on the same bytes, in place and into a destination of the rounded-up length. */
  method RepackBoth(src: array<Byte>, buf: array<Byte>, len: nat, a: nat, dst: array<Byte>, b: nat, up: nat)
    requires src != dst && buf != dst && src != buf && 0 < len <= src.Length && len <= buf.Length
    requires buf[..len] == src[..len] && InBase(src[..len], a) && 0 < a && 0 < b <= 8
    requires 0 < up <= dst.Length && up <= buf.Length && Start(up - 1, b) < Start(len, a) <= Start(up, b)
    modifies buf, dst
    ensures buf[..up] == dst[..up] == Digits(Val(old(src[..len]), a), b, up)
    ensures buf[up..] == old(buf[up..]) && dst[up..] == old(dst[up..])
  {
    hide Start, Val, Digits, InBase;
    StartNext(up, b);
    StartMono(up + 1, dst.Length + 1, b);
    ghost var n := ChangeBase2(src, len, a, dst, up, b);
    ghost var m := ChangeBase2Inline(buf, len, a, b, true, up);
    CountsAgree(Start(len, a), b, up, n, m);
  }
}
