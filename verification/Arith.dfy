/**
 * Block arithmetic. `Start(k, w)` is the position of block `k` when blocks are `w` bytes long;
 * the lemmas here are the only place where the product and the quotient are looked into.
 */
module Arith {

  function Start(k: nat, w: nat): nat { k * w }

  /** The block that holds position `x`, and the position inside it. */
  function BlockOf(x: nat, w: nat): nat { if w == 0 then 0 else x / w }

  function PosIn(x: nat, w: nat): nat { if w == 0 then 0 else x % w }

  lemma StartNext(k: nat, w: nat)
    ensures Start(0, w) == 0 && Start(1, w) == w && Start(k + 1, w) == Start(k, w) + w
  {
  }

  lemma {:induction false} StartMono(a: nat, b: nat, w: nat)
    requires a <= b
    ensures Start(a, w) <= Start(b, w)
    ensures a < b ==> Start(a, w) + w <= Start(b, w)
    decreases b
  {
    if a < b {
      StartNext(b - 1, w);
      StartMono(a, b - 1, w);
    }
  }

  lemma StartDiff(a: nat, b: nat, w: nat)
    requires a <= b
    ensures Start(b - a, w) == Start(b, w) - Start(a, w)
  {
    assert (b - a) * w == b * w - a * w;
  }

  lemma StartSum(k: nat, v: nat, w: nat)
    ensures Start(k, v + w) == Start(k, v) + Start(k, w)
  {
  }

  lemma StartDiv(x: nat, w: nat)
    requires 0 < w
    ensures x / w == BlockOf(x, w) && x % w == PosIn(x, w)
    ensures x == Start(BlockOf(x, w), w) + PosIn(x, w) && PosIn(x, w) < w
  {
  }

  /** A quotient and remainder in range are the quotient and remainder. */
  lemma DivUnique(x: nat, w: nat, k: nat, r: nat)
    requires 0 < w && r < w && x == Start(k, w) + r
    ensures BlockOf(x, w) == k && PosIn(x, w) == r && x / w == k && x % w == r
  {
    StartDiv(x, w);
    hide Start;
    var q := BlockOf(x, w);
    if q < k {
      StartMono(q, k, w);
    } else if k < q {
      StartMono(k, q, w);
    }
  }

  /** Comparing a block start with a size compares block numbers. */
  lemma StartBelow(k: nat, n: nat, r: nat, w: nat)
    requires 0 < w && r < w
    ensures Start(k, w) <= Start(n, w) + r <==> k <= n
    ensures Start(k, w) < Start(n, w) + r <==> k < n || (k == n && 0 < r)
  {
    hide Start;
    if k <= n {
      StartMono(k, n, w);
    } else {
      StartMono(n, k, w);
    }
  }

  function RoundUpDivide(numerator: nat, denominator: nat): nat
    requires 0 < denominator
  {
    (numerator + denominator - 1) / denominator
  }

  function LocWithHeader(offset: nat, blockSize: nat, headerSize: nat): nat
    requires headerSize < blockSize
  {
    offset + RoundUpDivide(offset, blockSize - headerSize) * headerSize
  }

  function LocWithoutHeader(offset: nat, blockSize: nat, headerSize: nat): int
    requires headerSize < blockSize
  {
    offset - RoundUpDivide(offset, blockSize) * headerSize
  }

  lemma RoundUp(x: nat, w: nat, k: nat, r: nat)
    requires 0 < w && r < w && x == Start(k, w) + r
    ensures RoundUpDivide(x, w) == if r == 0 then k else k + 1
  {
    hide Start;
    StartNext(k, w);
    if r == 0 {
      DivUnique(x + w - 1, w, k, w - 1);
    } else {
      DivUnique(x + w - 1, w, k + 1, r - 1);
    }
  }

  /** `n` full blocks and `r` further bytes of user data, seen from below the MAC layer. */
  function StoredLen(n: nat, r: nat, bs: nat, hs: nat): nat {
    Start(n, bs + hs) + (if r == 0 then 0 else hs + r)
  }

  lemma LocOfStored(n: nat, r: nat, bs: nat, hs: nat)
    requires r < bs
    ensures LocWithHeader(Start(n, bs) + r, bs + hs, hs) == StoredLen(n, r, bs, hs)
    ensures LocWithoutHeader(StoredLen(n, r, bs, hs), bs + hs, hs) == Start(n, bs) + r
  {
    RoundUp(Start(n, bs) + r, bs, n, r);
    RoundUp(StoredLen(n, r, bs, hs), bs + hs, n, if r == 0 then 0 else hs + r);
    var up := if r == 0 then n else n + 1;
    assert up * hs == Start(up, hs);
    hide Start;
    StartSum(n, bs, hs);
    StartNext(n, hs);
  }

  /** The two location maps of the MAC layer are inverse on every user offset. */
  lemma LocRoundTrip(offset: nat, blockSize: nat, headerSize: nat)
    requires headerSize < blockSize
    ensures LocWithoutHeader(LocWithHeader(offset, blockSize, headerSize), blockSize, headerSize) == offset
  {
    hide Start, LocWithHeader, LocWithoutHeader;
    var bs := blockSize - headerSize;
    StartDiv(offset, bs);
    LocOfStored(offset / bs, offset % bs, bs, headerSize);
  }

  /** Block boundaries at or past the end of the user data lie at or past the end of the store. */
  lemma StoredBelow(n: nat, r: nat, bs: nat, hs: nat, k: nat)
    requires r < bs && Start(n, bs) + r <= Start(k, bs)
    ensures StoredLen(n, r, bs, hs) <= Start(k, bs + hs)
  {
    hide Start;
    StartBelow(k, n, r, bs);
    if k < n {
      StartMono(k, n, bs);
    }
    StartMono(n, k, bs + hs);
  }

  lemma LocTrivial(x: nat, w: nat, hs: nat)
    requires hs < w
    ensures LocWithoutHeader(x, w, 0) == x && LocWithoutHeader(0, w, hs) == 0
  {
    RoundUp(0, w, 0, 0);
  }

  /** locWithHeader maps block starts to block starts. */
  lemma BlockStart(k: nat, bs: nat, hs: nat)
    requires 0 < bs
    ensures LocWithHeader(Start(k, bs), bs + hs, hs) == Start(k, bs + hs)
    ensures BlockOf(Start(k, bs + hs), bs + hs) == k && PosIn(Start(k, bs + hs), bs + hs) == 0
  {
    hide Start;
    LocOfStored(k, 0, bs, hs);
    DivUnique(Start(k, bs + hs), bs + hs, k, 0);
  }

  /** A stored length ends on a block boundary exactly when the user length does. */
  lemma LocAligned(x: nat, bs: nat, hs: nat)
    requires 0 < bs
    ensures PosIn(LocWithHeader(x, bs + hs, hs), bs + hs) == 0 <==> PosIn(x, bs) == 0
  {
    hide Start;
    StartDiv(x, bs);
    var k, r := BlockOf(x, bs), PosIn(x, bs);
    LocOfStored(k, r, bs, hs);
    DivUnique(StoredLen(k, r, bs, hs), bs + hs, k, if r == 0 then 0 else hs + r);
  }

  /** Aligned user lengths and their stored lengths are ordered alike. */
  lemma LocMono(x: nat, y: nat, bs: nat, hs: nat)
    requires 0 < bs && PosIn(x, bs) == 0 && PosIn(y, bs) == 0 && x <= y
    ensures LocWithHeader(x, bs + hs, hs) <= LocWithHeader(y, bs + hs, hs)
  {
    hide Start;
    StartDiv(x, bs);
    StartDiv(y, bs);
    BlockStart(BlockOf(x, bs), bs, hs);
    BlockStart(BlockOf(y, bs), bs, hs);
    StartBelow(BlockOf(x, bs), BlockOf(y, bs), 0, bs);
    StartMono(BlockOf(x, bs), BlockOf(y, bs), bs + hs);
  }

  lemma LocTrivial2(x: nat, w: nat)
    requires 0 < w
    ensures LocWithHeader(x, w, 0) == x
  {
  }
}
