/**
 * The on-disk block format. A store is a sequence of blocks of `bs + hs` bytes, the last one
 * possibly short; each holds a header of `hs` bytes and user data. The cipher layer is the case
 * `hs == 0`; the MAC layer has a header of MAC and random bytes.
 */
module Blocks {
  import opened Bytes
  import opened Arith

  /**
   * `dec(k, c)` recovers the user data of stored block `k`; `auth(k, c)` is its header check.
   * `holes` says that a stored block of zeros reads as zeros.
   */
  datatype Format = Format(
    bs: nat, hs: nat, holes: bool,
    dec: (nat, seq<Byte>) -> seq<Byte>,
    auth: (nat, seq<Byte>) -> bool)
  {
    function Stride(): nat { bs + hs }

    ghost predicate Lawful() {
      && 1 < bs
      && (forall k, c :: hs < |c| <= bs + hs ==> |dec(k, c)| == |c| - hs)
      && (holes ==> forall k, c :: |c| == bs + hs && AllZero(c) ==> auth(k, c) && dec(k, c) == Zeros(bs))
    }

    /** `e` is a valid stored form of the user data `d` as block `k`. */
    ghost predicate Encodes(k: nat, e: seq<Byte>, d: seq<Byte>) {
      0 < |d| <= bs && |e| == |d| + hs && dec(k, e) == d && auth(k, e)
    }
  }

  /** The user data of a store whose first block has number `k`. */
  function Unblock(f: Format, s: seq<Byte>, k: nat): seq<Byte>
    requires 0 < f.Stride()
    decreases |s|
  {
    if s == [] then []
    else
      var n := Min(f.Stride(), |s|);
      f.dec(k, s[..n]) + Unblock(f, s[n..], k + 1)
  }

  /** Every block carries user data and passes its header check. */
  predicate Intact(f: Format, s: seq<Byte>, k: nat)
    requires 0 < f.Stride()
    decreases |s|
  {
    s != [] ==>
      var n := Min(f.Stride(), |s|);
      f.hs < n && f.auth(k, s[..n]) && Intact(f, s[n..], k + 1)
  }

  lemma UnblockStep(f: Format, s: seq<Byte>, k: nat)
    requires f.Lawful() && f.Stride() <= |s|
    ensures Unblock(f, s, k) == f.dec(k, s[..f.Stride()]) + Unblock(f, s[f.Stride()..], k + 1)
    ensures Intact(f, s, k) <==> f.auth(k, s[..f.Stride()]) && Intact(f, s[f.Stride()..], k + 1)
    ensures |f.dec(k, s[..f.Stride()])| == f.bs
  {
  }

  lemma UnblockEmpty(f: Format, k: nat)
    requires f.Lawful()
    ensures Unblock(f, [], k) == [] && Intact(f, [], k)
  {
  }

  /** Whole leading blocks decode independently of what follows them. */
  lemma {:induction false} UnblockConcat(f: Format, a: seq<Byte>, b: seq<Byte>, k: nat, n: nat)
    requires f.Lawful() && |a| == Start(n, f.Stride())
    ensures Unblock(f, a + b, k) == Unblock(f, a, k) + Unblock(f, b, k + n)
    ensures Intact(f, a + b, k) <==> Intact(f, a, k) && Intact(f, b, k + n)
    ensures |Unblock(f, a, k)| == Start(n, f.bs)
    decreases n
  {
    hide Start, Unblock, Intact;
    var w := f.Stride();
    if n == 0 {
      StartNext(0, w);
      StartNext(0, f.bs);
      UnblockEmpty(f, k);
      assert a == [] && a + b == b;
    } else {
      StartNext(n - 1, w);
      StartNext(n - 1, f.bs);
      assert (a + b)[..w] == a[..w] && (a + b)[w..] == a[w..] + b;
      UnblockStep(f, a, k);
      UnblockStep(f, a + b, k);
      UnblockConcat(f, a[w..], b, k + 1, n - 1);
    }
  }

  /** An intact store of any length is some full blocks and perhaps one short block. */
  lemma {:induction false} Extent(f: Format, s: seq<Byte>, k: nat) returns (n: nat, r: nat)
    requires f.Lawful() && Intact(f, s, k)
    ensures r < f.bs && |s| == StoredLen(n, r, f.bs, f.hs) && |Unblock(f, s, k)| == Start(n, f.bs) + r
    decreases |s|
  {
    hide Start;
    var w := f.Stride();
    if s == [] {
      StartNext(0, w);
      StartNext(0, f.bs);
      n, r := 0, 0;
    } else if |s| < w {
      StartNext(0, w);
      StartNext(0, f.bs);
      assert s[..|s|] == s;
      n, r := 0, |s| - f.hs;
    } else {
      var m;
      m, r := Extent(f, s[w..], k + 1);
      n := m + 1;
      StartNext(m, w);
      StartNext(m, f.bs);
    }
  }

  /** The size formula of the MAC layer is the length of the contents, and locWithHeader inverts it. */
  lemma SizeFormula(f: Format, s: seq<Byte>)
    requires f.Lawful() && Intact(f, s, 0)
    ensures |Unblock(f, s, 0)| == LocWithoutHeader(|s|, f.Stride(), f.hs)
    ensures |s| == LocWithHeader(|Unblock(f, s, 0)|, f.Stride(), f.hs)
  {
    hide Unblock, Intact, Start, StoredLen, LocWithHeader, LocWithoutHeader;
    var n, r := Extent(f, s, 0);
    LocOfStored(n, r, f.bs, f.hs);
  }

  /** Cutting an intact store at a block boundary inside it. */
  lemma Split(f: Format, s: seq<Byte>, k: nat)
    requires f.Lawful() && Intact(f, s, 0) && Start(k, f.bs) <= |Unblock(f, s, 0)|
    ensures Start(k, f.Stride()) <= |s|
    ensures var a, t := s[..Start(k, f.Stride())], s[Start(k, f.Stride())..];
            && Intact(f, a, 0) && Intact(f, t, k) && |Unblock(f, a, 0)| == Start(k, f.bs)
            && Unblock(f, s, 0) == Unblock(f, a, 0) + Unblock(f, t, k)
  {
    hide Unblock, Intact, Start;
    var n, r := Extent(f, s, 0);
    StartBelow(k, n, r, f.bs);
    StartMono(k, n, f.Stride());
    var a, t := s[..Start(k, f.Stride())], s[Start(k, f.Stride())..];
    assert s == a + t;
    UnblockConcat(f, a, t, 0, k);
  }

  /** Reading stored block `k` below the end of the file gives the bytes of block `k` of its contents. */
  lemma BlockRead(f: Format, s: seq<Byte>, k: nat)
    requires f.Lawful() && Intact(f, s, 0) && Start(k, f.bs) < |Unblock(f, s, 0)|
    ensures var c := Slice(s, Start(k, f.Stride()), f.Stride());
            f.hs < |c| && f.auth(k, c) && f.dec(k, c) == Slice(Unblock(f, s, 0), Start(k, f.bs), f.bs)
  {
    hide Start, Unblock, Intact, Slice;
    Split(f, s, k);
    var w, i := f.Stride(), Start(k, f.Stride());
    var a, t := s[..i], s[i..];
    assert t != [] by { UnblockEmpty(f, k); }
    FirstBlock(f, t, k);
    assert s == a + t;
    SliceConcat(a, t, w);
    SliceConcat(Unblock(f, a, 0), Unblock(f, t, k), f.bs);
  }

  lemma FirstBlock(f: Format, t: seq<Byte>, k: nat)
    requires f.Lawful() && Intact(f, t, k) && t != []
    ensures var c := Slice(t, 0, f.Stride());
            f.hs < |c| && f.auth(k, c) && f.dec(k, c) == Slice(Unblock(f, t, k), 0, f.bs)
  {
    var m := Min(f.Stride(), |t|);
    assert t[..m] == Slice(t, 0, f.Stride());
    if m < f.Stride() {
      assert t[m..] == [];
    }
  }

  /** The first block of any store, authentic or not, as long as it carries user data. */
  lemma FirstDecoded(f: Format, t: seq<Byte>, k: nat)
    requires f.Lawful() && f.hs < |t|
    ensures var c := Slice(t, 0, f.Stride());
      f.hs < |c| && |f.dec(k, c)| == |c| - f.hs && f.dec(k, c) == Slice(Unblock(f, t, k), 0, f.bs)
  {
    var m := Min(f.Stride(), |t|);
    assert t[..m] == Slice(t, 0, f.Stride());
    if m < f.Stride() {
      assert t[m..] == [];
    }
  }

  /**
   * On any store, authentic or not: after block `k` has been written as `d`, reading it back gives `d`
   * exactly when the block is full or nothing was stored behind the place of `e`.
   */
  lemma WrittenBack(f: Format, s: seq<Byte>, k: nat, e: seq<Byte>, d: seq<Byte>)
    requires f.Lawful() && f.Encodes(k, e, d) && Start(k, f.Stride()) <= |s|
    ensures var t := Splice(s, Start(k, f.Stride()), e);
      && Start(k, f.bs) < |Unblock(f, t, 0)|
      && (Slice(Unblock(f, t, 0), Start(k, f.bs), f.bs) == d <==>
            |d| == f.bs || |s| <= Start(k, f.Stride()) + |e|)
  {
    hide Unblock, Start, Intact;
    var w, i := f.Stride(), Start(k, f.Stride());
    var t := Splice(s, i, e);
    var a, rest := t[..i], t[i..];
    assert t == a + rest;
    UnblockConcat(f, a, rest, 0, k);
    FirstDecoded(f, rest, k);
    var u := Unblock(f, rest, k);
    assert Slice(Unblock(f, a, 0) + u, |Unblock(f, a, 0)|, f.bs) == Slice(u, 0, f.bs);
    var c := Slice(rest, 0, w);
    assert rest[..|e|] == e;
    if |d| == f.bs || |s| <= i + |e| {
      assert c == e;
    } else {
      assert |e| < |c|;
    }
  }

  /** Past the end of the file there is nothing stored. */
  lemma PastEnd(f: Format, s: seq<Byte>, k: nat)
    requires f.Lawful() && Intact(f, s, 0) && |Unblock(f, s, 0)| <= Start(k, f.bs)
    ensures |s| <= Start(k, f.Stride())
  {
    hide Unblock, Intact, Start, StoredLen;
    var n, r := Extent(f, s, 0);
    StoredBelow(n, r, f.bs, f.hs, k);
  }

  /** One encoded block is itself a store. */
  lemma OneBlock(f: Format, k: nat, e: seq<Byte>, d: seq<Byte>)
    requires f.Lawful() && f.Encodes(k, e, d)
    ensures Unblock(f, e, k) == d && Intact(f, e, k)
  {
    assert e[..|e|] == e && e[|e|..] == [];
    assert Unblock(f, [], k + 1) == [];
  }

  /** A run of zero blocks reads as zeros when holes are allowed. */
  lemma {:induction false} ZeroRun(f: Format, k: nat, n: nat)
    requires f.Lawful() && f.holes
    ensures Unblock(f, Zeros(Start(n, f.Stride())), k) == Zeros(Start(n, f.bs))
    ensures Intact(f, Zeros(Start(n, f.Stride())), k)
    decreases n
  {
    hide Start;
    var w := f.Stride();
    if n == 0 {
      StartNext(0, w);
      StartNext(0, f.bs);
    } else {
      StartNext(n - 1, w);
      StartNext(n - 1, f.bs);
      ZeroRun(f, k + 1, n - 1);
      assert AllZero(Zeros(w));
      assert Zeros(Start(n, w))[..w] == Zeros(w) && Zeros(Start(n, w))[w..] == Zeros(Start(n - 1, w));
      assert Zeros(Start(n, f.bs)) == Zeros(f.bs) + Zeros(Start(n - 1, f.bs));
    }
  }

  /** With holes, extending an aligned store by whole zero blocks extends the contents by zeros. */
  lemma ExtendHoles(f: Format, s: seq<Byte>, m: nat, k: nat)
    requires f.Lawful() && f.holes && Intact(f, s, 0)
    requires |Unblock(f, s, 0)| == Start(m, f.bs) && m <= k
    ensures |s| <= Start(k, f.Stride())
    ensures Unblock(f, Resize(s, Start(k, f.Stride())), 0) == Resize(Unblock(f, s, 0), Start(k, f.bs))
    ensures Intact(f, Resize(s, Start(k, f.Stride())), 0)
  {
    hide Unblock, Intact, Start;
    var w := f.Stride();
    StartMono(m, k, f.bs);
    StartMono(m, k, w);
    Split(f, s, m);
    PastEnd(f, s, m);
    StartDiff(m, k, w);
    StartDiff(m, k, f.bs);
    ZeroRun(f, m, k - m);
    assert Resize(s, Start(k, w)) == s + Zeros(Start(k - m, w));
    UnblockConcat(f, s, Zeros(Start(k - m, w)), 0, m);
  }

  /** Rewriting one block that covers what was there rewrites exactly its user bytes. */
  lemma Overwrite(f: Format, s: seq<Byte>, k: nat, e: seq<Byte>, d: seq<Byte>)
    requires f.Lawful() && Intact(f, s, 0) && f.Encodes(k, e, d)
    requires Start(k, f.bs) <= |Unblock(f, s, 0)|
    requires |d| == f.bs || |Unblock(f, s, 0)| <= Start(k, f.bs) + |d|
    ensures Unblock(f, Splice(s, Start(k, f.Stride()), e), 0) == Splice(Unblock(f, s, 0), Start(k, f.bs), d)
    ensures Intact(f, Splice(s, Start(k, f.Stride()), e), 0)
  {
    hide Unblock, Intact, Start, Splice;
    if Start(k, f.bs) + f.bs < |Unblock(f, s, 0)| {
      OverwriteInside(f, s, k, e, d);
    } else {
      OverwriteLast(f, s, k, e, d);
    }
  }

  lemma OverwriteInside(f: Format, s: seq<Byte>, k: nat, e: seq<Byte>, d: seq<Byte>)
    requires f.Lawful() && Intact(f, s, 0) && f.Encodes(k, e, d) && |d| == f.bs
    requires Start(k, f.bs) + f.bs < |Unblock(f, s, 0)|
    ensures Unblock(f, Splice(s, Start(k, f.Stride()), e), 0) == Splice(Unblock(f, s, 0), Start(k, f.bs), d)
    ensures Intact(f, Splice(s, Start(k, f.Stride()), e), 0)
  {
    hide Unblock, Intact, Start, Splice;
    var w, p := f.Stride(), Unblock(f, s, 0);
    StartNext(k, w);
    StartNext(k, f.bs);
    Split(f, s, k);
    Split(f, s, k + 1);
    var i, j := Start(k, w), Start(k + 1, w);
    InsertBlock(f, s[..i], e, s[j..], k, d);
    SpliceInside(s, i, j, e);
    SpliceInside(p, Start(k, f.bs), Start(k + 1, f.bs), d);
  }

  lemma InsertBlock(f: Format, a: seq<Byte>, e: seq<Byte>, u: seq<Byte>, k: nat, d: seq<Byte>)
    requires f.Lawful() && f.Encodes(k, e, d) && |d| == f.bs && |a| == Start(k, f.Stride())
    requires Intact(f, a, 0) && Intact(f, u, k + 1)
    ensures Unblock(f, a + (e + u), 0) == Unblock(f, a, 0) + d + Unblock(f, u, k + 1)
    ensures Intact(f, a + (e + u), 0)
  {
    hide Unblock, Intact, Start;
    OneBlock(f, k, e, d);
    UnblockConcat(f, a, e + u, 0, k);
    StartNext(0, f.Stride());
    UnblockConcat(f, e, u, k, 1);
  }

  lemma OverwriteLast(f: Format, s: seq<Byte>, k: nat, e: seq<Byte>, d: seq<Byte>)
    requires f.Lawful() && Intact(f, s, 0) && f.Encodes(k, e, d)
    requires Start(k, f.bs) <= |Unblock(f, s, 0)| <= Start(k, f.bs) + |d|
    ensures Unblock(f, Splice(s, Start(k, f.Stride()), e), 0) == Splice(Unblock(f, s, 0), Start(k, f.bs), d)
    ensures Intact(f, Splice(s, Start(k, f.Stride()), e), 0)
  {
    hide Unblock, Intact, Start, Splice;
    Split(f, s, k);
    Tail(f, s, k, e, d);
    CutBlock(f, s, k, e, d);
    SpliceOver(s, Start(k, f.Stride()), e);
    SpliceOver(Unblock(f, s, 0), Start(k, f.bs), d);
    var t := Splice(s, Start(k, f.Stride()), e);
    assert Resize(t, |t|) == t;
  }

  /** The last block of a store, replaced by one at least as long, leaves nothing behind it. */
  lemma Tail(f: Format, s: seq<Byte>, k: nat, e: seq<Byte>, d: seq<Byte>)
    requires f.Lawful() && f.Encodes(k, e, d) && Intact(f, s, 0)
    requires Start(k, f.bs) <= |Unblock(f, s, 0)| <= Start(k, f.bs) + |d|
    ensures |s| <= Start(k, f.Stride()) + |e|
  {
    hide Unblock, Intact, Start;
    var n, r := Extent(f, s, 0);
    StartBelow(k, n, r, f.bs);
    if k < n {
      StartNext(k, f.bs);
      StartNext(k, f.Stride());
      StartBelow(n, k + 1, 0, f.bs);
    }
  }

  /** With holes, a block may be written past the end of an aligned store. */
  lemma WriteAcrossHole(f: Format, s: seq<Byte>, m: nat, k: nat, e: seq<Byte>, d: seq<Byte>)
    requires f.Lawful() && f.holes && Intact(f, s, 0) && f.Encodes(k, e, d)
    requires |Unblock(f, s, 0)| == Start(m, f.bs) && m <= k
    ensures Unblock(f, Splice(s, Start(k, f.Stride()), e), 0) == Splice(Unblock(f, s, 0), Start(k, f.bs), d)
    ensures Intact(f, Splice(s, Start(k, f.Stride()), e), 0)
  {
    hide Unblock, Intact, Start, Splice;
    ExtendHoles(f, s, m, k);
    StartMono(m, k, f.bs);
    Overwrite(f, Resize(s, Start(k, f.Stride())), k, e, d);
    SpliceResize(s, Start(k, f.Stride()), Start(k, f.Stride()), e);
    SpliceResize(Unblock(f, s, 0), Start(k, f.bs), Start(k, f.bs), d);
  }

  /** Rewriting block `k` short and then cutting the store behind it. */
  lemma CutBlock(f: Format, s: seq<Byte>, k: nat, e: seq<Byte>, d: seq<Byte>)
    requires f.Lawful() && Intact(f, s, 0) && f.Encodes(k, e, d)
    requires Start(k, f.bs) <= |Unblock(f, s, 0)|
    ensures var t := Resize(Splice(s, Start(k, f.Stride()), e), Start(k, f.Stride()) + |e|);
            Unblock(f, t, 0) == Unblock(f, s, 0)[..Start(k, f.bs)] + d && Intact(f, t, 0)
  {
    hide Unblock, Intact, Start;
    Split(f, s, k);
    var i := Start(k, f.Stride());
    assert Resize(Splice(s, i, e), i + |e|) == s[..i] + e;
    UnblockConcat(f, s[..i], e, 0, k);
    OneBlock(f, k, e, d);
  }

  /** Cutting the store at a block boundary. */
  lemma CutAligned(f: Format, s: seq<Byte>, k: nat)
    requires f.Lawful() && Intact(f, s, 0) && Start(k, f.bs) <= |Unblock(f, s, 0)|
    ensures Start(k, f.Stride()) <= |s|
    ensures Unblock(f, s[..Start(k, f.Stride())], 0) == Unblock(f, s, 0)[..Start(k, f.bs)]
    ensures Intact(f, s[..Start(k, f.Stride())], 0)
  {
    hide Unblock, Intact, Start;
    Split(f, s, k);
  }

  /** A block write that leaves no part of the old block behind is a flat write. */
  lemma BlockWrite(f: Format, s: seq<Byte>, k: nat, e: seq<Byte>, d: seq<Byte>)
    requires f.Lawful() && Intact(f, s, 0) && f.Encodes(k, e, d)
    requires Start(k, f.bs) <= |Unblock(f, s, 0)| || (f.holes && PosIn(|Unblock(f, s, 0)|, f.bs) == 0)
    requires |d| == f.bs || |Unblock(f, s, 0)| <= Start(k, f.bs) + |d|
    ensures Unblock(f, Splice(s, Start(k, f.Stride()), e), 0) == Splice(Unblock(f, s, 0), Start(k, f.bs), d)
    ensures Intact(f, Splice(s, Start(k, f.Stride()), e), 0)
  {
    hide Unblock, Intact, Start, Splice, PosIn, BlockOf;
    var p := Unblock(f, s, 0);
    if Start(k, f.bs) <= |p| {
      Overwrite(f, s, k, e, d);
    } else {
      StartDiv(|p|, f.bs);
      var m := BlockOf(|p|, f.bs);
      StartBelow(m, k, 0, f.bs);
      WriteAcrossHole(f, s, m, k, e, d);
    }
  }

  /** The final length of a truncated store, for a size of `k` blocks and `r` bytes. */
  lemma LocOfSize(f: Format, size: nat)
    requires 0 < f.bs
    ensures var k, r := BlockOf(size, f.bs), PosIn(size, f.bs);
      && size == Start(k, f.bs) + r && r < f.bs
      && LocWithHeader(size, f.Stride(), f.hs) == Start(k, f.Stride()) + (if r == 0 then 0 else f.hs + r)
  {
    hide Start, LocWithHeader, LocWithoutHeader, BlockOf, PosIn;
    StartDiv(size, f.bs);
    LocOfStored(BlockOf(size, f.bs), PosIn(size, f.bs), f.bs, f.hs);
  }

  /** The last step of growing: the zero padding got to `n`, the lower layer is extended to the size. */
  lemma GrowTo(f: Format, s: seq<Byte>, size: nat)
    requires f.Lawful() && Intact(f, s, 0)
    requires var n := |Unblock(f, s, 0)|;
      n == size || (n < size && f.holes && PosIn(n, f.bs) == 0 && PosIn(size, f.bs) == 0)
    ensures var t := Resize(s, LocWithHeader(size, f.Stride(), f.hs));
      Intact(f, t, 0) && Unblock(f, t, 0) == Resize(Unblock(f, s, 0), size)
  {
    hide Unblock, Intact, Start, LocWithHeader, LocWithoutHeader, BlockOf, PosIn;
    var n := |Unblock(f, s, 0)|;
    if n == size {
      SizeFormula(f, s);
      ResizeSame(s);
      ResizeSame(Unblock(f, s, 0));
    } else {
      LocOfSize(f, size);
      StartDiv(n, f.bs);
      var m, k := BlockOf(n, f.bs), BlockOf(size, f.bs);
      StartBelow(m, k, 0, f.bs);
      ExtendHoles(f, s, m, k);
    }
  }

  /** Shrinking into the middle of a block that was first rewritten short. */
  lemma ShrinkInside(f: Format, s: seq<Byte>, size: nat, e: seq<Byte>)
    requires f.Lawful() && Intact(f, s, 0) && size < |Unblock(f, s, 0)| && PosIn(size, f.bs) != 0
    requires var k := BlockOf(size, f.bs);
      f.Encodes(k, e, Slice(Unblock(f, s, 0), Start(k, f.bs), PosIn(size, f.bs)))
    ensures var cut := Splice(s, Start(BlockOf(size, f.bs), f.Stride()), e);
      var t := Resize(cut, LocWithHeader(size, f.Stride(), f.hs));
      Intact(f, t, 0) && Unblock(f, t, 0) == Resize(Unblock(f, s, 0), size)
  {
    hide Unblock, Intact, Start, LocWithHeader, LocWithoutHeader, BlockOf, PosIn, Slice, Splice;
    LocOfSize(f, size);
    var c, k, r := Unblock(f, s, 0), BlockOf(size, f.bs), PosIn(size, f.bs);
    SliceFit(c, Start(k, f.bs), r);
    CutBlock(f, s, k, e, Slice(c, Start(k, f.bs), r));
    PrefixSlice(c, Start(k, f.bs), r);
  }

  /** Shrinking to a block boundary. */
  lemma ShrinkAligned(f: Format, s: seq<Byte>, size: nat)
    requires f.Lawful() && Intact(f, s, 0) && size < |Unblock(f, s, 0)| && PosIn(size, f.bs) == 0
    ensures var t := Resize(s, LocWithHeader(size, f.Stride(), f.hs));
      Intact(f, t, 0) && Unblock(f, t, 0) == Resize(Unblock(f, s, 0), size)
  {
    hide Unblock, Intact, Start, LocWithHeader, LocWithoutHeader, BlockOf, PosIn;
    LocOfSize(f, size);
    CutAligned(f, s, BlockOf(size, f.bs));
  }
}
