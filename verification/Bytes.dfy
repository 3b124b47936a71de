/** Byte strings as flat growable files, and the outcome of a fallible call. */
module Bytes {

  type Byte = x: int | 0 <= x < 256

  const TWO_64: int := 0x1_0000_0000_0000_0000

  /** A 64-bit unsigned value: initialization vectors, MACs, file handles. */
  type Word64 = x: int | 0 <= x < TWO_64

  datatype Option<+T> = None | Some(value: T)

  /** `Err` stands for a negative errno or for a failed `rAssert` (which throws). */
  datatype Outcome<+T> = Ok(value: T) | Err

  function Min(a: nat, b: nat): nat { if b < a then b else a }

  function Zeros(n: nat): seq<Byte> { seq(n, _ => 0) }

  predicate AllZero(s: seq<Byte>) { forall i :: 0 <= i < |s| ==> s[i] == 0 }

  /** The bytes a positional read of `len` bytes at `off` sees: short at the end of the file. */
  function Slice(s: seq<Byte>, off: nat, len: nat): (r: seq<Byte>) {
    s[Min(off, |s|)..Min(off + len, |s|)]
  }

  /** A positional write: overwrites, extends, and fills a gap with zeros. */
  function Splice(s: seq<Byte>, off: nat, d: seq<Byte>): (r: seq<Byte>) {
    if d == [] then s
    else if |s| < off then s + Zeros(off - |s|) + d
    else s[..off] + d + s[Min(off + |d|, |s|)..]
  }

  /** Truncation, or extension with zeros. */
  function Resize(s: seq<Byte>, n: nat): (r: seq<Byte>) {
    if n <= |s| then s[..n] else s + Zeros(n - |s|)
  }

  /** Bytewise reading of a write: the new bytes in the window, the old ones (or zeros) elsewhere. */
  lemma SpliceAt(s: seq<Byte>, off: nat, d: seq<Byte>, i: nat)
    requires d != []
    ensures |Splice(s, off, d)| == if off + |d| <= |s| then |s| else off + |d|
    ensures i < |Splice(s, off, d)| ==>
      Splice(s, off, d)[i] == if off <= i < off + |d| then d[i - off] else if i < |s| then s[i] else 0
  {
  }

  /** Two adjacent writes are one write. */
  lemma SpliceSplice(s: seq<Byte>, off: nat, d: seq<Byte>, e: seq<Byte>)
    ensures Splice(Splice(s, off, d), off + |d|, e) == Splice(s, off, d + e)
  {
    if d == [] {
      assert d + e == e;
    } else if e == [] {
      assert d + e == d;
    } else {
      SpliceTwice(s, off, d, e);
    }
  }

  lemma SpliceTwice(s: seq<Byte>, off: nat, d: seq<Byte>, e: seq<Byte>)
    requires d != [] && e != []
    ensures Splice(Splice(s, off, d), off + |d|, e) == Splice(s, off, d + e)
  {
    hide Splice;
    var m, f := Splice(s, off, d), d + e;
    var l, r := Splice(m, off + |d|, e), Splice(s, off, f);
    SpliceAt(s, off, d, 0);
    SpliceAt(m, off + |d|, e, 0);
    SpliceAt(s, off, f, 0);
    forall i | 0 <= i < |l| ensures l[i] == r[i] {
      SpliceAt(s, off, d, i);
      SpliceAt(m, off + |d|, e, i);
      SpliceAt(s, off, f, i);
    }
  }

  lemma SpliceNothing(s: seq<Byte>, off: nat)
    ensures Splice(s, off, []) == s
  {
  }

  /** A write in pieces: the prefix written so far, then the next piece. */
  lemma SpliceMore(s: seq<Byte>, off: nat, d: seq<Byte>, i: nat, j: nat)
    requires i <= j <= |d|
    ensures Splice(Splice(s, off, d[..i]), off + i, d[i..j]) == Splice(s, off, d[..j])
  {
    SpliceSplice(s, off, d[..i], d[i..j]);
    assert d[..i] + d[i..j] == d[..j];
  }

  /** Extending with zeros up to at most `off` is invisible to a later write at `off`. */
  lemma SpliceResize(s: seq<Byte>, n: nat, off: nat, d: seq<Byte>)
    requires d != [] && (|s| <= n <= off || n == |s|)
    ensures Splice(Resize(s, n), off, d) == Splice(s, off, d)
  {
    if n != |s| {
      assert Resize(s, n) + Zeros(off - n) == s + Zeros(off - |s|);
    }
  }

  /** What lies behind the first `h` bytes. */
  function Drop(s: seq<Byte>, h: nat): (r: seq<Byte>) {
    if h <= |s| then s[h..] else []
  }

  /** Cutting off a header commutes with writing behind it. */
  lemma DropSplice(s: seq<Byte>, h: nat, off: nat, d: seq<Byte>)
    requires d != []
    ensures Drop(Splice(s, h + off, d), h) == Splice(Drop(s, h), off, d)
  {
    hide Splice;
    var l, r := Drop(Splice(s, h + off, d), h), Splice(Drop(s, h), off, d);
    SpliceAt(s, h + off, d, 0);
    SpliceAt(Drop(s, h), off, d, 0);
    forall i | 0 <= i < |l| ensures l[i] == r[i] {
      SpliceAt(s, h + off, d, h + i);
      SpliceAt(Drop(s, h), off, d, i);
    }
  }

  lemma SpliceInside(s: seq<Byte>, i: nat, j: nat, d: seq<Byte>)
    requires i <= j <= |s| && |d| == j - i
    ensures Splice(s, i, d) == s[..i] + (d + s[j..])
  {
  }

  lemma SpliceOver(s: seq<Byte>, i: nat, d: seq<Byte>)
    requires i <= |s| <= i + |d| && d != []
    ensures Splice(s, i, d) == s[..i] + d
  {
  }

  lemma SliceConcat(a: seq<Byte>, b: seq<Byte>, n: nat)
    ensures Slice(a + b, |a|, n) == Slice(b, 0, n)
  {
  }

  lemma SliceDrop(s: seq<Byte>, h: nat, off: nat, n: nat)
    ensures Slice(Drop(s, h), off, n) == Slice(s, off + h, n) && Drop(s, 0) == s
  {
  }

  lemma SliceSlice(s: seq<Byte>, off: nat, n: nat, i: nat, m: nat)
    ensures Slice(Slice(s, off, n), i, m) == Slice(s, off + i, Min(m, if i <= n then n - i else 0))
  {
    var t, w := Slice(s, off, n), Min(m, if i <= n then n - i else 0);
    var l, r := Slice(t, i, m), Slice(s, off + i, w);
    assert |l| == |r| by {
      SliceFit(s, off, n);
      SliceFit(t, i, m);
      SliceFit(s, off + i, w);
    }
    forall j | 0 <= j < |l| ensures l[j] == r[j] {
      assert l[j] == t[i + j];
      assert t[i + j] == s[off + i + j];
    }
  }

  lemma SlicePrefix(s: seq<Byte>, n: nat)
    ensures Slice(s, 0, n) == s[..Min(n, |s|)]
  {
  }

  lemma SlicePastEnd(s: seq<Byte>, off: nat, n: nat)
    requires |s| <= off
    ensures Slice(s, off, n) == []
  {
  }

  lemma SliceNone(s: seq<Byte>, off: nat)
    ensures Slice(s, off, 0) == []
  {
  }

  lemma SliceFit(s: seq<Byte>, off: nat, n: nat)
    ensures |Slice(s, off, n)| == Min(n, if off <= |s| then |s| - off else 0)
  {
  }

  lemma SliceAll(s: seq<Byte>, n: nat)
    requires |s| <= n
    ensures Slice(s, 0, n) == s
  {
  }

  lemma SliceJoin(s: seq<Byte>, off: nat, n: nat, m: nat)
    requires |Slice(s, off, n)| == n
    ensures Slice(s, off, n) + Slice(s, off + n, m) == Slice(s, off, n + m)
  {
  }

  lemma SliceSame(s: seq<Byte>, off: nat, n: nat, m: nat)
    ensures |Slice(s, off, n)| == m ==> Slice(s, off, m) == Slice(s, off, n)
  {
  }

  /** Reading back what was written, when nothing of the window is left behind it. */
  lemma SliceOfSplice(s: seq<Byte>, off: nat, d: seq<Byte>, n: nat)
    requires d != [] && |d| <= n && (|d| == n || |s| <= off + |d|)
    ensures Slice(Splice(s, off, d), off, n) == d
    ensures off + |d| <= |Splice(s, off, d)|
  {
  }

  lemma SpliceKeeps(s: seq<Byte>, off: nat, d: seq<Byte>, h: nat)
    requires h <= off && h <= |s|
    ensures h <= |Splice(s, off, d)| && Splice(s, off, d)[..h] == s[..h]
  {
  }

  /** Growing the last, partial piece of a file with zeros. */
  lemma SplicePad(s: seq<Byte>, off: nat, p: nat, q: nat)
    requires |s| == off + p && p < q
    ensures Splice(s, off, Slice(s, off, p) + Zeros(q - p)) == Resize(s, off + q)
  {
    assert Slice(s, off, p) == s[off..];
    assert s[..off] + s[off..] == s;
  }

  lemma SpliceZeros(s: seq<Byte>, off: nat, q: nat)
    requires |s| <= off && 0 < q
    ensures Splice(s, off, Zeros(q)) == Resize(s, off + q)
  {
    assert Zeros(off - |s|) + Zeros(q) == Zeros(off + q - |s|);
  }

  lemma ResizeResize(s: seq<Byte>, a: nat, b: nat)
    requires |s| <= a <= b
    ensures Resize(Resize(s, a), b) == Resize(s, b)
  {
  }

  /** Byte by byte: what was there, then zeros. */
  lemma ResizeAt(s: seq<Byte>, n: nat, i: nat)
    requires i < n
    ensures |Resize(s, n)| == n && Resize(s, n)[i] == if i < |s| then s[i] else 0
  {
  }

  lemma ResizeSame(s: seq<Byte>)
    ensures Resize(s, |s|) == s
  {
  }

  lemma ResizeLen(s: seq<Byte>, n: nat)
    ensures |Resize(s, n)| == n
  {
  }

  /** Merging new bytes into the block at `i` and rewriting the block is writing the new bytes. */
  lemma MergeBlock(s: seq<Byte>, i: nat, n: nat, p: nat, d: seq<Byte>)
    requires d != [] && p + |d| <= n
    ensures var m := Splice(Slice(s, i, n), p, d);
            && 0 < |m| <= n && (|m| == n || |s| <= i + |m|)
            && Splice(s, i, m) == Splice(s, i + p, d)
  {
    hide Splice, Slice;
    var b := Slice(s, i, n);
    var m := Splice(b, p, d);
    SliceFit(s, i, n);
    SpliceAt(b, p, d, 0);
    SpliceAt(s, i, m, 0);
    SpliceAt(s, i + p, d, 0);
    var l, r := Splice(s, i, m), Splice(s, i + p, d);
    forall j | 0 <= j < |l| ensures l[j] == r[j] {
      SpliceAt(s, i, m, j);
      SpliceAt(s, i + p, d, j);
      if i <= j < i + |m| {
        SpliceAt(b, p, d, j - i);
        if j - i < |b| {
          SliceElement(s, i, n, j - i);
        }
      }
    }
  }

  lemma SliceElement(s: seq<Byte>, off: nat, n: nat, j: nat)
    requires j < |Slice(s, off, n)|
    ensures off + j < |s| && Slice(s, off, n)[j] == s[off + j]
  {
  }

  /** A piece that reaches past all there was replaces it. */
  lemma SpliceWhole(s: seq<Byte>, d: seq<Byte>)
    requires d != [] && |s| <= |d|
    ensures Splice(s, 0, d) == d
  {
  }

  lemma SpliceZeroFill(p: nat, d: seq<Byte>)
    requires d != []
    ensures Splice([], p, d) == Zeros(p) + d
  {
  }

  lemma PrefixSlice(s: seq<Byte>, i: nat, n: nat)
    requires i + n <= |s|
    ensures s[..i] + Slice(s, i, n) == Resize(s, i + n)
  {
  }

  lemma SliceResize(s: seq<Byte>, size: nat, i: nat, n: nat)
    requires i + n <= size && i + n <= |s|
    ensures Slice(Resize(s, size), i, n) == Slice(s, i, n)
  {
    var t := Resize(s, size);
    assert Slice(t, i, n) == t[i..i + n];
    assert forall j :: i <= j < i + n ==> t[j] == s[j];
  }

  lemma SliceZeros(s: seq<Byte>, size: nat, i: nat, n: nat)
    requires |s| <= i && i + n <= size
    ensures Slice(Resize(s, size), i, n) == Zeros(n)
  {
    var t := Resize(s, size);
    assert |t| == size;
    assert Slice(t, i, n) == t[i..i + n];
    assert forall j :: i <= j < i + n ==> t[j] == 0;
  }

  lemma DropResize(s: seq<Byte>, h: nat, n: nat)
    ensures Drop(Resize(s, n + h), h) == Resize(Drop(s, h), n)
  {
    if |s| < h {
      assert Drop(Resize(s, n + h), h) == Zeros(n);
    }
  }

  lemma SliceCutTail(s: seq<Byte>, i: nat, p: nat, n: nat)
    requires i + p <= |s| && p <= n
    ensures Slice(Resize(s, i + p), i, n) == Slice(s, i, p)
  {
    assert Slice(s[..i + p], i, n) == s[..i + p][i..];
  }

  /** Overwriting a part of the first bytes leaves what follows them alone. */
  lemma SpliceFrontPart(s: seq<Byte>, d: seq<Byte>, n: nat)
    requires n <= |d| <= |s|
    ensures |Splice(s, 0, d[..n])| == |s| && Drop(Splice(s, 0, d[..n]), |d|) == Drop(s, |d|)
  {
  }

  lemma SpliceFront(s: seq<Byte>, d: seq<Byte>)
    requires d != []
    ensures Splice(s, 0, d) == d + Drop(s, |d|) && Drop(Splice(s, 0, d), |d|) == Drop(s, |d|)
  {
  }

  lemma SliceBehind(a: seq<Byte>, b: seq<Byte>, off: nat, n: nat)
    requires |a| <= off
    ensures Slice(a + b, off, n) == Slice(b, off - |a|, n)
  {
    var l, r := Slice(a + b, off, n), Slice(b, off - |a|, n);
    SliceFit(a + b, off, n);
    SliceFit(b, off - |a|, n);
    forall j | 0 <= j < |l| ensures l[j] == r[j] {
      SliceElement(a + b, off, n, j);
      SliceElement(b, off - |a|, n, j);
    }
  }

  lemma SliceAcross(a: seq<Byte>, b: seq<Byte>, off: nat, n: nat)
    requires off <= |a|
    ensures n <= |a| - off ==> Slice(a + b, off, n) == a[off..off + n]
    ensures |a| - off <= n ==> Slice(a + b, off, n) == a[off..] + Slice(b, 0, n - (|a| - off))
  {
    var m := |a| - off;
    if m <= n {
      assert Slice(a + b, off, m) == a[off..];
      SliceJoin(a + b, off, m, n - m);
      SliceConcat(a, b, n - m);
    }
  }
}
