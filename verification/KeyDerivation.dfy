/** Deriving a key and an IV from a password by chained digests. */
module KeyDerivation {
  import opened Bytes
  import opened Buffers

  /** A message digest: any function with results of one length. */
  datatype Hash = Hash(size: nat, digest: seq<Byte> -> seq<Byte>)
  {
    ghost predicate Ok() {
      size > 0 && forall s :: |digest(s)| == size
    }
  }

  /** The digest applied over and over, `n` times. */
  function Repeated(h: Hash, s: seq<Byte>, n: nat): seq<Byte>
    decreases n
  {
    if n == 0 then s else h.digest(Repeated(h, s, n - 1))
  }

  function Rounds(rounds: nat): nat { if rounds == 0 then 1 else rounds }

  /** The n-th digest block: the previous block and the data, hashed for the given rounds. */
  function Digest(h: Hash, data: seq<Byte>, rounds: nat, n: nat): seq<Byte>
    requires n > 0
    decreases n
  {
    Repeated(h, (if n == 1 then [] else Digest(h, data, rounds, n - 1)) + data, Rounds(rounds))
  }

  /** The first `n` digest blocks one after another. */
  function Stream(h: Hash, data: seq<Byte>, rounds: nat, n: nat): seq<Byte>
    decreases n
  {
    if n == 0 then [] else Stream(h, data, rounds, n - 1) + Digest(h, data, rounds, n)
  }

  lemma RepeatedSize(h: Hash, s: seq<Byte>, n: nat)
    requires h.Ok() && n > 0
    ensures |Repeated(h, s, n)| == h.size
  {
  }

  lemma {:induction false} StreamSize(h: Hash, data: seq<Byte>, rounds: nat, n: nat)
    requires h.Ok()
    ensures n <= |Stream(h, data, rounds, n)|
    decreases n
  {
    if n > 0 {
      hide Repeated;
      StreamSize(h, data, rounds, n - 1);
      DigestSize(h, data, rounds, n);
    }
  }

  lemma DigestSize(h: Hash, data: seq<Byte>, rounds: nat, n: nat)
    requires h.Ok() && n > 0
    ensures |Digest(h, data, rounds, n)| == h.size
  {
    hide Repeated;
    RepeatedSize(h, (if n == 1 then [] else Digest(h, data, rounds, n - 1)) + data, Rounds(rounds));
  }

  lemma {:induction false} StreamPrefix(h: Hash, data: seq<Byte>, rounds: nat, m: nat, n: nat)
    requires m <= n
    ensures Stream(h, data, rounds, m) <= Stream(h, data, rounds, n)
    decreases n
  {
    if m < n {
      StreamPrefix(h, data, rounds, m, n - 1);
    }
  }

  /** The first `len` bytes of the endless digest stream. */
  function Derived(h: Hash, data: seq<Byte>, rounds: nat, len: nat): (r: seq<Byte>)
    requires h.Ok()
    ensures |r| == len
  {
    StreamSize(h, data, rounds, len);
    Stream(h, data, rounds, len)[..len]
  }

  /** Any long enough part of the stream starts with the derived bytes. */
  lemma DerivedIs(h: Hash, data: seq<Byte>, rounds: nat, n: nat, len: nat)
    requires h.Ok() && len <= |Stream(h, data, rounds, n)|
    ensures Derived(h, data, rounds, len) == Stream(h, data, rounds, n)[..len]
  {
    hide Stream;
    StreamSize(h, data, rounds, len);
    if n <= len {
      StreamPrefix(h, data, rounds, n, len);
    } else {
      StreamPrefix(h, data, rounds, len, n);
    }
  }

  /** The first two digests written out, for one round and for two. */
  lemma DerivedStart(h: Hash, data: seq<Byte>)
    requires h.Ok()
    ensures Derived(h, data, 1, 2 * h.size) == h.digest(data) + h.digest(h.digest(data) + data)
    ensures Derived(h, data, 2, h.size) == h.digest(h.digest(data))
    ensures forall len: nat :: Derived(h, data, 0, len) == Derived(h, data, 1, len)
  {
    assert [] + data == data;
    var d1 := Digest(h, data, 1, 1);
    assert Repeated(h, data, 0) == data && d1 == h.digest(data);
    var d2 := Digest(h, data, 1, 2);
    assert Repeated(h, d1 + data, 0) == d1 + data && d2 == h.digest(d1 + data);
    TwoDigests(h, data, 1);
    DerivedIs(h, data, 1, 2, 2 * h.size);
    TwoDigests(h, data, 2);
    assert Repeated(h, data, 1) == h.digest(data) && Digest(h, data, 2, 1) == h.digest(h.digest(data));
    DerivedIs(h, data, 2, 1, h.size);
    forall len: nat ensures Derived(h, data, 0, len) == Derived(h, data, 1, len) {
      NoRounds(h, data, len);
    }
  }

  lemma TwoDigests(h: Hash, data: seq<Byte>, rounds: nat)
    requires h.Ok()
    ensures Stream(h, data, rounds, 1) == Digest(h, data, rounds, 1)
    ensures Stream(h, data, rounds, 2) == Digest(h, data, rounds, 1) + Digest(h, data, rounds, 2)
    ensures |Digest(h, data, rounds, 1)| == |Digest(h, data, rounds, 2)| == h.size
  {
    hide Digest;
    DigestSize(h, data, rounds, 1);
    DigestSize(h, data, rounds, 2);
    assert Stream(h, data, rounds, 0) == [];
    assert [] + Digest(h, data, rounds, 1) == Digest(h, data, rounds, 1);
  }

  lemma {:induction false} NoRounds(h: Hash, data: seq<Byte>, n: nat)
    ensures Stream(h, data, 0, n) == Stream(h, data, 1, n)
    ensures n > 0 ==> Digest(h, data, 0, n) == Digest(h, data, 1, n)
    decreases n
  {
    if n > 0 {
      hide Repeated;
      NoRounds(h, data, n - 1);
    }
  }

  /** The wanted part of an optional buffer. */
  ghost function Part(buf: array?<Byte>, len: nat): seq<Byte>
    requires buf != null ==> len <= buf.Length
    reads buf
  {
    if buf == null then [] else buf[..len]
  }

  function Wanted(buf: array?<Byte>, len: nat): nat { if buf == null then 0 else len }

  /** The inner loop: further rounds over the digest. */
  method Chain(h: Hash, first: seq<Byte>, rounds: nat) returns (md: seq<Byte>)
    requires h.Ok()
    ensures md == Repeated(h, first, Rounds(rounds))
  {
    md := h.digest(first);
    assert Repeated(h, first, 0) == first;
    var i := 1;
    while i < rounds
      invariant 1 <= i && (i <= rounds || i == 1)
      invariant md == Repeated(h, first, i)
    {
      md := h.digest(md);
      i := i + 1;
    }
  }

  /** Copies what still fits; `at` bytes are already there. */
  method TakeInto(buf: array?<Byte>, at: nat, len: nat, md: seq<Byte>) returns (n: nat)
    requires at <= len && (buf != null ==> len <= buf.Length) && (buf == null ==> len == 0)
    modifies buf
    ensures n == (if len - at < |md| then len - at else |md|)
    ensures Part(buf, at + n) == old(Part(buf, at)) + md[..n]
    ensures buf != null ==> buf[at + n..] == old(buf[at + n..])
  {
    n := if len - at < |md| then len - at else |md|;
    if n != 0 {
      CopyInto(buf, at, md[..n]);
      assert buf[..at + n] == old(buf[..at]) + md[..n];
    }
  }

  /** Spreads a digest over the rest of the key and then of the IV. */
  method Spread(key: array?<Byte>, k: nat, keyLen: nat, iv: array?<Byte>, v: nat, ivLen: nat, md: seq<Byte>)
    returns (k': nat, v': nat)
    requires k <= keyLen && (key != null ==> keyLen <= key.Length && key != iv) && (key == null ==> keyLen == 0)
    requires v <= ivLen && (iv != null ==> ivLen <= iv.Length) && (iv == null ==> ivLen == 0)
    requires v > 0 ==> k == keyLen
    modifies key, iv
    ensures k <= k' <= keyLen && v <= v' <= ivLen && (v' > 0 ==> k' == keyLen)
    ensures k' - k + (v' - v) <= |md| && (k' - k + (v' - v) == |md| || (k' == keyLen && v' == ivLen))
    ensures Part(key, k') + Part(iv, v') == old(Part(key, k)) + old(Part(iv, v)) + md[..k' - k + (v' - v)]
  {
    hide Part;
    ghost var keyPart, ivPart := Part(key, k), Part(iv, v);
    PartSize(key, k);
    PartSize(iv, v);
    var a := TakeInto(key, k, keyLen, md);
    assert Part(iv, v) == ivPart;
    var b := TakeInto(iv, v, ivLen, md[a..]);
    assert Part(key, k + a) == keyPart + md[..a];
    k', v' := k + a, v + b;
    SpreadJoins(keyPart, ivPart, md, a, b);
  }

  lemma SpreadJoins(keyPart: seq<Byte>, ivPart: seq<Byte>, md: seq<Byte>, a: nat, b: nat)
    requires a + b <= |md| && (ivPart == [] || a == 0)
    ensures keyPart + md[..a] + (ivPart + md[a..][..b]) == keyPart + ivPart + md[..a + b]
  {
    assert md[..a] + md[a..][..b] == md[..a + b];
    if a == 0 {
      assert md[..a] == [] && md[a..] == md;
    }
  }

  lemma PartSize(buf: array?<Byte>, len: nat)
    requires (buf != null ==> len <= buf.Length) && (buf == null ==> len == 0)
    ensures |Part(buf, len)| == len
  {
  }

  lemma PartNone(len: nat)
    ensures Part(null, len) == []
  {
  }

  /** One digest, and what of it still fits into the key and the IV. */
  method Round(h: Hash, data: seq<Byte>, rounds: nat, key: array?<Byte>, k: nat, keyLen: nat,
               iv: array?<Byte>, v: nat, ivLen: nat, last: seq<Byte>, ghost n: nat, ghost was: seq<Byte>)
    returns (md: seq<Byte>, k': nat, v': nat, ghost all: seq<Byte>)
    requires h.Ok()
    requires k <= keyLen && (key != null ==> keyLen <= key.Length && key != iv) && (key == null ==> keyLen == 0)
    requires v <= ivLen && (iv != null ==> ivLen <= iv.Length) && (iv == null ==> ivLen == 0)
    requires v > 0 ==> k == keyLen
    requires was == Part(key, k) + Part(iv, v) == Stream(h, data, rounds, n) && Filled(h, data, rounds, n, last, was)
    modifies key, iv
    ensures k <= k' <= keyLen && v <= v' <= ivLen && (v' > 0 ==> k' == keyLen)
    ensures all == Part(key, k') + Part(iv, v') && Filled(h, data, rounds, n + 1, md, all)
    ensures (k' == keyLen && v' == ivLen) || (all == Stream(h, data, rounds, n + 1) && k + v < k' + v')
  {
    hide Repeated, Stream, Digest, Part, Filled, Hash.Ok;
    PartSize(key, k);
    PartSize(iv, v);
    md := Chain(h, last + data, rounds);
    k', v' := Spread(key, k, keyLen, iv, v, ivLen, md);
    all := Part(key, k') + Part(iv, v');
    PartSize(key, k');
    PartSize(iv, v');
    FilledMore(h, data, rounds, n, last, was, md, all);
  }

  method BytesToKey(h: Hash, keyLen: nat, ivLen: nat, data: seq<Byte>, rounds: nat, key: array?<Byte>, iv: array?<Byte>)
    returns (r: nat)
    requires h.Ok() && (key != null ==> keyLen <= key.Length && key != iv) && (iv != null ==> ivLen <= iv.Length)
    modifies key, iv
    ensures data == [] ==>
      r == 0 && Part(key, keyLen) == old(Part(key, keyLen)) && Part(iv, ivLen) == old(Part(iv, ivLen))
    ensures data != [] ==> r == keyLen
    ensures data != [] ==>
      Part(key, keyLen) + Part(iv, ivLen) == Derived(h, data, rounds, Wanted(key, keyLen) + Wanted(iv, ivLen))
  {
    hide Repeated, Stream, Digest, Derived, Part, Filled, Hash.Ok;
    if data == [] {
      return 0;
    }
    var keyTotal := Wanted(key, keyLen);
    var ivTotal := Wanted(iv, ivLen);
    var k: nat, v: nat, md: seq<Byte>, done := 0, 0, [], false;
    ghost var n: nat, all: seq<Byte> := 0, [];
    PartSize(key, 0);
    PartSize(iv, 0);
    NothingFilled(h, data, rounds);
    while !done
      invariant k <= keyTotal && v <= ivTotal && (v > 0 ==> k == keyTotal)
      invariant all == Part(key, k) + Part(iv, v)
      invariant Filled(h, data, rounds, n, md, all) && (!done ==> all == Stream(h, data, rounds, n))
      invariant done ==> k == keyTotal && v == ivTotal
      decreases !done, keyTotal - k + (ivTotal - v)
    {
      md, k, v, all := Round(h, data, rounds, key, k, keyTotal, iv, v, ivTotal, md, n, all);
      n := n + 1;
      done := k == keyTotal && v == ivTotal;
    }
    PartSize(key, k);
    PartSize(iv, v);
    FilledIs(h, data, rounds, n, md, all);
    PartNone(keyLen);
    PartNone(ivLen);
    PartNone(0);
    r := keyLen;
  }

  /** After `n` digests, the last being `md`, the output so far is the start of the stream. */
  ghost predicate Filled(h: Hash, data: seq<Byte>, rounds: nat, n: nat, md: seq<Byte>, all: seq<Byte>) {
    && md == (if n == 0 then [] else Digest(h, data, rounds, n))
    && all <= Stream(h, data, rounds, n)
  }

  lemma NothingFilled(h: Hash, data: seq<Byte>, rounds: nat)
    ensures Filled(h, data, rounds, 0, [], []) && Stream(h, data, rounds, 0) == []
  {
  }

  lemma FilledMore(h: Hash, data: seq<Byte>, rounds: nat, n: nat, last: seq<Byte>, was: seq<Byte>, md: seq<Byte>,
                   all: seq<Byte>)
    requires h.Ok() && Filled(h, data, rounds, n, last, was) && was == Stream(h, data, rounds, n)
    requires md == Repeated(h, last + data, Rounds(rounds))
    requires |was| <= |all| <= |was| + |md| && all == was + md[..|all| - |was|]
    ensures Filled(h, data, rounds, n + 1, md, all) && 0 < |md|
    ensures |all| == |was| + |md| ==> all == Stream(h, data, rounds, n + 1)
  {
    hide Repeated;
    RepeatedSize(h, last + data, Rounds(rounds));
    assert Stream(h, data, rounds, n + 1) == was + md;
    if |all| == |was| + |md| {
      assert md[..|md|] == md;
    }
  }

  lemma FilledIs(h: Hash, data: seq<Byte>, rounds: nat, n: nat, md: seq<Byte>, all: seq<Byte>)
    requires h.Ok() && Filled(h, data, rounds, n, md, all)
    ensures Derived(h, data, rounds, |all|) == all
  {
    hide Stream, Digest;
    DerivedIs(h, data, rounds, n, |all|);
  }
}
