/** The name codings as they run: in place, in buffers sized by the length estimates. */
module NameBuffers {
  import opened Bytes
  import opened Buffers
  import opened Arith
  import opened Ciphers
  import opened BaseChange
  import opened Names

  /** Translate the first `len` digits of a buffer to text, in place. */
  method ToTextInPlace(narrow: bool, buf: array<Byte>, len: nat)
    requires len <= buf.Length
    modifies buf
    ensures buf[..] == ToText(narrow, old(buf[..len])) + old(buf[len..])
  {
    hide ToAscii32, ToAscii64;
    for i := 0 to len
      invariant forall j :: 0 <= j < i ==> buf[j] == ToText(narrow, old(buf[..len]))[j]
      invariant forall j :: i <= j < buf.Length ==> buf[j] == old(buf[j])
    {
      buf[i] := if narrow then ToAscii32(buf[i]) else ToAscii64(buf[i]);
    }
  }

  /** Armor the first `len` bytes of a zeroed buffer in place; the terminator behind the text stays zero. */
  method ArmorInPlace(narrow: bool, buf: array<Byte>, len: nat) returns (encLen: nat)
    requires 0 < len && TextLen(narrow, len) < buf.Length && len <= buf.Length
    requires buf[buf.Length - 1] == 0 && forall i :: len <= i < buf.Length ==> buf[i] == 0
    modifies buf
    ensures encLen == TextLen(narrow, len) && buf[..encLen] == Armor(narrow, old(buf[..len])) && buf[encLen] == 0
  {
    hide ToText, Digits, Val, Start, InBase, TextLen;
    encLen := TextLen(narrow, len);
    RepackLengthsOf(narrow, len);
    BytesInBase(buf[..len]);
    ghost var n := ChangeBase2Inline(buf, len, 8, Width(narrow), true, encLen);
    StartPositive(len, 8);
    CountUnique(n, encLen, Width(narrow), Start(len, 8));
    ghost var tail := buf[encLen..];
    ToTextInPlace(narrow, buf, encLen);
    assert buf[encLen] == tail[0];
  }

  lemma StartPositive(n: nat, w: nat)
    requires 0 < n && 0 < w
    ensures 0 < Start(n, w)
  {
    StartMono(1, n, w);
  }

  lemma RepackLengthsOf(narrow: bool, n: nat)
    requires 0 < n
    ensures var m := TextLen(narrow, n);
      0 < m && n <= m && Start(m - 1, Width(narrow)) < Start(n, 8) <= Start(m, Width(narrow))
  {
    RepackLengths(n);
  }

  lemma BytesInBase(s: seq<Byte>)
    ensures InBase(s, 8)
  {
    Pow2Word();
  }

  /** The name and its padding behind two bytes kept free for the checksum. */
  method LayOut(name: Name, padding: Byte, bufferLength: nat) returns (buf: array<Byte>)
    requires |name| + padding + 2 <= bufferLength
    ensures fresh(buf) && buf.Length == bufferLength
    ensures buf[..] == [0, 0] + (name + seq(padding, _ => padding)) + Zeros(bufferLength - 2 - |name| - padding)
  {
    buf := new Byte[bufferLength](_ => 0);
    ghost var zeros := buf[..];
    AllZeros(zeros);
    var pad := seq(padding, _ => padding);
    CopyInto(buf, |name| + 2, pad);
    ghost var first := buf[..];
    CopyInto(buf, 2, name);
    NameAndPad(zeros, name, pad, first, buf[..]);
  }

  /** Padding copied behind the place of the name, then the name, into a zeroed buffer. */
  lemma NameAndPad(zeros: seq<Byte>, name: seq<Byte>, pad: seq<Byte>, first: seq<Byte>, second: seq<Byte>)
    requires zeros == Zeros(|zeros|) && |name| + |pad| + 2 <= |zeros|
    requires first == zeros[..|name| + 2] + pad + zeros[|name| + 2 + |pad|..]
    requires second == first[..2] + name + first[2 + |name|..]
    ensures second == [0, 0] + (name + pad) + Zeros(|zeros| - 2 - |name| - |pad|)
  {
    assert first[..2] == [0, 0];
    assert first[2 + |name|..] == pad + zeros[|name| + 2 + |pad|..];
    assert zeros[|name| + 2 + |pad|..] == Zeros(|zeros| - 2 - |name| - |pad|);
  }

  /** Checksum in front, then the rest enciphered under it, in place. */
  method SealBlock(k: Coding, buf: array<Byte>, p: seq<Byte>, iv: Option<Word64>) returns (next: Option<Word64>)
    requires k.Ok() && k.BlockCoding? && |p| % k.cipher.unit == 0 && |p| + 2 <= buf.Length
    requires buf[..] == [0, 0] + p + Zeros(buf.Length - 2 - |p|)
    modifies buf
    ensures var (mac, n) := Mac16(k.cipher, p, iv);
      next == n && buf[..] == MacBytes(mac) + k.cipher.blockEncode(p, k.Seed(mac, iv)) + Zeros(buf.Length - 2 - |p|)
  {
    hide Mac16, MacBytes, Coding.Seed;
    ghost var z := Zeros(buf.Length - 2 - |p|);
    var len := |p|;
    assert buf[2..2 + len] == p;
    var (mac, n) := Mac16(k.cipher, buf[2..2 + len], iv);
    CopyInto(buf, 0, MacBytes(mac));
    assert buf[..] == MacBytes(mac) + p + z;
    assert buf[2..2 + len] == p;
    CopyInto(buf, 2, k.cipher.blockEncode(buf[2..2 + len], k.Seed(mac, iv)));
    next := n;
  }

  method BlockEncodeName(k: Coding, name: Name, iv: Option<Word64>, bufferLength: nat) returns (r: Coded)
    requires k.Ok() && k.BlockCoding? && k.MaxEncodedNameLen(|name|) < bufferLength
    ensures r == EncodeName(k, name, iv)
  {
    hide ToText, Digits, Val, Start, InBase, TextLen, Armor, Mac16, MacBytes, Coding.Seed;
    PaddingFits(|name|, k.bs);
    var padding := k.bs - |name| % k.bs;
    var len := |name| + padding;
    RepackLengthsOf(k.narrow, len + 2);
    MultipleOf(len, k.bs, k.cipher.unit);
    var p := name + seq(padding, _ => padding);
    assert p == Padded(name, k.bs);
    var buf := LayOut(name, padding, bufferLength);
    var next := SealBlock(k, buf, p, iv);
    ghost var mac := Mac16(k.cipher, p, iv).0;
    assert buf[..len + 2] == MacBytes(mac) + k.cipher.blockEncode(p, k.Seed(mac, iv));
    var encLen := ArmorInPlace(k.narrow, buf, len + 2);
    r := Ok((buf[..encLen], next));
  }

  method LayOutStream(checksum: seq<Byte>, e: seq<Byte>, front: bool, bufferLength: nat) returns (buf: array<Byte>)
    requires |checksum| == 2 && |e| + 2 <= bufferLength
    ensures fresh(buf) && buf.Length == bufferLength
    ensures buf[..|e| + 2] == if front then checksum + e else e + checksum
    ensures forall i :: |e| + 2 <= i < buf.Length ==> buf[i] == 0
  {
    hide *;
    buf := new Byte[bufferLength](_ => 0);
    ghost var zeros := buf[..];
    AllZeros(zeros);
    if front {
      CopyInto(buf, 0, checksum);
      ghost var first := buf[..];
      CopyInto(buf, 2, e);
      TwoCopies(zeros, checksum, e, first, buf[..]);
    } else {
      CopyInto(buf, 0, e);
      ghost var first := buf[..];
      CopyInto(buf, |e|, checksum);
      TwoCopies(zeros, e, checksum, first, buf[..]);
    }
  }

  lemma AllZeros(s: seq<Byte>)
    requires forall i :: 0 <= i < |s| ==> s[i] == 0
    ensures s == Zeros(|s|)
  {
  }

  /** Two copies one after another into a zeroed buffer. */
  lemma TwoCopies(zeros: seq<Byte>, a: seq<Byte>, b: seq<Byte>, first: seq<Byte>, second: seq<Byte>)
    requires zeros == Zeros(|zeros|) && |a| + |b| <= |zeros|
    requires first == zeros[..0] + a + zeros[|a|..] && second == first[..|a|] + b + first[|a| + |b|..]
    ensures |second| == |zeros| && second[..|a| + |b|] == a + b
    ensures forall i :: |a| + |b| <= i < |zeros| ==> second[i] == 0
  {
    assert first[..|a|] == a;
    assert forall i :: |a| <= i < |zeros| ==> first[i] == zeros[i];
  }

  /** Stream coding: checksum at the front, or at the back in version 0. */
  method StreamEncodeName(k: Coding, name: Name, iv: Option<Word64>, bufferLength: nat) returns (r: Coded)
    requires k.Ok() && k.StreamCoding? && k.MaxEncodedNameLen(|name|) < bufferLength
    ensures r == EncodeName(k, name, iv)
  {
    hide ToText, Digits, Val, Start, InBase, TextLen, Armor, Mac16, MacBytes, Coding.Seed;
    if name == [] {
      return Err;
    }
    RepackLengthsOf(false, |name| + 2);
    var (mac, next) := Mac16(k.cipher, name, iv);
    var e := k.cipher.streamEncode(name, k.Seed(mac, iv));
    var buf := LayOutStream(MacBytes(mac), e, k.version >= 1, bufferLength);
    var encLen := ArmorInPlace(false, buf, |name| + 2);
    r := Ok((buf[..encLen], next));
  }

  /** Text to digits, then the digits repacked to bytes over themselves. */
  method DearmorBuffer(narrow: bool, text: Name) returns (r: Option<seq<Byte>>)
    requires text != []
    ensures r == Dearmor(narrow, text)
  {
    hide Digits, Val, Start, InBase, FromText, BinaryLen;
    var d := FromText(narrow, text);
    var buf := new Byte[|text|];
    Fill(buf, d);
    if !InBase(buf[..], Width(narrow)) {
      return None;
    }
    assert buf[..|text|] == d;
    WideEnough(|text|, Width(narrow), 8);
    ghost var n := ChangeBase2Inline(buf, |text|, Width(narrow), 8, false, |text|);
    var decLen := BinaryLen(narrow, |text|);
    BinaryFits(narrow, |text|, n);
    DigitsPrefix(Val(d, Width(narrow)), 8, decLen, n);
    assert buf[..decLen] == buf[..n][..decLen];
    r := Some(buf[..decLen]);
  }

  lemma WideEnough(n: nat, w: nat, v: nat)
    requires w <= v
    ensures Start(n, w) <= Start(n, v)
  {
    StartSum(n, w, v - w);
  }

  lemma BinaryFits(narrow: bool, len: nat, n: nat)
    requires Start(len, Width(narrow)) < Start(n + 1, 8)
    ensures BinaryLen(narrow, len) <= n
  {
  }

  method BlockDecodeName(k: Coding, text: Name, iv: Option<Word64>, bufferLength: nat) returns (r: Coded)
    requires k.Ok() && k.BlockCoding? && k.MaxDecodedNameLen(|text|) < bufferLength
    ensures r == DecodeName(k, text, iv)
  {
    hide Dearmor, Mac16, MacOf, Coding.Seed;
    var decodedStreamLen := BinaryLen(k.narrow, |text|) - 2;
    if decodedStreamLen < k.bs {
      return Err;
    }
    var raw := DearmorBuffer(k.narrow, text);
    if raw.None? || decodedStreamLen % k.cipher.unit != 0 {
      return Err;
    }
    var mac := MacOf(raw.value[..2]);
    var p := k.cipher.blockDecode(raw.value[2..], k.Seed(mac, iv));
    var padding := p[decodedStreamLen - 1];
    var finalSize := decodedStreamLen - padding;
    if padding > k.bs || finalSize < 0 {
      return Err;
    }
    assert finalSize < bufferLength;
    var (mac2, next) := Mac16(k.cipher, p, iv);
    if mac2 != mac {
      return Err;
    }
    r := Ok((p[..finalSize], next));
  }

  method StreamDecodeName(k: Coding, text: Name, iv: Option<Word64>, bufferLength: nat) returns (r: Coded)
    requires k.Ok() && k.StreamCoding? && k.MaxDecodedNameLen(|text|) < bufferLength
    ensures r == DecodeName(k, text, iv)
  {
    hide Dearmor, Mac16, MacOf, Coding.Seed;
    var decodedStreamLen := BinaryLen(false, |text|) - 2;
    if |text| <= 2 || decodedStreamLen <= 0 {
      return Err;
    }
    assert decodedStreamLen <= bufferLength;
    var raw := DearmorBuffer(false, text);
    if raw.None? {
      return Err;
    }
    var mac, e;
    if k.version >= 1 {
      mac, e := MacOf(raw.value[..2]), raw.value[2..];
    } else {
      mac, e := MacOf(raw.value[decodedStreamLen..]), raw.value[..decodedStreamLen];
    }
    var p := k.cipher.streamDecode(e, k.Seed(mac, iv));
    var (mac2, next) := Mac16(k.cipher, p, iv);
    if mac2 != mac {
      return Err;
    }
    r := Ok((p, next));
  }
}
