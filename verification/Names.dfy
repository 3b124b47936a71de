/** Encoding of single file names: checksum, cipher, base 64 or base 32 text. */
module Names {
  import opened Bytes
  import opened Arith
  import opened Ciphers
  import opened BaseChange

  /** A name is a string of bytes; `/` is 47, `.` is 46, `+` is 43. */
  type Name = seq<Byte>

  // ---------------------------------------------------------------- text alphabets

  function ToAscii64(x: Byte): Byte {
    if x > 11 then (if x > 37 then (x + 59) % 256 else x + 53)
    else if x == 0 then 44 else if x == 1 then 45 else x + 46
  }

  function FromAscii64(ch: Byte): Byte {
    if ch >= 65 then (if ch >= 97 then ch - 59 else ch - 53)
    else if ch == 44 then 0 else if ch == 45 then 1
    else if 48 <= ch <= 57 then ch - 46 else 240
  }

  function ToAscii32(x: Byte): Byte { if x < 26 then x + 65 else (x + 24) % 256 }

  function FromAscii32(ch: Byte): Byte {
    var up := if 97 <= ch <= 122 then ch - 32 else ch;
    if up >= 65 then up - 65 else (up + 232) % 256
  }

  /** The alphabets in order: comma, dash, digits, capitals and small letters; capitals and digits from 2. */
  lemma Alphabets(x: Byte)
    ensures ToAscii64(0) == ',' as int && ToAscii64(1) == '-' as int
    ensures 2 <= x < 12 ==> ToAscii64(x) == ('0' as int) + (x - 2)
    ensures 12 <= x < 38 ==> ToAscii64(x) == ('A' as int) + (x - 12)
    ensures 38 <= x < 64 ==> ToAscii64(x) == ('a' as int) + (x - 38)
    ensures x < 32 ==> ToAscii32(x) == if x < 26 then ('A' as int) + x else ('2' as int) + (x - 26)
    ensures 97 <= x <= 122 ==> FromAscii32(x) == FromAscii32(x - 32)
  {
  }

  function ToText(narrow: bool, s: seq<Byte>): (r: seq<Byte>)
    ensures |r| == |s|
  {
    seq(|s|, i requires 0 <= i < |s| => if narrow then ToAscii32(s[i]) else ToAscii64(s[i]))
  }

  function FromText(narrow: bool, s: seq<Byte>): (r: seq<Byte>)
    ensures |r| == |s|
  {
    seq(|s|, i requires 0 <= i < |s| => if narrow then FromAscii32(s[i]) else FromAscii64(s[i]))
  }

  /** No separator, no dot, no link mark and no terminator. */
  predicate Clean(s: seq<Byte>) {
    forall i :: 0 <= i < |s| ==> s[i] != 47 && s[i] != 46 && s[i] != 43 && s[i] != 0
  }

  function Width(narrow: bool): nat { if narrow then 5 else 6 }

  lemma WidthPow(narrow: bool)
    ensures Pow2(Width(narrow)) == if narrow then 32 else 64
  {
    assert Pow2(3) == 8;
    assert Pow2(5) == 32;
    assert Pow2(6) == 64;
  }

  lemma TextRoundTrip(narrow: bool, s: seq<Byte>)
    requires InBase(s, Width(narrow))
    ensures FromText(narrow, ToText(narrow, s)) == s && Clean(ToText(narrow, s))
  {
    hide Pow2, FromAscii32, ToAscii32, FromAscii64, ToAscii64;
    WidthPow(narrow);
    forall i | 0 <= i < |s|
      ensures FromText(narrow, ToText(narrow, s))[i] == s[i]
      ensures Clean([ToText(narrow, s)[i]])
    {
      CharRoundTrip(s[i]);
    }
    CleanAll(ToText(narrow, s));
  }

  lemma CharRoundTrip(x: Byte)
    ensures x < 64 ==> FromAscii64(ToAscii64(x)) == x && Clean([ToAscii64(x)])
    ensures x < 32 ==> FromAscii32(ToAscii32(x)) == x && Clean([ToAscii32(x)])
  {
  }

  lemma CleanAll(s: seq<Byte>)
    requires forall i :: 0 <= i < |s| ==> Clean([s[i]])
    ensures Clean(s)
  {
    forall i | 0 <= i < |s| ensures s[i] != 47 && s[i] != 46 && s[i] != 43 && s[i] != 0 {
      assert Clean([s[i]]) && [s[i]][0] == s[i];
    }
  }

  // ---------------------------------------------------------------- bytes to text and back

  function TextLen(narrow: bool, n: nat): nat { if narrow then B256ToB32Bytes(n) else B256ToB64Bytes(n) }

  function BinaryLen(narrow: bool, n: nat): nat { if narrow then B32ToB256Bytes(n) else B64ToB256Bytes(n) }

  function Armor(narrow: bool, s: seq<Byte>): (r: seq<Byte>)
    ensures |r| == TextLen(narrow, |s|)
  {
    ToText(narrow, Digits(Val(s, 8), Width(narrow), TextLen(narrow, |s|)))
  }

  /** Nothing for text with characters outside the alphabet. */
  function Dearmor(narrow: bool, t: seq<Byte>): (r: Option<seq<Byte>>)
    ensures r.Some? ==> |r.value| == BinaryLen(narrow, |t|)
  {
    var d := FromText(narrow, t);
    if InBase(d, Width(narrow)) then Some(Digits(Val(d, Width(narrow)), 8, BinaryLen(narrow, |t|))) else None
  }

  lemma ArmorRoundTrip(narrow: bool, s: seq<Byte>)
    ensures Dearmor(narrow, Armor(narrow, s)) == Some(s) && Clean(Armor(narrow, s))
    ensures BinaryLen(narrow, TextLen(narrow, |s|)) == |s|
  {
    hide Digits, Val, Start, InBase, ToText, FromText, Clean;
    var w, n := Width(narrow), TextLen(narrow, |s|);
    var d := Digits(Val(s, 8), w, n);
    DigitsInBase(Val(s, 8), w, n);
    TextRoundTrip(narrow, d);
    RepackLengths(|s|);
    RepackRoundTrip(s, w, n, |s|);
    var back := Digits(Val(d, w), 8, |s|);
    assert back[..|s|] == back;
  }

  /** Any text within the alphabet is accepted, spare bits or not, and keeps its bits in place. */
  lemma DearmorBits(narrow: bool, t: seq<Byte>, p: nat)
    requires InBase(FromText(narrow, t), Width(narrow)) && p < BinaryLen(narrow, |t|) * 8
    ensures p < |t| * Width(narrow)
    ensures Dearmor(narrow, t).Some?
    ensures BitAt(Dearmor(narrow, t).value, 8, p) == BitAt(FromText(narrow, t), Width(narrow), p)
  {
    BinaryLengths(|t|);
    hide Digits, Val, InBase, FromText, Bit, BitAt;
    var d, w, n := FromText(narrow, t), Width(narrow), BinaryLen(narrow, |t|);
    DigitsBit(Val(d, w), 8, n, p);
    ValBit(d, w, p);
  }

  // ---------------------------------------------------------------- the two name codings

  /** The MAC folded to 16 bits; with chaining the IV becomes the full MAC. */
  function Mac16(c: Cipher, data: seq<Byte>, iv: Option<Word64>): (r: (nat, Option<Word64>))
    ensures r.0 < 0x1_0000
  {
    hide BitXor;
    Pow2Half();
    Pow2Quarter();
    var m := c.mac64(data, iv);
    var m32 := BitXor(32, m / 0x1_0000_0000, m % 0x1_0000_0000);
    (BitXor(16, m32 / 0x1_0000, m32 % 0x1_0000), if iv.Some? then Some(m) else None)
  }

  /** Bit `i` of the folded MAC is the sum of the bits `i`, `i + 16`, `i + 32` and `i + 48` of the MAC. */
  lemma Mac16Bits(c: Cipher, data: seq<Byte>, iv: Option<Word64>, i: nat)
    requires i < 16
    ensures var m := c.mac64(data, iv);
      Bit(Mac16(c, data, iv).0, i) == (Bit(m, i) + Bit(m, i + 16) + Bit(m, i + 32) + Bit(m, i + 48)) % 2
  {
    hide Bit, BitXor, Halved, Pow2;
    var m := c.mac64(data, iv);
    var m32 := BitXor(32, m / 0x1_0000_0000, m % 0x1_0000_0000);
    XorBit(16, m32 / 0x1_0000, m32 % 0x1_0000, i);
    HalvedQuarter(m32);
    HalvedBit(m32, 16, i);
    LowPartBit(m32, i);
    FoldBit(m, i);
    FoldBit(m, i + 16);
  }

  function MacBytes(mac: nat): (r: seq<Byte>)
    requires mac < 0x1_0000
    ensures |r| == 2
  {
    [mac / 256, mac % 256]
  }

  function MacOf(b: seq<Byte>): (r: nat)
    requires |b| == 2
    ensures r < 0x1_0000
  {
    var hi: nat, lo: nat := b[0], b[1];
    hi * 256 + lo
  }

  /** The high byte comes first. */
  lemma ChecksumOrder(mac: nat)
    requires mac < 0x1_0000
    ensures var b := MacBytes(mac); (b[0] as int) * 256 + (b[1] as int) == mac
  {
  }

  lemma MacBytesInverse(mac: nat)
    requires mac < 0x1_0000
    ensures MacOf(MacBytes(mac)) == mac
  {
  }

  lemma SumInverse(b: seq<Byte>)
    requires |b| == 2
    ensures MacBytes(MacOf(b)) == b
  {
    DivUnique(MacOf(b), 256, b[0], b[1]);
  }

  datatype Coding =
    | BlockCoding(cipher: Cipher, bs: nat, narrow: bool, version: nat)
    | StreamCoding(cipher: Cipher, version: nat)
  {
    /** Block sizes the block coding is built with. */
    ghost predicate Ok() {
      cipher.Sound() && (BlockCoding? ==> 0 < bs < 128 && bs % cipher.unit == 0)
    }

    predicate Narrow() { BlockCoding? && narrow }

    /** The IV mixed into the cipher's IV: only newer versions use the chained one. */
    function Seed(mac: nat, iv: Option<Word64>): Word64
      requires mac < 0x1_0000
    {
      var chained := iv.Some? && (if BlockCoding? then version >= 3 else version >= 2);
      XorWord(mac, if chained then iv.value else 0)
    }

    function MaxEncodedNameLen(len: nat): nat
      requires BlockCoding? ==> 0 < bs
    {
      if BlockCoding? then TextLen(narrow, (len + bs) / bs * bs + 2) else TextLen(false, 2 + len)
    }

    function MaxDecodedNameLen(len: nat): int {
      BinaryLen(Narrow(), len) - 2
    }
  }

  /** Both codings exist, in every version, base and block size that fits a padding byte. */
  lemma CodingsExist(mac64: (seq<Byte>, Option<Word64>) -> Word64, bs: nat, narrow: bool, version: nat)
    requires 0 < bs < 128
    ensures BlockCoding(PlainCipher(mac64), bs, narrow, version).Ok()
    ensures StreamCoding(PlainCipher(mac64), version).Ok()
  {
    PlainSound(mac64, bs);
  }

  function Padding(name: Name, bs: nat): (r: nat)
    requires 0 < bs
    ensures 0 < r <= bs && (|name| + r) % bs == 0
  {
    PaddingFits(|name|, bs);
    bs - |name| % bs
  }

  lemma PaddingFits(n: nat, bs: nat)
    requires 0 < bs
    ensures 0 < bs - n % bs <= bs && (n + (bs - n % bs)) % bs == 0
    ensures n + (bs - n % bs) == (n + bs) / bs * bs
  {
    hide Start, BlockOf, PosIn;
    StartDiv(n, bs);
    var k := BlockOf(n, bs);
    StartNext(k, bs);
    DivUnique(n + (bs - n % bs), bs, k + 1, 0);
    DivUnique(n + bs, bs, k + 1, PosIn(n, bs));
    assert (k + 1) * bs == Start(k + 1, bs) by { StartIs(k + 1, bs); }
  }

  lemma StartIs(k: nat, w: nat)
    ensures Start(k, w) == k * w
  {
  }

  function Padded(name: Name, bs: nat): (r: seq<Byte>)
    requires 0 < bs < 128
    ensures |r| == |name| + Padding(name, bs) && bs <= |r| && |r| % bs == 0
  {
    PaddedLong(|name|, bs);
    name + seq(Padding(name, bs), _ => Padding(name, bs))
  }

  lemma PaddedLong(n: nat, bs: nat)
    requires 0 < bs
    ensures bs <= n + (bs - n % bs)
  {
    StartDiv(n, bs);
  }

  /** A coded name and the IV for the level below it. */
  type Coded = Outcome<(Name, Option<Word64>)>

  function EncodeName(k: Coding, name: Name, iv: Option<Word64>): (r: Coded)
    requires k.Ok()
  {
    match k
    case BlockCoding(cipher, bs, narrow, _) =>
      var p := Padded(name, bs);
      var (mac, next) := Mac16(cipher, p, iv);
      if |p| % cipher.unit != 0 then Err
      else Ok((Armor(narrow, MacBytes(mac) + cipher.blockEncode(p, k.Seed(mac, iv))), next))
    case StreamCoding(cipher, version) =>
      if name == [] then Err
      else
        var (mac, next) := Mac16(cipher, name, iv);
        var e := cipher.streamEncode(name, k.Seed(mac, iv));
        Ok((Armor(false, if version >= 1 then MacBytes(mac) + e else e + MacBytes(mac)), next))
  }

  function DecodeName(k: Coding, text: Name, iv: Option<Word64>): (r: Coded)
    requires k.Ok()
  {
    var raw := Dearmor(k.Narrow(), text);
    var len := BinaryLen(k.Narrow(), |text|) - 2;
    match k
    case BlockCoding(cipher, bs, _, _) =>
      if len < bs || raw.None? || len % cipher.unit != 0 then Err
      else
        var mac := MacOf(raw.value[..2]);
        var p := cipher.blockDecode(raw.value[2..], k.Seed(mac, iv));
        var padding := p[len - 1];
        var (mac2, next) := Mac16(cipher, p, iv);
        if padding > bs || len < padding || mac2 != mac then Err else Ok((p[..len - padding], next))
    case StreamCoding(cipher, version) =>
      if |text| <= 2 || len <= 0 || raw.None? then Err
      else
        var mac := MacOf(if version >= 1 then raw.value[..2] else raw.value[len..]);
        var e := if version >= 1 then raw.value[2..] else raw.value[..len];
        var p := cipher.streamDecode(e, k.Seed(mac, iv));
        var (mac2, next) := Mac16(cipher, p, iv);
        if mac2 != mac then Err else Ok((p, next))
  }

  /** What the MAC of a name covers: the name, with the block coding also its padding. */
  function Covered(k: Coding, name: Name): seq<Byte>
    requires k.Ok()
  {
    if k.BlockCoding? then Padded(name, k.bs) else name
  }

  /** The padding fills the last block and every byte of it tells its length. */
  lemma PaddedBytes(name: Name, bs: nat, i: nat)
    requires 0 < bs < 128 && i < |Padded(name, bs)|
    ensures |name| < |Padded(name, bs)| <= |name| + bs && |Padded(name, bs)| % bs == 0
    ensures Padded(name, bs)[i] == if i < |name| then name[i] else |Padded(name, bs)| - |name|
  {
  }

  /** With chaining, the IV for the level below is the MAC of the name under the IV of its own level. */
  lemma ChainedIV(k: Coding, name: Name, iv: Word64)
    requires k.Ok()
    ensures var r := EncodeName(k, name, Some(iv));
      r.Ok? ==> r.value.1 == Some(k.cipher.mac64(Covered(k, name), Some(iv)))
    ensures EncodeName(k, name, None).Ok? ==> EncodeName(k, name, None).value.1 == None
  {
    hide Armor, BitXor, Coding.Seed, MacBytes;
  }

  /** A name as it is laid out before it becomes text: checksum and enciphered bytes. */
  function LaidOut(k: Coding, x: seq<Byte>, iv: Option<Word64>): seq<Byte> {
    var mac := Mac16(k.cipher, x, iv).0;
    var seed := k.Seed(mac, iv);
    var body := if k.BlockCoding? then k.cipher.blockEncode(x, seed) else k.cipher.streamEncode(x, seed);
    if k.BlockCoding? || k.version >= 1 then MacBytes(mac) + body else body + MacBytes(mac)
  }

  /** A text that has the layout is accepted, whoever wrote it, and hands on the MAC of what was decoded. */
  lemma DecodeAccepts(k: Coding, text: Name, iv: Option<Word64>, x: seq<Byte>)
    requires k.Ok() && Dearmor(k.Narrow(), text) == Some(LaidOut(k, x, iv))
    requires k.BlockCoding? ==> k.bs <= |x| && |x| % k.cipher.unit == 0 && x[|x| - 1] <= k.bs && x[|x| - 1] <= |x|
    requires k.StreamCoding? ==> x != [] && 2 < |text|
    ensures DecodeName(k, text, iv) ==
      Ok((if k.BlockCoding? then x[..|x| - x[|x| - 1]] else x, if iv.Some? then Some(k.cipher.mac64(x, iv)) else None))
  {
    hide Dearmor, BitXor, Coding.Seed, MacOf, MacBytes, BinaryLen;
    var mac := Mac16(k.cipher, x, iv).0;
    MacBytesInverse(mac);
    var seed := k.Seed(mac, iv);
    var e := if k.BlockCoding? then k.cipher.blockEncode(x, seed) else k.cipher.streamEncode(x, seed);
    assert (MacBytes(mac) + e)[..2] == MacBytes(mac) && (MacBytes(mac) + e)[2..] == e;
    assert (e + MacBytes(mac))[|e|..] == MacBytes(mac) && (e + MacBytes(mac))[..|e|] == e;
  }

  lemma DecodedBlock(k: Coding, text: Name, iv: Option<Word64>) returns (x: seq<Byte>)
    requires k.Ok() && k.BlockCoding? && DecodeName(k, text, iv).Ok?
    ensures Dearmor(k.Narrow(), text) == Some(LaidOut(k, x, iv))
    ensures k.bs <= |x| && |x| % k.cipher.unit == 0 && x[|x| - 1] <= k.bs && x[|x| - 1] <= |x|
  {
    hide Dearmor, BitXor, Coding.Seed, MacOf, MacBytes, Mac16, BinaryLen;
    var raw := Dearmor(k.Narrow(), text).value;
    SumInverse(raw[..2]);
    x := k.cipher.blockDecode(raw[2..], k.Seed(MacOf(raw[..2]), iv));
    assert raw == raw[..2] + raw[2..];
  }

  lemma DecodedStream(k: Coding, text: Name, iv: Option<Word64>) returns (x: seq<Byte>)
    requires k.Ok() && k.StreamCoding? && DecodeName(k, text, iv).Ok?
    ensures Dearmor(k.Narrow(), text) == Some(LaidOut(k, x, iv)) && x != [] && 2 < |text|
  {
    hide Dearmor, BitXor, Coding.Seed, MacOf, MacBytes, Mac16, BinaryLen;
    var raw := Dearmor(k.Narrow(), text).value;
    var len := |raw| - 2;
    if k.version >= 1 {
      SumInverse(raw[..2]);
      x := k.cipher.streamDecode(raw[2..], k.Seed(MacOf(raw[..2]), iv));
      assert raw == raw[..2] + raw[2..];
    } else {
      SumInverse(raw[len..]);
      x := k.cipher.streamDecode(raw[..len], k.Seed(MacOf(raw[len..]), iv));
      assert raw == raw[..len] + raw[len..];
    }
  }

  /** And nothing else is: what was accepted has the layout, so it is decoded as above. */
  lemma DecodedIV(k: Coding, text: Name, iv: Option<Word64>) returns (x: seq<Byte>)
    requires k.Ok() && DecodeName(k, text, iv).Ok?
    ensures Dearmor(k.Narrow(), text) == Some(LaidOut(k, x, iv))
    ensures var (name, next) := DecodeName(k, text, iv).value;
      && name <= x && (k.StreamCoding? ==> x == name != [])
      && (k.BlockCoding? ==> k.bs <= |x| && |x| % k.cipher.unit == 0 && |x| - |name| == x[|x| - 1] <= k.bs)
      && next == (if iv.Some? then Some(k.cipher.mac64(x, iv)) else None)
  {
    hide DecodeName, Dearmor, LaidOut;
    if k.BlockCoding? {
      x := DecodedBlock(k, text, iv);
    } else {
      x := DecodedStream(k, text, iv);
    }
    DecodeAccepts(k, text, iv, x);
  }

  /** The cipher's IV is the checksum combined, bit by bit, with the chained IV where the version uses it. */
  lemma SeedBits(k: Coding, mac: nat, iv: Option<Word64>, i: nat)
    requires mac < 0x1_0000 && i < 64
    ensures Bit(k.Seed(mac, iv), i) ==
      if iv.Some? && k.version >= (if k.BlockCoding? then 3 else 2) then (Bit(mac, i) + Bit(iv.value, i)) % 2
      else Bit(mac, i)
  {
    hide BitXor, Bit;
    XorBit(64, mac, if iv.Some? then iv.value else 0, i);
    XorBit(64, mac, 0, i);
    ZeroBits(i);
  }

  lemma MultipleOf(n: nat, bs: nat, unit: nat)
    requires 0 < unit && 0 < bs && n % bs == 0 && bs % unit == 0
    ensures n % unit == 0
  {
    hide Start, BlockOf, PosIn;
    StartDiv(n, bs);
    StartDiv(bs, unit);
    var q, r := BlockOf(n, bs), BlockOf(bs, unit);
    assert n == Start(q * r, unit) by { StartIs(q, bs); StartIs(r, unit); StartIs(q * r, unit); MulAssoc(q, r, unit); }
    DivUnique(n, unit, q * r, 0);
  }

  /** Block coding: for every name, block size, base, version and chained IV. */
  lemma BlockNameRoundTrip(k: Coding, name: Name, iv: Option<Word64>)
    requires k.Ok() && k.BlockCoding?
    ensures var r := EncodeName(k, name, iv);
      && r.Ok? && |r.value.0| == k.MaxEncodedNameLen(|name|) && Clean(r.value.0)
      && DecodeName(k, r.value.0, iv) == Ok((name, r.value.1))
  {
    hide Armor, Dearmor, Mac16, Clean, TextLen, BinaryLen, MacOf, MacBytes, Coding.Seed;
    var p := Padded(name, k.bs);
    MultipleOf(|p|, k.bs, k.cipher.unit);
    PaddingFits(|name|, k.bs);
    var (mac, next) := Mac16(k.cipher, p, iv);
    MacBytesInverse(mac);
    var e := k.cipher.blockEncode(p, k.Seed(mac, iv));
    var b := MacBytes(mac) + e;
    ArmorRoundTrip(k.narrow, b);
    assert b[..2] == MacBytes(mac) && b[2..] == e;
    assert p[..|p| - Padding(name, k.bs)] == name;
  }

  /** Stream coding: every non-empty name, all interface versions. */
  lemma StreamNameRoundTrip(k: Coding, name: Name, iv: Option<Word64>)
    requires k.Ok() && k.StreamCoding? && name != []
    ensures var r := EncodeName(k, name, iv);
      && r.Ok? && |r.value.0| == k.MaxEncodedNameLen(|name|) && Clean(r.value.0)
      && DecodeName(k, r.value.0, iv) == Ok((name, r.value.1))
  {
    hide Armor, Dearmor, Mac16, Clean, TextLen, BinaryLen, MacOf, MacBytes, Coding.Seed;
    var (mac, next) := Mac16(k.cipher, name, iv);
    MacBytesInverse(mac);
    var e := k.cipher.streamEncode(name, k.Seed(mac, iv));
    var b := if k.version >= 1 then MacBytes(mac) + e else e + MacBytes(mac);
    ArmorRoundTrip(false, b);
    assert (MacBytes(mac) + e)[..2] == MacBytes(mac) && (MacBytes(mac) + e)[2..] == e;
    assert (e + MacBytes(mac))[|e|..] == MacBytes(mac) && (e + MacBytes(mac))[..|e|] == e;
    TextLong(|b|);
  }

  lemma TextLong(n: nat)
    requires 3 <= n
    ensures 2 < TextLen(false, n)
  {
  }
}
