/** Standard base64 (section 4 of RFC 4648), used for key data in the configuration. */
module Base64 {
  import opened Bytes
  import BaseChange

  type Sextet = x: int | 0 <= x < 64

  const EQUALS: Byte := 61

  function Ascii(x: Sextet): Byte {
    if x < 26 then 65 + x
    else if x < 52 then 97 + (x - 26)
    else if x < 62 then 48 + (x - 52)
    else if x == 62 then 43
    else 47
  }

  /** What a character means to the decoder. */
  datatype Symbol = Digit(x: Sextet) | Space | Pad | Invalid

  function Symbolic(v: Byte): Symbol {
    if 65 <= v <= 90 then Digit(v - 65)
    else if 97 <= v <= 122 then Digit(v - 97 + 26)
    else if 48 <= v <= 57 then Digit(v - 48 + 52)
    else if v == 43 then Digit(62)
    else if v == 47 then Digit(63)
    else if v == 9 then Space
    else if v == EQUALS then Pad
    else Invalid
  }

  /** The alphabet of table 1 of RFC 4648, and what else the decoder knows: tab, pad and nothing more. */
  lemma Alphabet(x: Sextet, v: Byte)
    ensures Ascii(x) ==
      if x < 26 then ('A' as int) + x
      else if x < 52 then ('a' as int) + (x - 26)
      else if x < 62 then ('0' as int) + (x - 52)
      else if x == 62 then '+' as int
      else '/' as int
    ensures Symbolic(v) == Digit(x) <==> v == Ascii(x)
    ensures Symbolic(v).Space? <==> v == '\t' as int
    ensures Symbolic(v).Pad? <==> v == '=' as int
  {
  }

  // ---------------------------------------------------------------- encoding

  function Six(temp: nat, k: nat): Sextet
    requires k < 4
  {
    if k == 0 then temp / 0x4_0000 % 64
    else if k == 1 then temp / 0x1000 % 64
    else if k == 2 then temp / 0x40 % 64
    else temp % 64
  }

  function Group(a: Byte, b: Byte, c: Byte): nat { a * 0x1_0000 + b * 0x100 + c }

  /** The characters of one group; a short group yields fewer. */
  function GroupText(temp: nat, n: nat): (r: seq<Byte>)
    requires 1 <= n <= 4
    ensures |r| == n
  {
    seq(n, k requires 0 <= k < n => Ascii(Six(temp, k)))
  }

  /** The text without padding. */
  function Unpadded(s: seq<Byte>): seq<Byte>
    decreases |s|
  {
    if s == [] then []
    else if |s| == 1 then GroupText(Group(s[0], 0, 0), 2)
    else if |s| == 2 then GroupText(Group(s[0], s[1], 0), 3)
    else GroupText(Group(s[0], s[1], s[2]), 4) + Unpadded(s[3..])
  }

  function Padding(n: nat): seq<Byte> {
    if n % 3 == 1 then [EQUALS, EQUALS] else if n % 3 == 2 then [EQUALS] else []
  }

  function Encoded(s: seq<Byte>): seq<Byte> { Unpadded(s) + Padding(|s|) }

  lemma {:induction false} UnpaddedSnoc(s: seq<Byte>, a: seq<Byte>)
    requires |s| % 3 == 0
    ensures Unpadded(s + a) == Unpadded(s) + Unpadded(a)
    decreases |s|
  {
    hide GroupText;
    if s == [] {
      assert s + a == a;
    } else {
      assert (s + a)[3..] == s[3..] + a;
      UnpaddedSnoc(s[3..], a);
    }
  }

  /** What the loop appends for the next three bytes. */
  lemma EncodeStep(input: seq<Byte>, at: nat)
    requires at % 3 == 0 && at + 3 <= |input|
    ensures var temp := Group(input[at], input[at + 1], input[at + 2]);
      Unpadded(input[..at + 3]) ==
        Unpadded(input[..at]) + [Ascii(Six(temp, 0)), Ascii(Six(temp, 1)), Ascii(Six(temp, 2)), Ascii(Six(temp, 3))]
  {
    hide Six, Ascii, Group, GroupText;
    var g := input[at..at + 3];
    var temp := Group(input[at], input[at + 1], input[at + 2]);
    UnpaddedSnoc(input[..at], g);
    GroupTexts(temp);
    assert input[..at] + g == input[..at + 3];
    assert g[3..] == [] && Unpadded(g) == GroupText(temp, 4) + Unpadded([]);
  }

  /** What follows the loop: the last one or two bytes and the padding. */
  lemma EncodeTail(input: seq<Byte>, at: nat)
    requires at % 3 == 0 && at <= |input| < at + 3
    ensures Encoded(input) == Unpadded(input[..at]) +
      if |input| == at then []
      else if |input| == at + 1 then
        var temp := Group(input[at], 0, 0);
        [Ascii(Six(temp, 0)), Ascii(Six(temp, 1))] + [EQUALS, EQUALS]
      else
        var temp := Group(input[at], input[at + 1], 0);
        [Ascii(Six(temp, 0)), Ascii(Six(temp, 1)), Ascii(Six(temp, 2))] + [EQUALS]
  {
    hide Six, Ascii, Group, GroupText;
    var rest := input[at..];
    UnpaddedSnoc(input[..at], rest);
    assert input[..at] + rest == input;
    if |rest| == 1 {
      GroupTexts(Group(input[at], 0, 0));
    } else if |rest| == 2 {
      GroupTexts(Group(input[at], input[at + 1], 0));
    }
  }

  method B64StandardEncode(input: seq<Byte>) returns (text: seq<Byte>)
    ensures text == Encoded(input)
  {
    hide Six, Ascii, Group, Unpadded, Encoded;
    text := [];
    var cursor := 0;
    EmptyText();
    assert input[..0] == [];
    while cursor + 3 <= |input|
      invariant 0 <= cursor <= |input| && cursor % 3 == 0
      invariant text == Unpadded(input[..cursor])
      decreases |input| - cursor
    {
      EncodeStep(input, cursor);
      var temp := Group(input[cursor], input[cursor + 1], input[cursor + 2]);
      text := text + [Ascii(Six(temp, 0)), Ascii(Six(temp, 1)), Ascii(Six(temp, 2)), Ascii(Six(temp, 3))];
      cursor := cursor + 3;
    }
    EncodeTail(input, cursor);
    if |input| % 3 == 1 {
      var temp := Group(input[cursor], 0, 0);
      text := text + ([Ascii(Six(temp, 0)), Ascii(Six(temp, 1))] + [EQUALS, EQUALS]);
    } else if |input| % 3 == 2 {
      var temp := Group(input[cursor], input[cursor + 1], 0);
      text := text + ([Ascii(Six(temp, 0)), Ascii(Six(temp, 1)), Ascii(Six(temp, 2))] + [EQUALS]);
    } else {
      assert text + [] == text;
    }
  }

  lemma EmptyText()
    ensures Unpadded([]) == []
  {
  }

  lemma GroupTexts(temp: nat)
    ensures GroupText(temp, 2) == [Ascii(Six(temp, 0)), Ascii(Six(temp, 1))]
    ensures GroupText(temp, 3) == [Ascii(Six(temp, 0)), Ascii(Six(temp, 1)), Ascii(Six(temp, 2))]
    ensures GroupText(temp, 4) == [Ascii(Six(temp, 0)), Ascii(Six(temp, 1)), Ascii(Six(temp, 2)), Ascii(Six(temp, 3))]
  {
  }

  // ---------------------------------------------------------------- decoding

  /** The register starts with a marker bit, which reaches bit 24 when four digits are in. */
  predicate Full(reg: nat) { reg / 0x100_0000 % 2 == 1 }

  function Triple(reg: nat): seq<Byte> { [reg / 0x1_0000 % 256, reg / 0x100 % 256, reg % 256] }

  /** What a partly filled register still yields at the end. */
  function Tail(reg: nat): seq<Byte> {
    if reg / 0x4_0000 % 2 == 1 then [reg / 0x400 % 256, reg / 4 % 256]
    else if reg / 0x1000 % 2 == 1 then [reg / 16 % 256]
    else []
  }

  function Decoded(t: seq<Byte>, reg: nat): Option<seq<Byte>>
    decreases |t|
  {
    if t == [] then Some(Tail(reg))
    else
      match Symbolic(t[0])
      case Invalid => None
      case Space => Decoded(t[1..], reg)
      case Pad => Some(Tail(reg))
      case Digit(x) =>
        var next := reg * 64 + x;
        if Full(next) then Ahead(Triple(next), Decoded(t[1..], 1)) else Decoded(t[1..], next)
  }

  function Ahead(s: seq<Byte>, r: Option<seq<Byte>>): Option<seq<Byte>> {
    if r.None? then None else Some(s + r.value)
  }

  lemma AheadTwice(a: seq<Byte>, b: seq<Byte>, r: Option<seq<Byte>>)
    ensures Ahead(a, Ahead(b, r)) == Ahead(a + b, r)
  {
    if r.Some? {
      assert a + (b + r.value) == a + b + r.value;
    }
  }

  method B64StandardDecode(input: seq<Byte>) returns (out: Option<seq<Byte>>)
    ensures out == Decoded(input, 1)
  {
    hide Full, Triple, Tail, Symbolic;
    var at: nat, reg: nat, text: seq<Byte> := 0, 1, [];
    assert input[0..] == input;
    assert Decoded(input, 1) == Ahead([], Decoded(input, 1)) by {
      if Decoded(input, 1).Some? {
        assert [] + Decoded(input, 1).value == Decoded(input, 1).value;
      }
    }
    ghost var rest := input;
    while at < |input|
      invariant at <= |input|
      invariant rest == input[at..] || (at == |input| && rest != [] && Symbolic(rest[0]).Pad?)
      invariant Decoded(input, 1) == Ahead(text, Decoded(rest, reg))
      decreases |input| - at
    {
      var v := input[at];
      at := at + 1;
      ghost var tail := rest[1..];
      assert tail == input[at..];
      match Symbolic(v) {
        case Invalid => return None;
        case Space => rest := tail;
        case Pad => at := |input|;
        case Digit(x) =>
          rest := tail;
          reg := reg * 64 + x;
          if Full(reg) {
            AheadTwice(text, Triple(reg), Decoded(rest, 1));
            text := text + Triple(reg);
            reg := 1;
          }
      }
    }
    out := Some(text + Tail(reg));
  }

  // ---------------------------------------------------------------- round trip

  lemma SymbolOfDigit(x: Sextet)
    ensures Symbolic(Ascii(x)) == Digit(x)
  {
  }

  lemma SixJoin(temp: nat)
    requires temp < 0x100_0000
    ensures temp == ((Six(temp, 0) * 64 + Six(temp, 1)) * 64 + Six(temp, 2)) * 64 + Six(temp, 3)
  {
    assert temp / 0x40 / 0x40 == temp / 0x1000 && temp / 0x1000 / 0x40 == temp / 0x4_0000;
    assert temp / 0x4_0000 < 64;
  }

  lemma DigitStep(x: Sextet, t: seq<Byte>, reg: nat)
    ensures Decoded([Ascii(x)] + t, reg) ==
      var next := reg * 64 + x;
      if Full(next) then Ahead(Triple(next), Decoded(t, 1)) else Decoded(t, next)
  {
    SymbolOfDigit(x);
    assert ([Ascii(x)] + t)[1..] == t;
  }

  /** A whole group comes back as its three bytes. */
  lemma GroupDecodes(a: Byte, b: Byte, c: Byte, t: seq<Byte>)
    ensures Decoded(GroupText(Group(a, b, c), 4) + t, 1) == Ahead([a, b, c], Decoded(t, 1))
  {
    hide Decoded, Six, Ascii, Full, Triple, GroupText;
    var g := Group(a, b, c);
    GroupTexts(g);
    SixJoin(g);
    FourDigits(Six(g, 0), Six(g, 1), Six(g, 2), Six(g, 3), t);
    assert Register(Six(g, 0), Six(g, 1), Six(g, 2), Six(g, 3)) == 0x100_0000 + g;
    TripleOf(a, b, c);
  }

  /** The register after four digits, marker included. */
  function Register(x0: Sextet, x1: Sextet, x2: Sextet, x3: Sextet): nat {
    (((64 + x0) * 64 + x1) * 64 + x2) * 64 + x3
  }

  lemma FourDigits(x0: Sextet, x1: Sextet, x2: Sextet, x3: Sextet, t: seq<Byte>)
    ensures Decoded([Ascii(x0), Ascii(x1), Ascii(x2), Ascii(x3)] + t, 1) ==
      Ahead(Triple(Register(x0, x1, x2, x3)), Decoded(t, 1))
  {
    hide Decoded, Ascii, Full, Triple;
    var r1: nat := 64 + (x0 as int);
    var r2: nat := r1 * 64 + x1;
    var r3: nat := r2 * 64 + x2;
    var t3 := [Ascii(x3)] + t;
    var t2 := [Ascii(x2)] + t3;
    var t1 := [Ascii(x1)] + t2;
    assert [Ascii(x0), Ascii(x1), Ascii(x2), Ascii(x3)] + t == [Ascii(x0)] + t1;
    DigitStep(x0, t1, 1);
    DigitStep(x1, t2, r1);
    DigitStep(x2, t3, r2);
    DigitStep(x3, t, r3);
    Registers(x0, x1, x2, x3);
  }

  lemma Registers(x0: Sextet, x1: Sextet, x2: Sextet, x3: Sextet)
    ensures !Full(64 + x0) && !Full((64 + x0) * 64 + x1) && !Full(((64 + x0) * 64 + x1) * 64 + x2)
    ensures Full((((64 + x0) * 64 + x1) * 64 + x2) * 64 + x3)
  {
  }

  lemma TripleOf(a: Byte, b: Byte, c: Byte)
    ensures Triple(0x100_0000 + Group(a, b, c)) == [a, b, c]
  {
    var reg := 0x100_0000 + Group(a, b, c);
    assert reg / 0x1_0000 == 256 + a && reg / 0x100 == 0x1_0000 + a * 256 + b;
  }

  predicate Ends(t: seq<Byte>) { t == [] || t[0] == EQUALS }

  lemma OneDecodes(a: Byte, post: seq<Byte>)
    requires Ends(post)
    ensures Decoded(GroupText(Group(a, 0, 0), 2) + post, 1) == Some([a])
  {
    hide Decoded, Six, Ascii, Full, GroupText, Group, Tail, Ends;
    var g := Group(a, 0, 0);
    var x0: int, x1: int := Six(g, 0), Six(g, 1);
    GroupTexts(g);
    Registers(x0, x1, 0, 0);
    var t1 := [Ascii(x1)] + post;
    assert GroupText(g, 2) + post == [Ascii(x0)] + t1;
    DigitStep(x0, t1, 1);
    DigitStep(x1, post, 64 + x0);
    EndDecodes(post, (64 + x0) * 64 + x1);
    TailOne(a, x0, x1);
  }

  lemma TwoDecodes(a: Byte, b: Byte, post: seq<Byte>)
    requires Ends(post)
    ensures Decoded(GroupText(Group(a, b, 0), 3) + post, 1) == Some([a, b])
  {
    hide Decoded, Six, Ascii, Full, GroupText, Group, Tail, Ends;
    var g := Group(a, b, 0);
    var x0: int, x1: int, x2: int := Six(g, 0), Six(g, 1), Six(g, 2);
    GroupTexts(g);
    Registers(x0, x1, x2, 0);
    var t2 := [Ascii(x2)] + post;
    var t1 := [Ascii(x1)] + t2;
    assert GroupText(g, 3) + post == [Ascii(x0)] + t1;
    DigitStep(x0, t1, 1);
    DigitStep(x1, t2, 64 + x0);
    DigitStep(x2, post, (64 + x0) * 64 + x1);
    EndDecodes(post, ((64 + x0) * 64 + x1) * 64 + x2);
    TailTwo(a, b, x0, x1, x2);
  }

  lemma EndDecodes(post: seq<Byte>, reg: nat)
    requires Ends(post)
    ensures Decoded(post, reg) == Some(Tail(reg))
  {
  }

  lemma LowZeros(a: Byte, b: Byte)
    ensures Six(Group(a, 0, 0), 2) == 0 && Six(Group(a, 0, 0), 3) == 0 && Six(Group(a, b, 0), 3) == 0
  {
    hide Six;
    LowSix(a * 1024);
    SixtyFour(a * 16);
    assert a * 16 * 64 == a * 1024;
    LowSix(a * 1024 + b * 4);
    assert Group(a, 0, 0) == (a * 1024) * 64 && Group(a, b, 0) == (a * 1024 + b * 4) * 64;
  }

  lemma LowSix(y: nat)
    ensures Six(y * 64, 3) == 0 && Six(y * 64, 2) == y % 64
  {
    SixtyFour(y);
  }

  lemma SixtyFour(y: nat)
    ensures y * 64 % 64 == 0 && y * 64 / 64 == y
  {
  }

  lemma TailOne(a: Byte, x0: Sextet, x1: Sextet)
    requires x0 == Six(Group(a, 0, 0), 0) && x1 == Six(Group(a, 0, 0), 1)
    ensures Tail((64 + x0) * 64 + x1) == [a]
  {
    hide Six, Tail;
    SixJoin(Group(a, 0, 0));
    LowZeros(a, 0);
    assert x0 * 64 + x1 == a * 16;
    TailBits(a, 0);
  }

  lemma TailTwo(a: Byte, b: Byte, x0: Sextet, x1: Sextet, x2: Sextet)
    requires x0 == Six(Group(a, b, 0), 0) && x1 == Six(Group(a, b, 0), 1) && x2 == Six(Group(a, b, 0), 2)
    ensures Tail(((64 + x0) * 64 + x1) * 64 + x2) == [a, b]
  {
    hide Six, Tail;
    SixJoin(Group(a, b, 0));
    LowZeros(a, b);
    assert (x0 * 64 + x1) * 64 + x2 == a * 0x400 + b * 4;
    TailBits(a, b);
  }

  lemma TailBits(a: Byte, b: Byte)
    ensures Tail(0x1000 + a * 16) == [a]
    ensures Tail(0x4_0000 + a * 0x400 + b * 4) == [a, b]
  {
    var one, two := 0x1000 + a * 16, 0x4_0000 + a * 0x400 + b * 4;
    assert one / 0x4_0000 == 0 && one / 0x1000 == 1 && one / 16 == 256 + a;
    assert two / 0x4_0000 == 1 && two / 0x400 == 256 + a && two / 4 == 0x1_0000 + a * 256 + b;
  }

  lemma TailNone()
    ensures Tail(1) == []
  {
  }

  /** Decoding undoes encoding, with padding, without it, or with anything after a pad character. */
  lemma {:induction false} DecodeEncode(s: seq<Byte>, post: seq<Byte>)
    requires Ends(post)
    ensures Decoded(Unpadded(s) + post, 1) == Some(s)
    decreases |s|
  {
    hide Decoded, GroupText, Group, Tail;
    if s == [] {
      assert Unpadded(s) + post == post;
      EndDecodes(post, 1);
      TailNone();
    } else if |s| == 1 {
      assert s == [s[0]];
      OneDecodes(s[0], post);
    } else if |s| == 2 {
      assert s == [s[0], s[1]];
      TwoDecodes(s[0], s[1], post);
    } else {
      var rest := Unpadded(s[3..]) + post;
      assert Unpadded(s) + post == GroupText(Group(s[0], s[1], s[2]), 4) + rest;
      GroupDecodes(s[0], s[1], s[2], rest);
      DecodeEncode(s[3..], post);
      assert [s[0], s[1], s[2]] + s[3..] == s;
    }
  }

  lemma {:induction false} UnpaddedLength(s: seq<Byte>)
    ensures |Unpadded(s)| == |s| / 3 * 4 + (if |s| % 3 == 0 then 0 else |s| % 3 + 1)
    decreases |s|
  {
    hide GroupText, Group;
    if |s| >= 3 {
      UnpaddedLength(s[3..]);
    }
  }

  /** The padded text is whole groups of four, and the unpadded length tells the number of bytes. */
  lemma EncodedLength(s: seq<Byte>)
    ensures BaseChange.B64ToB256Bytes(|Unpadded(s)|) == |s|
    ensures |Unpadded(s)| == BaseChange.B256ToB64Bytes(|s|)
    ensures |Encoded(s)| == (|s| + 2) / 3 * 4
  {
    hide Unpadded;
    UnpaddedLength(s);
    var q, r := |s| / 3, |s| % 3;
    assert |s| == 3 * q + r;
  }

  /** A character outside the alphabet, before any pad character, is refused. */
  lemma {:induction false} DecodeRefuses(pre: seq<Byte>, v: Byte, post: seq<Byte>, reg: nat)
    requires Symbolic(v).Invalid? && forall i :: 0 <= i < |pre| ==> Symbolic(pre[i]).Digit? || Symbolic(pre[i]).Space?
    ensures Decoded(pre + ([v] + post), reg) == None
    decreases |pre|
  {
    hide Full, Triple, Tail, Symbolic;
    var t := pre + ([v] + post);
    if pre == [] {
      assert t[0] == v;
    } else {
      assert t[0] == pre[0] && t[1..] == pre[1..] + ([v] + post);
      if Symbolic(pre[0]).Digit? {
        var next := reg * 64 + Symbolic(pre[0]).x;
        DecodeRefuses(pre[1..], v, post, if Full(next) then 1 else next);
      } else {
        DecodeRefuses(pre[1..], v, post, reg);
      }
    }
  }

  /** Digits and tabs are always accepted, however many there are. */
  lemma {:induction false} DecodeAccepts(t: seq<Byte>, reg: nat)
    requires forall i :: 0 <= i < |t| ==> Symbolic(t[i]).Digit? || Symbolic(t[i]).Space?
    ensures Decoded(t, reg).Some?
    decreases |t|
  {
    hide Full, Triple, Tail, Symbolic;
    if t != [] {
      if Symbolic(t[0]).Digit? {
        var next := reg * 64 + Symbolic(t[0]).x;
        DecodeAccepts(t[1..], if Full(next) then 1 else next);
      } else {
        DecodeAccepts(t[1..], reg);
      }
    }
  }

  /** What one, two and three left-over digits yield, spare bits or not. */
  lemma LeftOver(x0: Sextet, x1: Sextet, x2: Sextet)
    ensures Tail(64 + x0) == []
    ensures Tail((64 + x0) * 64 + x1) == [(x0 * 64 + x1) / 16]
    ensures Tail(((64 + x0) * 64 + x1) * 64 + x2) == [(x0 * 64 + x1) / 16, (x1 % 16 * 64 + x2) / 4]
  {
    hide Tail;
    var q, r := (x0 * 64 + x1) / 16, x1 % 16;
    assert x0 * 64 + x1 == 16 * q + r && q < 256;
    var p, d := (r * 64 + x2) / 4, x2 % 4;
    assert r * 64 + x2 == 4 * p + d && p < 256;
    TailRest(x0, q, r, p, d);
  }

  lemma TailRest(x0: Sextet, q: nat, r: nat, p: nat, d: nat)
    requires q < 256 && r < 16 && p < 256 && d < 4
    ensures Tail(64 + x0) == [] && Tail(0x1000 + (16 * q + r)) == [q]
    ensures Tail(0x4_0000 + 1024 * q + (4 * p + d)) == [q, p]
  {
    var one: int, two, three := 64 + x0, 0x1000 + (16 * q + r), 0x4_0000 + 1024 * q + (4 * p + d);
    assert one / 0x4_0000 == 0 && one / 0x1000 == 0;
    assert two / 0x4_0000 == 0 && two / 0x1000 == 1 && two / 16 == 256 + q;
    assert three / 0x4_0000 == 1 && three / 0x400 == 256 + q && three / 4 == 0x1_0000 + 256 * q + p;
  }

  lemma SixLow(g: nat, x: Sextet, rest: nat)
    requires g == rest * 64 + x
    ensures g % 64 == x && g / 64 == rest
  {
  }

  /** The characters of a group of bytes whose sextets are known. */
  lemma GroupIs(a: Byte, b: Byte, c: Byte, x0: Sextet, x1: Sextet, x2: Sextet, x3: Sextet)
    requires a * 0x1_0000 + b * 0x100 + c == ((x0 * 64 + x1) * 64 + x2) * 64 + x3
    ensures var g := Group(a, b, c); Six(g, 0) == x0 && Six(g, 1) == x1 && Six(g, 2) == x2 && Six(g, 3) == x3
  {
    var g: nat := Group(a, b, c);
    var g2: nat := (x0 * 64 + x1) * 64 + x2;
    var g1: nat := x0 * 64 + x1;
    SixLow(g, x3, g2);
    SixLow(g2, x2, g1);
    SixLow(g1, x1, x0);
    assert g / 0x1000 == g1;
    assert g / 0x4_0000 == x0;
  }

  /** Test vectors of section 10 of RFC 4648: "f", "fo" and "foo" become "Zg==", "Zm8=" and "Zm9v". */
  lemma TestVectors()
    ensures Encoded([102]) == [90, 103, 61, 61]
    ensures Encoded([102, 111]) == [90, 109, 56, 61]
    ensures Encoded([102, 111, 111]) == [90, 109, 57, 118]
  {
    hide Six, Group, GroupText;
    GroupTexts(Group(102, 0, 0));
    GroupTexts(Group(102, 111, 0));
    GroupTexts(Group(102, 111, 111));
    GroupIs(102, 0, 0, 25, 32, 0, 0);
    GroupIs(102, 111, 0, 25, 38, 60, 0);
    GroupIs(102, 111, 111, 25, 38, 61, 47);
    assert [102, 111, 111][3..] == [];
  }

  lemma StandardRoundTrip(s: seq<Byte>)
    ensures Decoded(Encoded(s), 1) == Some(s) && Decoded(Unpadded(s), 1) == Some(s)
  {
    hide Decoded, Unpadded;
    DecodeEncode(s, Padding(|s|));
    DecodeEncode(s, []);
    assert Unpadded(s) + [] == Unpadded(s);
  }
}
