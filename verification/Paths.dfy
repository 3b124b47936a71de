/** Whole paths: every component is coded on its own, with the IV chained from level to level. */
module Paths {
  import opened Bytes
  import opened Names
  import NameBuffers

  const SLASH: Byte := 47
  const DOT: Byte := 46
  const PLUS: Byte := 43

  /** The part of a buffer that a C string sees. */
  function CString(s: seq<Byte>): (r: seq<Byte>)
    ensures |r| <= |s|
  {
    if s == [] || s[0] == 0 then [] else [s[0]] + CString(s[1..])
  }

  predicate NoNul(s: seq<Byte>) { forall i :: 0 <= i < |s| ==> s[i] != 0 }

  lemma {:induction false} CStringWhole(s: seq<Byte>)
    requires NoNul(s)
    ensures CString(s) == s
  {
    if s != [] {
      CStringWhole(s[1..]);
    }
  }

  /** Length of the first component. */
  function CompLen(path: seq<Byte>): (n: nat)
    ensures n <= |path| && (n < |path| ==> path[n] == SLASH)
    ensures forall i :: 0 <= i < n ==> path[i] != SLASH
  {
    if path == [] || path[0] == SLASH then 0 else 1 + CompLen(path[1..])
  }

  lemma {:induction false} CompLenOf(c: seq<Byte>, rest: seq<Byte>)
    requires (forall i :: 0 <= i < |c| ==> c[i] != SLASH) && (rest == [] || rest[0] == SLASH)
    ensures CompLen(c + rest) == |c|
  {
    if c == [] {
      assert c + rest == rest;
    } else {
      assert (c + rest)[1..] == c[1..] + rest;
      CompLenOf(c[1..], rest);
    }
  }

  predicate IsDots(c: seq<Byte>) { c == [DOT] || c == [DOT, DOT] }

  datatype Direction = Encoding | Decoding

  function Code(k: Coding, dir: Direction, name: Name, iv: Option<Word64>): Coded
    requires k.Ok()
  {
    if dir.Encoding? then EncodeName(k, name, iv) else DecodeName(k, name, iv)
  }

  /**
   * What recoding a path appends to the output; `started` says whether the output is non-empty.
   * Separators are kept except at the start, `.` and `..` pass through.
   */
  function Recoded(k: Coding, dir: Direction, path: seq<Byte>, iv: Option<Word64>, started: bool): Coded
    requires k.Ok()
    decreases |path|
  {
    if path == [] then Ok(([], iv))
    else if path[0] == SLASH then
      Prepend(if started then [SLASH] else [], Recoded(k, dir, path[1..], iv, started))
    else
      var n := CompLen(path);
      var c := path[..n];
      if IsDots(c) then Prepend(c, Recoded(k, dir, path[n..], iv, true))
      else
        match Code(k, dir, c, iv)
        case Err => Err
        case Ok((coded, next)) =>
          Prepend(CString(coded), Recoded(k, dir, path[n..], next, started || CString(coded) != []))
  }

  function Prepend(s: seq<Byte>, r: Coded): Coded {
    if r.Ok? then Ok((s + r.value.0, r.value.1)) else Err
  }

  /** The path as the coder treats it: leading separators dropped. */
  function Trimmed(path: seq<Byte>): seq<Byte> {
    if path != [] && path[0] == SLASH then Trimmed(path[1..]) else path
  }

  /** Both name codings satisfy one law on non-empty names. */
  lemma NameLaw(k: Coding, name: Name, iv: Option<Word64>)
    requires k.Ok() && name != []
    ensures var r := EncodeName(k, name, iv);
      r.Ok? && r.value.0 != [] && Clean(r.value.0) && DecodeName(k, r.value.0, iv) == Ok((name, r.value.1))
  {
    hide EncodeName, DecodeName, Clean, TextLen;
    if k.BlockCoding? {
      BlockNameRoundTrip(k, name, iv);
    } else {
      StreamNameRoundTrip(k, name, iv);
    }
    EncodedNonempty(k, |name|);
  }

  lemma EncodedNonempty(k: Coding, n: nat)
    requires k.Ok()
    ensures 0 < k.MaxEncodedNameLen(n)
  {
    if k.BlockCoding? {
      PaddingFits(n, k.bs);
    }
  }

  /** Once output has started, coding what follows a component yields nothing or a separator first. */
  lemma AfterComponent(k: Coding, path: seq<Byte>, iv: Option<Word64>)
    requires k.Ok() && (path == [] || path[0] == SLASH)
    ensures var r := Recoded(k, Encoding, path, iv, true);
      r.Ok? ==> r.value.0 == [] || r.value.0[0] == SLASH
  {
  }

  /** Decoding undoes encoding on every path without NUL, with the same final IV. */
  lemma {:induction false} RecodeInverse(k: Coding, path: seq<Byte>, iv: Option<Word64>, started: bool)
    requires k.Ok() && NoNul(path)
    ensures var r := Recoded(k, Encoding, path, iv, started);
      && r.Ok?
      && Recoded(k, Decoding, r.value.0, iv, started) == Ok((if started then path else Trimmed(path), r.value.1))
    decreases |path|, 1
  {
    hide EncodeName, DecodeName, Clean;
    if path == [] {
    } else if path[0] == SLASH {
      RecodeInverse(k, path[1..], iv, started);
      if started {
        var e := Recoded(k, Encoding, path[1..], iv, true).value.0;
        assert ([SLASH] + e)[1..] == e;
        assert [SLASH] + path[1..] == path;
      } else {
        var e := Recoded(k, Encoding, path[1..], iv, false).value.0;
        assert [] + e == e;
      }
    } else {
      ComponentInverse(k, path, iv, started);
    }
  }

  /** Reading back a path that starts with an already coded component. */
  lemma ReadComponent(k: Coding, dir: Direction, c: seq<Byte>, rest: seq<Byte>, iv: Option<Word64>, started: bool)
    requires k.Ok() && c != [] && (forall i :: 0 <= i < |c| ==> c[i] != SLASH) && (rest == [] || rest[0] == SLASH)
    ensures Recoded(k, dir, c + rest, iv, started) ==
      if IsDots(c) then Prepend(c, Recoded(k, dir, rest, iv, true))
      else match Code(k, dir, c, iv)
        case Err => Err
        case Ok((coded, next)) =>
          Prepend(CString(coded), Recoded(k, dir, rest, next, started || CString(coded) != []))
  {
    hide EncodeName, DecodeName, Code;
    CompLenOf(c, rest);
    assert (c + rest)[0] == c[0];
    assert (c + rest)[..|c|] == c && (c + rest)[|c|..] == rest;
  }

  lemma {:induction false} ComponentInverse(k: Coding, path: seq<Byte>, iv: Option<Word64>, started: bool)
    requires k.Ok() && NoNul(path) && path != [] && path[0] != SLASH
    ensures var r := Recoded(k, Encoding, path, iv, started);
      r.Ok? && Recoded(k, Decoding, r.value.0, iv, started) == Ok((path, r.value.1))
    decreases |path|, 0
  {
    hide EncodeName, DecodeName, Recoded;
    var n := CompLen(path);
    var c, rest := path[..n], path[n..];
    assert path == c + rest;
    ReadComponent(k, Encoding, c, rest, iv, started);
    if IsDots(c) {
      RecodeInverse(k, rest, iv, true);
      AfterComponent(k, rest, iv);
      ReadComponent(k, Decoding, c, Recoded(k, Encoding, rest, iv, true).value.0, iv, started);
    } else {
      NameLaw(k, c, iv);
      var (coded, next) := EncodeName(k, c, iv).value;
      CStringWhole(coded);
      CStringWhole(c);
      RecodeInverse(k, rest, next, true);
      AfterComponent(k, rest, next);
      assert coded[0] != DOT;
      ReadComponent(k, Decoding, coded, Recoded(k, Encoding, rest, next, true).value.0, iv, started);
    }
  }

  /** The names `.` and `..` stand for themselves, alone and in front of a path, whatever the coding. */
  lemma DotsPass(k: Coding, dir: Direction, rest: seq<Byte>, iv: Option<Word64>, started: bool)
    requires k.Ok() && (rest == [] || rest[0] == '/' as int)
    ensures Recoded(k, dir, ['.' as int] + rest, iv, started) == Prepend(['.' as int], Recoded(k, dir, rest, iv, true))
    ensures Recoded(k, dir, ['.' as int, '.' as int] + rest, iv, started) ==
      Prepend(['.' as int, '.' as int], Recoded(k, dir, rest, iv, true))
    ensures Recoded(k, dir, ['.' as int], iv, started) == Ok((['.' as int], iv))
    ensures Recoded(k, dir, ['.' as int, '.' as int], iv, started) == Ok((['.' as int, '.' as int], iv))
  {
    hide EncodeName, DecodeName, Code;
    ReadComponent(k, dir, [DOT], rest, iv, started);
    ReadComponent(k, dir, [DOT, DOT], rest, iv, started);
    ReadComponent(k, dir, [DOT], [], iv, started);
    ReadComponent(k, dir, [DOT, DOT], [], iv, started);
    assert [DOT] + [] == [DOT] && [DOT, DOT] + [] == [DOT, DOT];
    assert Recoded(k, dir, [], iv, true) == Ok(([], iv));
  }

  // ---------------------------------------------------------------- the operations on paths

  function EncodePath(k: Coding, chained: bool, path: seq<Byte>, iv: Word64): (r: Outcome<(seq<Byte>, Word64)>)
    requires k.Ok()
  {
    CodePath(k, chained, Encoding, path, iv)
  }

  function DecodePath(k: Coding, chained: bool, path: seq<Byte>, iv: Word64): (r: Outcome<(seq<Byte>, Word64)>)
    requires k.Ok()
  {
    CodePath(k, chained, Decoding, path, iv)
  }

  /** Without chaining the caller's IV is neither used nor changed. */
  function CodePath(k: Coding, chained: bool, dir: Direction, path: seq<Byte>, iv: Word64): Outcome<(seq<Byte>, Word64)>
    requires k.Ok()
  {
    match Recoded(k, dir, path, if chained then Some(iv) else None, false)
    case Err => Err
    case Ok((out, next)) => Ok((out, if next.Some? then next.value else iv))
  }

  /** Without chaining the IV is neither used nor changed. */
  lemma Unchained(k: Coding, dir: Direction, path: seq<Byte>, iv: Word64, jv: Word64)
    requires k.Ok() && CodePath(k, false, dir, path, iv).Ok?
    ensures CodePath(k, false, dir, path, jv) == Ok((CodePath(k, false, dir, path, iv).value.0, jv))
  {
    hide Recoded;
    StaysUnchained(k, dir, path, false);
  }

  lemma {:induction false} StaysUnchained(k: Coding, dir: Direction, path: seq<Byte>, started: bool)
    requires k.Ok()
    ensures var r := Recoded(k, dir, path, None, started); r.Ok? ==> r.value.1 == None
    decreases |path|
  {
    hide EncodeName, DecodeName, CString, CompLen;
    if path != [] {
      RecodedStep(k, dir, path, None, started);
      if path[0] == SLASH {
        StaysUnchained(k, dir, path[1..], started);
      } else {
        var n := CompLen(path);
        CodesUnchained(k, dir, path[..n]);
        var c := Code(k, dir, path[..n], None);
        StaysUnchained(k, dir, path[n..], true);
        if c.Ok? {
          StaysUnchained(k, dir, path[n..], started || CString(c.value.0) != []);
        }
      }
    }
  }

  lemma CodesUnchained(k: Coding, dir: Direction, name: Name)
    requires k.Ok()
    ensures Code(k, dir, name, None).Ok? ==> Code(k, dir, name, None).value.1 == None
  {
    hide Armor, Dearmor, Coding.Seed, MacBytes, MacOf;
  }

  /** For every path, chained or not: decoding returns the path without leading separators and the same IV. */
  lemma PathRoundTrip(k: Coding, chained: bool, path: seq<Byte>, iv: Word64)
    requires k.Ok() && NoNul(path)
    ensures var r := EncodePath(k, chained, path, iv);
      r.Ok? && DecodePath(k, chained, r.value.0, iv) == Ok((Trimmed(path), r.value.1))
  {
    hide Recoded;
    RecodeInverse(k, path, if chained then Some(iv) else None, false);
  }

  /** The loop of recodePath. */
  method RecodePath(k: Coding, dir: Direction, path: seq<Byte>, iv: Option<Word64>) returns (r: Coded)
    requires k.Ok()
    ensures r == Recoded(k, dir, path, iv, false)
  {
    hide EncodeName, DecodeName, CString, Code, Recoded, Prepend, CompLen;
    var output: seq<Byte>, at: nat, cur := [], 0, iv;
    assert path[0..] == path;
    PrependNothing(Recoded(k, dir, path, iv, false));
    while at < |path|
      invariant at <= |path|
      invariant Recoded(k, dir, path, iv, false) == Prepend(output, Recoded(k, dir, path[at..], cur, output != []))
      decreases |path| - at
    {
      var p := path[at..];
      RecodedStep(k, dir, p, cur, output != []);
      if p[0] == SLASH {
        var sep := if output != [] then [SLASH] else [];
        PrependPrepend(output, sep, Recoded(k, dir, p[1..], cur, output != []));
        assert p[1..] == path[at + 1..];
        output := output + sep;
        at := at + 1;
      } else {
        var len := CompLen(p);
        assert p[len..] == path[at + len..];
        if IsDots(p[..len]) {
          PrependPrepend(output, p[..len], Recoded(k, dir, p[len..], cur, true));
          output := output + p[..len];
        } else {
          var c := CodeName(k, dir, p[..len], cur);
          if c.Err? {
            PrependFailure(output);
            return Err;
          }
          var text := CString(c.value.0);
          PrependPrepend(output, text, Recoded(k, dir, p[len..], c.value.1, output != [] || text != []));
          output := output + text;
          cur := c.value.1;
        }
        at := at + len;
      }
    }
    assert path[at..] == [];
    RecodedEnd(k, dir, output, cur);
    r := Ok((output, cur));
  }

  /** How coding goes on at a separator, at dots and at a name. */
  lemma RecodedStep(k: Coding, dir: Direction, path: seq<Byte>, iv: Option<Word64>, started: bool)
    requires k.Ok() && path != []
    ensures Recoded(k, dir, path, iv, started) ==
      if path[0] == SLASH then Prepend(if started then [SLASH] else [], Recoded(k, dir, path[1..], iv, started))
      else
        var n := CompLen(path);
        if IsDots(path[..n]) then Prepend(path[..n], Recoded(k, dir, path[n..], iv, true))
        else match Code(k, dir, path[..n], iv)
          case Err => Err
          case Ok((coded, next)) =>
            Prepend(CString(coded), Recoded(k, dir, path[n..], next, started || CString(coded) != []))
    ensures path[0] != SLASH ==> 0 < CompLen(path) <= |path|
  {
    hide EncodeName, DecodeName, CString, Code;
  }

  /** A separator is kept, except in front of everything. */
  lemma Separators(k: Coding, dir: Direction, path: seq<Byte>, iv: Option<Word64>)
    requires k.Ok()
    ensures Recoded(k, dir, ['/' as int] + path, iv, true) == Prepend(['/' as int], Recoded(k, dir, path, iv, true))
    ensures Recoded(k, dir, ['/' as int] + path, iv, false) == Recoded(k, dir, path, iv, false)
  {
    hide EncodeName, DecodeName, CString, Code;
    assert ([SLASH] + path)[1..] == path;
    PrependNothing(Recoded(k, dir, path, iv, false));
  }

  lemma RecodedEnd(k: Coding, dir: Direction, output: seq<Byte>, iv: Option<Word64>)
    requires k.Ok()
    ensures Prepend(output, Recoded(k, dir, [], iv, output != [])) == Ok((output, iv))
  {
    assert output + [] == output;
  }

  lemma PrependFailure(s: seq<Byte>)
    ensures Prepend(s, Err) == Err
  {
  }

  lemma PrependNothing(r: Coded)
    ensures Prepend([], r) == r
  {
    if r.Ok? {
      assert [] + r.value.0 == r.value.0;
    }
  }

  lemma PrependPrepend(a: seq<Byte>, b: seq<Byte>, r: Coded)
    ensures Prepend(a, Prepend(b, r)) == Prepend(a + b, r)
  {
    if r.Ok? {
      assert a + (b + r.value.0) == a + b + r.value.0;
    }
  }

  /** One component, in a buffer of at least 32 bytes sized by the length estimate. */
  method CodeName(k: Coding, dir: Direction, name: Name, iv: Option<Word64>) returns (r: Coded)
    requires k.Ok()
    ensures r == Code(k, dir, name, iv)
  {
    hide EncodeName, DecodeName, Coding.MaxEncodedNameLen, Coding.MaxDecodedNameLen;
    if dir.Encoding? {
      var approxLen := k.MaxEncodedNameLen(|name|);
      EncodedNonempty(k, |name|);
      var bufSize := if 32 < approxLen + 1 then approxLen + 1 else 32;
      if k.BlockCoding? {
        r := NameBuffers.BlockEncodeName(k, name, iv, bufSize);
      } else {
        r := NameBuffers.StreamEncodeName(k, name, iv, bufSize);
      }
    } else {
      var approxLen := k.MaxDecodedNameLen(|name|);
      if approxLen <= 0 {
        TooShort(k, name, iv);
        return Err;
      }
      var bufSize := if 32 < approxLen + 1 then approxLen + 1 else 32;
      if k.BlockCoding? {
        r := NameBuffers.BlockDecodeName(k, name, iv, bufSize);
      } else {
        r := NameBuffers.StreamDecodeName(k, name, iv, bufSize);
      }
    }
  }

  lemma TooShort(k: Coding, name: Name, iv: Option<Word64>)
    requires k.Ok() && k.MaxDecodedNameLen(|name|) <= 0
    ensures DecodeName(k, name, iv) == Err
  {
  }

  // ---------------------------------------------------------------- symbolic links

  /** The stored form of a link target: an absolute target is one name marked with `+`. */
  function RelativeCipherPath(k: Coding, chained: bool, target: seq<Byte>): seq<Byte>
    requires k.Ok()
  {
    if target != [] && target[0] == SLASH then
      match EncodeName(k, target[1..], None)
      case Err => []
      case Ok((c, _)) => [PLUS] + CString(c)
    else
      match EncodePath(k, chained, target, 0)
      case Err => []
      case Ok((c, _)) => c
  }

  function PlainPath(k: Coding, chained: bool, stored: seq<Byte>): seq<Byte>
    requires k.Ok()
  {
    if stored != [] && stored[0] == PLUS then
      match DecodeName(k, stored[1..], None)
      case Err => []
      case Ok((p, _)) => [SLASH] + CString(p)
    else
      match DecodePath(k, chained, stored, 0)
      case Err => []
      case Ok((p, _)) => p
  }

  /** A link target survives being stored, except the target `/` under the stream coding. */
  lemma LinkRoundTrip(k: Coding, chained: bool, target: seq<Byte>)
    requires k.Ok() && NoNul(target)
    ensures PlainPath(k, chained, RelativeCipherPath(k, chained, target)) == target
      <==> !(k.StreamCoding? && target == [SLASH])
  {
    hide DecodeName, Recoded, CString;
    if target != [] && target[0] == SLASH {
      AbsoluteLink(k, chained, target);
    } else {
      PathRoundTrip(k, chained, target, 0);
      NoMark(k, chained, target);
    }
  }

  lemma AbsoluteLink(k: Coding, chained: bool, target: seq<Byte>)
    requires k.Ok() && NoNul(target) && target != [] && target[0] == SLASH
    ensures PlainPath(k, chained, RelativeCipherPath(k, chained, target)) == target
      <==> !(k.StreamCoding? && target == [SLASH])
  {
    hide Recoded, CString, DecodeName, Clean;
    var name := target[1..];
    assert target == [SLASH] + name;
    if k.StreamCoding? && name == [] {
      assert RelativeCipherPath(k, chained, target) == [];
      EmptyPath(k, chained);
    } else {
      if k.BlockCoding? {
        BlockNameRoundTrip(k, name, None);
      } else {
        StreamNameRoundTrip(k, name, None);
      }
      var c := EncodeName(k, name, None).value.0;
      CleanNoNul(c);
      CStringWhole(c);
      CStringWhole(name);
      assert ([PLUS] + c)[1..] == c;
    }
  }

  /** An absolute target is stored as one name, coded without a chained IV, behind a plus sign. */
  lemma AbsoluteStored(k: Coding, chained: bool, target: seq<Byte>)
    requires k.Ok() && NoNul(target) && |target| > 1 && target[0] == '/' as int
    ensures EncodeName(k, target[1..], None).Ok?
    ensures RelativeCipherPath(k, chained, target) == ['+' as int] + EncodeName(k, target[1..], None).value.0
  {
    hide DecodeName, Recoded, CString;
    NameLaw(k, target[1..], None);
    var c := EncodeName(k, target[1..], None).value.0;
    CleanNoNul(c);
    CStringWhole(c);
  }

  lemma CleanNoNul(c: seq<Byte>)
    requires Clean(c)
    ensures NoNul(c)
  {
  }

  lemma EmptyPath(k: Coding, chained: bool)
    requires k.Ok()
    ensures PlainPath(k, chained, []) == []
  {
  }

  /** A coded relative path never starts with the mark of an absolute one. */
  lemma NoMark(k: Coding, chained: bool, path: seq<Byte>)
    requires k.Ok() && NoNul(path) && (path == [] || path[0] != SLASH)
    ensures var r := EncodePath(k, chained, path, 0); r.Ok? ==> r.value.0 == [] || r.value.0[0] != PLUS
  {
    hide EncodeName;
    if path != [] {
      var iv := if chained then Some(0) else None;
      var c := path[..CompLen(path)];
      if !IsDots(c) {
        NameLaw(k, c, iv);
        CStringWhole(EncodeName(k, c, iv).value.0);
      }
    }
  }
}
