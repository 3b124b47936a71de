/** The binary configuration format: integers in base 128, counted strings, and maps of them. */
module Configs {
  import opened Bytes

  const TOP: nat := 0x1_0000_0000
  const HALF: nat := 0x8000_0000

  // ---------------------------------------------------------------- integers

  /** The leading digits, most significant first, each marked as continued. */
  function Leading(v: nat): (r: seq<Byte>)
    decreases v
  {
    if v == 0 then [] else Leading(v / 128) + [128 + v % 128]
  }

  function IntText(v: nat): (r: seq<Byte>)
    ensures r != []
  {
    Leading(v / 128) + [v % 128]
  }

  /** Reads digits from `at` on into a 32-bit register; yields the register and the end. */
  function Scan(buf: seq<Byte>, at: nat, value: nat): (r: (nat, nat))
    requires at < |buf|
    ensures at < r.1 <= |buf|
    decreases |buf| - at
  {
    var next := (value * 128 + buf[at] % 128) % TOP;
    if buf[at] >= 128 && at + 1 < |buf| then Scan(buf, at + 1, next) else (next, at + 1)
  }

  /** Fails at the end of the buffer and on a value that is negative as a 32-bit integer. */
  function IntAt(buf: seq<Byte>, at: nat): (r: Option<(nat, nat)>)
    ensures r.Some? ==> r.value.0 < HALF && at < r.value.1 <= |buf|
  {
    if at >= |buf| then None
    else
      var (v, end) := Scan(buf, at, 0);
      if v < HALF then Some((v, end)) else None
  }

  lemma DigitsJoin(v: nat)
    ensures v / 128 * 128 + v % 128 == v && v / 128 <= v && v % 128 < 128
  {
  }

  lemma LeadingNext(w: nat, d: nat)
    requires d < 128
    ensures Leading(w * 128 + d) == if w == 0 && d == 0 then [] else Leading(w) + [128 + d]
  {
    var v := w * 128 + d;
    assert v / 128 == w && v % 128 == d;
  }

  lemma ScanStep(buf: seq<Byte>, at: nat, value: nat, d: nat)
    requires at < |buf| && d < 128 && value * 128 + d < TOP && buf[at] % 128 == d
    ensures Scan(buf, at, value) ==
      if buf[at] >= 128 && at + 1 < |buf| then Scan(buf, at + 1, value * 128 + d) else (value * 128 + d, at + 1)
  {
    var next := value * 128 + d;
    assert next % TOP == next;
  }

  /** Scanning the leading digits of a number loads it into the register. */
  lemma {:induction false} ScanLeading(buf: seq<Byte>, at: nat, v: nat)
    requires v < TOP && at + |Leading(v)| < |buf| && buf[at..at + |Leading(v)|] == Leading(v)
    ensures Scan(buf, at, 0) == Scan(buf, at + |Leading(v)|, v)
    decreases v
  {
    hide Scan, Leading;
    var w, d := v / 128, v % 128;
    DigitsJoin(v);
    LeadingNext(w, d);
    LeadingZero();
    if v > 0 {
      var h := Leading(w);
      var end := at + |h|;
      assert buf[at..end] == buf[at..at + |Leading(v)|][..|h|] == h;
      ScanLeading(buf, at, w);
      assert buf[end] == buf[at..at + |Leading(v)|][|h|] == 128 + d;
      assert (128 + d) % 128 == d;
      ScanStep(buf, end, w, d);
    }
  }

  lemma LeadingZero()
    ensures Leading(0) == []
  {
  }

  /** Every 32-bit pattern is read back, wherever it stands, exactly when it is not negative. */
  lemma IntRoundTrip(pre: seq<Byte>, v: nat, post: seq<Byte>)
    requires v < TOP
    ensures IntAt(pre + IntText(v) + post, |pre|) ==
      if v < HALF then Some((v, |pre| + |IntText(v)|)) else None
  {
    hide Scan, Leading;
    var h, buf := Leading(v / 128), pre + IntText(v) + post;
    DigitsJoin(v);
    assert buf[|pre|..|pre| + |h|] == h;
    assert buf[|pre| + |h|] == v % 128;
    ScanLeading(buf, |pre|, v / 128);
    ScanStep(buf, |pre| + |h|, v / 128, v % 128);
  }

  /** The number a digit string stands for. */
  function Value(t: seq<Byte>): nat
    decreases |t|
  {
    if t == [] then 0 else Value(t[..|t| - 1]) * 128 + t[|t| - 1] % 128
  }

  lemma ValueSnoc(t: seq<Byte>, b: Byte)
    ensures Value(t + [b]) == Value(t) * 128 + b % 128
  {
    assert (t + [b])[..|t|] == t;
  }

  /** Scanning any marked digits, leading zeros included, loads their number into the register. */
  lemma {:induction false} ScanDigits(buf: seq<Byte>, at: nat, t: seq<Byte>)
    requires at + |t| < |buf| && buf[at..at + |t|] == t && Value(t) < TOP && forall i :: 0 <= i < |t| ==> t[i] >= 128
    ensures Scan(buf, at, 0) == Scan(buf, at + |t|, Value(t))
    decreases |t|
  {
    hide Scan, Value;
    if t == [] {
      NoDigits();
    } else {
      var n := |t| - 1;
      var init := t[..n];
      assert t == init + [t[n]];
      ValueSnoc(init, t[n]);
      assert buf[at..at + n] == buf[at..at + |t|][..n] == init;
      assert buf[at + n] == buf[at..at + |t|][n] == t[n];
      ScanDigits(buf, at, init);
      ScanStep(buf, at + n, Value(init), t[n] % 128);
    }
  }

  /** Any well-formed digits are read as their number, not only the shortest ones. */
  lemma AnyDigits(buf: seq<Byte>, at: nat, t: seq<Byte>, v: nat, last: Byte)
    requires v == Value(t) && v * 128 + last < HALF && last < 128 && forall i :: 0 <= i < |t| ==> t[i] >= 128
    requires at + |t| < |buf| && buf[at..at + |t|] == t && buf[at + |t|] == last
    ensures IntAt(buf, at) == Some((v * 128 + last, at + |t| + 1))
  {
    hide Scan, Value;
    ScanDigits(buf, at, t);
    assert last % 128 == last;
    ScanStep(buf, at + |t|, v, last);
  }

  lemma {:induction false} LeadingValue(v: nat)
    ensures Value(Leading(v)) == v && forall i :: 0 <= i < |Leading(v)| ==> Leading(v)[i] >= 128
    decreases v
  {
    hide Value, Leading;
    LeadingZero();
    if v == 0 {
      assert Value([]) == 0 by { NoDigits(); }
    } else {
      var w, d := v / 128, v % 128;
      DigitsJoin(v);
      LeadingNext(w, d);
      LeadingValue(w);
      ValueSnoc(Leading(w), 128 + d);
      assert (128 + d) % 128 == d;
    }
  }

  lemma NoDigits()
    ensures Value([]) == 0
  {
  }

  lemma {:induction false} LeadingShortest(t: seq<Byte>)
    ensures |Leading(Value(t))| <= |t|
    decreases |t|
  {
    hide Leading;
    if t == [] {
      LeadingZero();
    } else {
      LeadingShortest(t[..|t| - 1]);
      LeadingNext(Value(t[..|t| - 1]), t[|t| - 1] % 128);
    }
  }

  lemma ValueInit(t: seq<Byte>)
    requires t != []
    ensures Value(t) / 128 == Value(t[..|t| - 1])
  {
  }

  /** The text stands for the number, marks all digits but the last, and none shorter does. */
  lemma IntTextShortest(v: nat, t: seq<Byte>)
    ensures Value(IntText(v)) == v
    ensures forall i :: 0 <= i < |IntText(v)| ==> (IntText(v)[i] >= 128 <==> i < |IntText(v)| - 1)
    ensures t != [] && Value(t) == v ==> |IntText(v)| <= |t|
  {
    hide Leading, Value;
    DigitsJoin(v);
    LeadingValue(v / 128);
    ValueSnoc(Leading(v / 128), v % 128);
    assert (v % 128) % 128 == v % 128;
    if t != [] && Value(t) == v {
      LeadingShortest(t[..|t| - 1]);
      ValueInit(t);
    }
  }

  // ---------------------------------------------------------------- strings

  function StringText(s: seq<Byte>): seq<Byte> {
    IntText(|s|) + s
  }

  function StringAt(buf: seq<Byte>, at: nat): (r: Option<(seq<Byte>, nat)>)
    ensures r.Some? ==> at < r.value.1 <= |buf|
  {
    match IntAt(buf, at)
    case None => None
    case Some((len, start)) =>
      if start + len <= |buf| then Some((buf[start..start + len], start + len)) else None
  }

  lemma StringRoundTrip(pre: seq<Byte>, s: seq<Byte>, post: seq<Byte>)
    requires |s| < HALF
    ensures StringAt(pre + StringText(s) + post, |pre|) == Some((s, |pre| + |StringText(s)|))
  {
    hide IntText, IntAt;
    assert pre + StringText(s) + post == pre + IntText(|s|) + (s + post);
    IntRoundTrip(pre, |s|, s + post);
    var buf, start := pre + StringText(s) + post, |pre| + |IntText(|s|)|;
    assert buf[start..start + |s|] == s;
  }

  // ---------------------------------------------------------------- maps

  type Vars = map<seq<Byte>, seq<Byte>>

  /** The entries in the given order of keys. */
  function EntriesText(m: Vars, order: seq<seq<Byte>>): seq<Byte>
    requires forall i :: 0 <= i < |order| ==> order[i] in m
    decreases |order|
  {
    if order == [] then []
    else StringText(order[0]) + StringText(m[order[0]]) + EntriesText(m, order[1..])
  }

  /** The key order visits every key of the map once. */
  ghost predicate Orders(order: seq<seq<Byte>>, m: Vars) {
    && (forall k :: k in order <==> k in m)
    && (forall i, j :: 0 <= i < j < |order| ==> order[i] != order[j])
  }

  function VarText(m: Vars, order: seq<seq<Byte>>): seq<Byte>
    requires forall i :: 0 <= i < |order| ==> order[i] in m
  {
    IntText(|order|) + EntriesText(m, order)
  }

  /** Loading ends well, meets an empty key, or fails an assertion. */
  datatype Loading = Loaded | BadKey | Failed

  /** Reads `n` entries. */
  function LoadEntries(buf: seq<Byte>, at: nat, n: nat, vars: Vars): (Loading, Vars)
    decreases n
  {
    if n == 0 then (Loaded, vars)
    else
      match StringAt(buf, at)
      case None => (Failed, vars)
      case Some((key, mid)) =>
        match StringAt(buf, mid)
        case None => (Failed, vars)
        case Some((value, end)) =>
          if key == [] then (BadKey, vars)
          else LoadEntries(buf, end, n - 1, Inserted(vars, key, value))
  }

  /** A key that is already known keeps its value. */
  function Inserted(vars: Vars, key: seq<Byte>, value: seq<Byte>): Vars {
    if key in vars then vars else vars[key := value]
  }

  /** Of two entries with one key the first counts. */
  lemma FirstCounts(vars: Vars, key: seq<Byte>, a: seq<Byte>, b: seq<Byte>)
    requires key !in vars
    ensures Inserted(vars, key, a) == vars[key := a] && Inserted(Inserted(vars, key, a), key, b) == vars[key := a]
  {
  }

  lemma LoadStep(buf: seq<Byte>, at: nat, n: nat, vars: Vars)
    requires n > 0
    ensures LoadEntries(buf, at, n, vars) ==
      match StringAt(buf, at)
      case None => (Failed, vars)
      case Some((key, mid)) =>
        match StringAt(buf, mid)
        case None => (Failed, vars)
        case Some((value, end)) =>
          if key == [] then (BadKey, vars) else LoadEntries(buf, end, n - 1, Inserted(vars, key, value))
  {
  }

  lemma NothingToLoad(buf: seq<Byte>, at: nat, vars: Vars)
    ensures LoadEntries(buf, at, 0, vars) == (Loaded, vars)
  {
  }

  function Load(buf: seq<Byte>, vars: Vars): (Loading, Vars) {
    match IntAt(buf, 0)
    case None => (Failed, vars)
    case Some((n, at)) => LoadEntries(buf, at, n, vars)
  }

  /** The map fits the format: all lengths are 32-bit integers. */
  ghost predicate Fits(m: Vars) {
    |m| < HALF && forall k :: k in m ==> |k| < HALF && |m[k]| < HALF
  }

  function Restricted(m: Vars, keys: seq<seq<Byte>>): Vars {
    map k | k in m && k in keys :: m[k]
  }

  lemma RestrictedMore(m: Vars, done: seq<seq<Byte>>, k: seq<Byte>)
    requires k in m && k !in done
    ensures Inserted(Restricted(m, done), k, m[k]) == Restricted(m, done + [k])
  {
  }

  lemma RestrictedEnds(m: Vars, order: seq<seq<Byte>>)
    requires Orders(order, m)
    ensures Restricted(m, []) == map[] && Restricted(m, [] + order) == m
  {
    assert [] + order == order;
  }

  /** Reading back one written entry. */
  lemma EntryLoads(m: Vars, pre: seq<Byte>, order: seq<seq<Byte>>, vars: Vars)
    requires order != [] && (forall i :: 0 <= i < |order| ==> order[i] in m) && Fits(m)
    ensures var k := order[0];
      var head := pre + StringText(k) + StringText(m[k]);
      var buf := pre + EntriesText(m, order);
      && buf == head + EntriesText(m, order[1..])
      && LoadEntries(buf, |pre|, |order|, vars) ==
        if k == [] then (BadKey, vars)
        else LoadEntries(buf, |head|, |order| - 1, Inserted(vars, k, m[k]))
  {
    hide StringText, StringAt, LoadEntries, Inserted, EntriesText;
    var k, rest := order[0], EntriesText(m, order[1..]);
    var buf := pre + EntriesText(m, order);
    var a, b := StringText(k), StringText(m[k]);
    assert EntriesText(m, order) == a + b + rest by {
      FirstEntry(m, order);
    }
    Regroup(pre, a, b, rest);
    StringRoundTrip(pre, k, b + rest);
    StringRoundTrip(pre + a, m[k], rest);
    LoadStep(buf, |pre|, |order|, vars);
  }

  lemma FirstEntry(m: Vars, order: seq<seq<Byte>>)
    requires order != [] && forall i :: 0 <= i < |order| ==> order[i] in m
    ensures EntriesText(m, order) == StringText(order[0]) + StringText(m[order[0]]) + EntriesText(m, order[1..])
  {
  }

  lemma Regroup(p: seq<Byte>, a: seq<Byte>, b: seq<Byte>, c: seq<Byte>)
    ensures p + (a + b + c) == p + a + (b + c) == p + a + b + c
  {
  }

  lemma {:induction false} EntriesLoad(m: Vars, pre: seq<Byte>, done: seq<seq<Byte>>, order: seq<seq<Byte>>)
    requires (forall i :: 0 <= i < |order| ==> order[i] in m && order[i] != []) && Fits(m)
    requires forall i, j :: 0 <= i < j < |order| ==> order[i] != order[j]
    requires forall i :: 0 <= i < |order| ==> order[i] !in done
    ensures LoadEntries(pre + EntriesText(m, order), |pre|, |order|, Restricted(m, done))
      == (Loaded, Restricted(m, done + order))
    decreases |order|
  {
    hide StringText, StringAt, LoadEntries, EntriesText, Restricted, Fits;
    if order == [] {
      assert done + order == done;
      NothingToLoad(pre + EntriesText(m, order), |pre|, Restricted(m, done));
    } else {
      var k := order[0];
      EntryLoads(m, pre, order, Restricted(m, done));
      assert order == [k] + order[1..] && k !in order[1..];
      RestrictedMore(m, done, k);
      EntriesLoad(m, pre + StringText(k) + StringText(m[k]), done + [k], order[1..]);
      assert done + [k] + order[1..] == done + order;
    }
  }

  lemma {:induction false} BadKeyFound(m: Vars, pre: seq<Byte>, order: seq<seq<Byte>>, vars: Vars)
    requires (forall i :: 0 <= i < |order| ==> order[i] in m) && Fits(m) && [] in order
    ensures LoadEntries(pre + EntriesText(m, order), |pre|, |order|, vars).0 == BadKey
    decreases |order|
  {
    hide StringText, StringAt;
    EntryLoads(m, pre, order, vars);
    var k := order[0];
    if k != [] {
      assert order == [k] + order[1..];
      BadKeyFound(m, pre + StringText(k) + StringText(m[k]), order[1..], Inserted(vars, k, m[k]));
    }
  }

  lemma {:induction false} OrderSize(order: seq<seq<Byte>>, m: Vars)
    requires Orders(order, m)
    ensures |order| == |m|
    decreases |order|
  {
    if order == [] {
      assert m.Keys == {} by {
        forall k ensures k !in m {
          assert k !in order;
        }
      }
      assert |m.Keys| == |m|;
    } else {
      var k, rest := order[0], order[1..];
      assert order == [k] + rest;
      assert Orders(rest, m - {k});
      OrderSize(rest, m - {k});
      assert k in m && (m - {k}).Keys == m.Keys - {k};
      assert |m.Keys| == |m| && |(m - {k}).Keys| == |m - {k}|;
    }
  }

  /** A written map is restored, whatever the key order, exactly when it has no empty key. */
  lemma MapRoundTrip(m: Vars, order: seq<seq<Byte>>)
    requires Fits(m) && Orders(order, m)
    ensures [] !in m ==> Load(VarText(m, order), map[]) == (Loaded, m)
    ensures [] in m ==> Load(VarText(m, order), map[]).0 == BadKey
  {
    hide IntText, IntAt, LoadEntries, EntriesText, Restricted;
    OrderSize(order, m);
    var n := IntText(|order|);
    assert VarText(m, order) == [] + n + EntriesText(m, order);
    IntRoundTrip([], |order|, EntriesText(m, order));
    if [] in m {
      BadKeyFound(m, n, order, map[]);
    } else {
      RestrictedEnds(m, order);
      EntriesLoad(m, n, [], order);
    }
  }

  /** Two numbers and a map with one entry, byte by byte: count, then length and bytes of key and of value. */
  lemma FormatExamples()
    ensures IntText(127) == [0x7f] && IntText(300) == [0x82, 0x2c]
    ensures IntAt([], 0) == None && IntAt([0x81], 0) == Some((1, 1))
    ensures var m: Vars := map[[97, 98] := [99]]; VarText(m, [[97, 98]]) == [1, 2, 97, 98, 1, 99]
  {
    hide Leading;
    LeadingZero();
    LeadingNext(0, 2);
    var m: Vars := map[[97, 98] := [99]];
    var order: seq<seq<Byte>> := [[97, 98]];
    NoEntries(m);
    assert order[1..] == [];
    assert IntText(1) == [1] && IntText(2) == [2];
    assert StringText(order[0]) == [2, 97, 98] && StringText(m[order[0]]) == [1, 99];
    assert EntriesText(m, order) == [2, 97, 98] + [1, 99] + [];
  }

  /** A string cut off anywhere behind its count is refused. */
  lemma StringCut(s: seq<Byte>, n: nat)
    requires |s| < HALF && |IntText(|s|)| <= n < |StringText(s)|
    ensures StringAt(StringText(s)[..n], 0) == None
  {
    hide IntText, IntAt;
    var t := StringText(s)[..n];
    assert t == [] + IntText(|s|) + t[|IntText(|s|)|..];
    IntRoundTrip([], |s|, t[|IntText(|s|)|..]);
  }

  // ---------------------------------------------------------------- the objects

  class ConfigVar {
    var buffer: seq<Byte>
    var offset: nat

    ghost predicate Valid()
      reads this
    {
      offset <= |buffer|
    }

    constructor (buf: seq<Byte>)
      ensures Valid() && buffer == buf && offset == 0
    {
      buffer, offset := buf, 0;
    }

    method ResetOffset()
      modifies this
      ensures Valid() && buffer == old(buffer) && offset == 0
    {
      offset := 0;
    }

    method Read(bytes: nat) returns (data: seq<Byte>)
      requires Valid()
      modifies this
      ensures Valid() && buffer == old(buffer) && offset == old(offset) + |data|
      ensures data == buffer[old(offset)..offset] && |data| <= bytes
      ensures |data| < bytes ==> offset == |buffer|
    {
      var toCopy := if bytes < |buffer| - offset then bytes else |buffer| - offset;
      data := buffer[offset..offset + toCopy];
      offset := offset + toCopy;
    }

    /** Writing in the middle inserts. */
    method Write(data: seq<Byte>)
      requires Valid()
      modifies this
      ensures Valid() && buffer == old(buffer[..offset]) + data + old(buffer[offset..])
      ensures offset == old(offset) + |data|
    {
      if |buffer| == offset {
        buffer := buffer + data;
      } else {
        buffer := buffer[..offset] + data + buffer[offset..];
      }
      offset := offset + |data|;
    }

    /** Writes the shortest text of the 32-bit pattern of `val`. */
    method WriteInt(val: int)
      requires Valid() && -0x8000_0000 <= val < HALF
      modifies this
      ensures Valid() && offset == old(offset) + |IntText(val % TOP)|
      ensures buffer == old(buffer[..offset]) + IntText(val % TOP) + old(buffer[offset..])
    {
      var bits := val % TOP;
      var digit: seq<Byte> := [
        128 + bits / 0x1000_0000 % 16,
        128 + bits / 0x20_0000 % 128,
        128 + bits / 0x4000 % 128,
        128 + bits / 0x80 % 128,
        bits % 128];
      FiveDigits(bits);
      var start := 0;
      while digit[start] == 128
        invariant 0 <= start <= 4
        invariant forall i :: 0 <= i < start ==> digit[i] == 128
        decreases 4 - start
      {
        start := start + 1;
      }
      SkipZeros(bits, digit, start);
      Write(digit[start..]);
    }

    method WriteString(data: seq<Byte>)
      requires Valid() && |data| < HALF
      modifies this
      ensures Valid() && offset == old(offset) + |StringText(data)|
      ensures buffer == old(buffer[..offset]) + StringText(data) + old(buffer[offset..])
    {
      hide IntText;
      WriteInt(|data|);
      Write(data);
    }

    /** Fails when nothing is left or the value is negative. */
    method ReadInt() returns (r: Option<nat>)
      requires Valid()
      modifies this
      ensures Valid() && buffer == old(buffer)
      ensures r.Some? <==> IntAt(buffer, old(offset)).Some?
      ensures r.Some? ==> Some((r.value, offset)) == IntAt(buffer, old(offset))
    {
      if offset >= |buffer| {
        return None;
      }
      var at: nat, value: nat, highBitSet := offset, 0, true;
      while highBitSet && at < |buffer|
        invariant offset <= at <= |buffer| && buffer == old(buffer) && offset == old(offset)
        invariant at == offset ==> highBitSet
        invariant if highBitSet && at < |buffer| then Scan(buffer, offset, 0) == Scan(buffer, at, value)
          else Scan(buffer, offset, 0) == (value, at)
        decreases |buffer| - at
      {
        var tmp := buffer[at];
        at := at + 1;
        highBitSet := tmp >= 128;
        value := (value * 128 + tmp % 128) % TOP;
      }
      offset := at;
      if value < HALF {
        r := Some(value);
      } else {
        r := None;
      }
    }

    method ReadString() returns (r: Option<seq<Byte>>)
      requires Valid()
      modifies this
      ensures Valid() && buffer == old(buffer)
      ensures r.Some? <==> StringAt(buffer, old(offset)).Some?
      ensures r.Some? ==> Some((r.value, offset)) == StringAt(buffer, old(offset))
    {
      hide IntAt;
      var length := ReadInt();
      if length.None? {
        return None;
      }
      var data := Read(length.value);
      r := if |data| == length.value then Some(data) else None;
    }
  }

  lemma FiveDigits(v: nat)
    requires v < TOP
    ensures var (d0, d1, d2, d3) := (v / 0x1000_0000 % 16, v / 0x20_0000 % 128, v / 0x4000 % 128, v / 0x80 % 128);
      v / 128 == ((d0 * 128 + d1) * 128 + d2) * 128 + d3
  {
    var q := v / 0x80;
    assert v / 0x4000 == q / 0x80;
    assert v / 0x20_0000 == q / 0x80 / 0x80;
    assert v / 0x1000_0000 == q / 0x80 / 0x80 / 0x80 < 16;
    DigitsJoin(q);
    DigitsJoin(q / 0x80);
    DigitsJoin(q / 0x80 / 0x80);
  }

  lemma SkipZeros(v: nat, digit: seq<Byte>, start: nat)
    requires v < TOP && |digit| == 5 && start <= 4 && digit[start] != 128
    requires digit == [
      128 + v / 0x1000_0000 % 16, 128 + v / 0x20_0000 % 128, 128 + v / 0x4000 % 128, 128 + v / 0x80 % 128, v % 128]
    requires forall i :: 0 <= i < start ==> digit[i] == 128
    ensures digit[start..] == IntText(v)
  {
    hide Leading;
    var (d0, d1, d2, d3) := (v / 0x1000_0000 % 16, v / 0x20_0000 % 128, v / 0x4000 % 128, v / 0x80 % 128);
    FiveDigits(v);
    FourLeading(d0, d1, d2, d3, digit[..4], start);
    assert digit[start..] == digit[..4][start..] + [v % 128];
  }

  lemma FourLeading(d0: nat, d1: nat, d2: nat, d3: nat, digit: seq<Byte>, start: nat)
    requires d0 < 128 && d1 < 128 && d2 < 128 && d3 < 128 && digit == [128 + d0, 128 + d1, 128 + d2, 128 + d3]
    requires start <= 4 && (forall i :: 0 <= i < start ==> digit[i] == 128) && (start < 4 ==> digit[start] != 128)
    ensures Leading(((d0 * 128 + d1) * 128 + d2) * 128 + d3) == digit[start..]
  {
    hide Leading;
    var u0, u1 := d0, d0 * 128 + d1;
    var u2 := u1 * 128 + d2;
    LeadingZero();
    LeadingNext(0, d0);
    LeadingNext(u0, d1);
    LeadingNext(u1, d2);
    LeadingNext(u2, d3);
    if start == 0 {
      assert Leading(u1) == digit[..2] && Leading(u2) == digit[..3];
    } else if start == 1 {
      assert digit[0] == 128;
      assert Leading(u1) == digit[1..2] && Leading(u2) == digit[1..3];
    } else if start == 2 {
      assert digit[0] == 128 && digit[1] == 128;
      assert Leading(u2) == digit[2..3];
    } else {
      assert digit[0] == 128 && digit[1] == 128 && digit[2] == 128;
      assert Leading(u2) == [];
      assert start == 4 ==> digit[3] == 128;
    }
  }

  class ConfigReader {
    var vars: Vars

    constructor ()
      ensures vars == map[]
    {
      vars := map[];
    }

    method LoadFromVar(in': ConfigVar) returns (r: Loading)
      modifies this, in'
      ensures (r, vars) == Load(in'.buffer, old(vars)) && in'.buffer == old(in'.buffer)
    {
      hide Scan, IntAt, StringAt, LoadEntries;
      in'.ResetOffset();
      var numEntries := in'.ReadInt();
      if numEntries.None? {
        return Failed;
      }
      var i := 0;
      while i < numEntries.value
        invariant 0 <= i <= numEntries.value && in'.Valid() && in'.buffer == old(in'.buffer)
        invariant Load(in'.buffer, old(vars)) == LoadEntries(in'.buffer, in'.offset, numEntries.value - i, vars)
      {
        LoadStep(in'.buffer, in'.offset, numEntries.value - i, vars);
        var key := in'.ReadString();
        if key.None? {
          return Failed;
        }
        var value := in'.ReadString();
        if value.None? {
          return Failed;
        }
        if key.value == [] {
          return BadKey;
        }
        vars := Inserted(vars, key.value, value.value);
        i := i + 1;
      }
      NothingToLoad(in'.buffer, in'.offset, vars);
      r := Loaded;
    }

    method WriteEntry(out: ConfigVar, key: seq<Byte>, value: seq<Byte>)
      requires out.offset == |out.buffer| && |key| < HALF && |value| < HALF
      modifies out
      ensures out.offset == |out.buffer| && out.buffer == old(out.buffer) + StringText(key) + StringText(value)
    {
      out.WriteString(key);
      out.WriteString(value);
    }

    method WriteCount(out: ConfigVar)
      requires Fits(vars) && out.buffer == [] && out.offset == 0
      modifies out
      ensures out.buffer == IntText(|vars|) && out.offset == |out.buffer|
    {
      hide IntText;
      var count := |vars|;
      assert count % TOP == count;
      ghost var text := IntText(count);
      assert [] + text + [] == text;
      out.WriteInt(count);
    }

    /** Writes the count and every entry once. */
    method ToVar() returns (out: ConfigVar, ghost order: seq<seq<Byte>>)
      requires Fits(vars)
      ensures fresh(out) && Orders(order, vars) && out.buffer == VarText(vars, order)
    {
      hide IntText, StringText, EntriesText, Orders;
      out := new ConfigVar([]);
      WriteCount(out);
      order := [];
      var rest := vars.Keys;
      NoEntries(vars);
      while rest != {}
        invariant rest <= vars.Keys && out.Valid() && fresh(out) && out.offset == |out.buffer|
        invariant Lists(order, vars, rest)
        invariant out.buffer == IntText(|vars|) + EntriesText(vars, order)
        decreases |rest|
      {
        var k :| k in rest;
        Regroup(IntText(|vars|), EntriesText(vars, order), StringText(k), StringText(vars[k]));
        WriteEntry(out, k, vars[k]);
        EntriesSnoc(vars, order, k);
        ListsMore(order, vars, rest, k);
        order := order + [k];
        rest := rest - {k};
      }
      ListsAll(order, vars);
      OrderSize(order, vars);
    }
  }

  /** The keys written so far: all but the remaining ones, each once. */
  ghost predicate Lists(order: seq<seq<Byte>>, m: Vars, rest: set<seq<Byte>>) {
    && (forall k :: k in order <==> k in m && k !in rest)
    && (forall i, j :: 0 <= i < j < |order| ==> order[i] != order[j])
  }

  lemma ListsMore(order: seq<seq<Byte>>, m: Vars, rest: set<seq<Byte>>, k: seq<Byte>)
    requires Lists(order, m, rest) && k in m && k in rest
    ensures Lists(order + [k], m, rest - {k})
  {
  }

  lemma ListsAll(order: seq<seq<Byte>>, m: Vars)
    requires Lists(order, m, {})
    ensures Orders(order, m)
  {
  }

  lemma NoEntries(m: Vars)
    ensures EntriesText(m, []) == []
  {
  }

  lemma {:induction false} EntriesSnoc(m: Vars, order: seq<seq<Byte>>, k: seq<Byte>)
    requires k in m && forall i :: 0 <= i < |order| ==> order[i] in m
    ensures EntriesText(m, order + [k]) == EntriesText(m, order) + StringText(k) + StringText(m[k])
    decreases |order|
  {
    hide StringText;
    if order == [] {
      assert order + [k] == [k] && [k][1..] == [];
    } else {
      assert (order + [k])[1..] == order[1..] + [k];
      EntriesSnoc(m, order[1..], k);
    }
  }
}
