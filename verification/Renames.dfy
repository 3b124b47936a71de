/**
 * Recursive rename. With chained name IVs the stored name of every entry depends on the path above
 * it, so renaming a directory re-encodes every descendant, entry by entry, deepest first.
 */
module Renames {
  import opened Bytes
  import opened Trees
  import opened Names

  /** Coding of one path component under the IV of its directory; the result carries the IV below it. */
  datatype Coder = Coder(
    enc: (Name, Word64) -> Option<(Name, Word64)>,
    dec: (Name, Word64) -> Option<(Name, Word64)>)
  {
    ghost predicate Lawful() {
      forall p, iv :: enc(p, iv).Some? ==> dec(enc(p, iv).value.0, iv) == Some((p, enc(p, iv).value.1))
    }
  }

  type CTree = Tree<Name>

  /** A name in the plaintext view: decoded, or left as it is because it cannot be decoded. */
  datatype VName = Plain(name: Name) | Raw(cname: Name)

  type VTree = Tree<VName>

  // ---------------------------------------------------------------- the plaintext view

  function RawTree(t: CTree): VTree {
    match t
    case File(id) => File(id)
    case Dir(es) => Dir(seq(|es|, i requires 0 <= i < |es| => (Raw(es[i].0), RawTree(es[i].1))))
  }

  /** The tree a user sees below a directory with IV `iv`. */
  function View(cd: Coder, t: CTree, iv: Word64): VTree
    decreases t, 1
  {
    match t
    case File(id) => File(id)
    case Dir(es) => Dir(seq(|es|, i requires 0 <= i < |es| => ViewEntry(cd, es[i], iv)))
  }

  function ViewEntry(cd: Coder, e: (Name, CTree), iv: Word64): (VName, VTree)
    decreases e, 0
  {
    match cd.dec(e.0, iv)
    case None => (Raw(e.0), RawTree(e.1))
    case Some((p, below)) => (Plain(p), View(cd, e.1, below))
  }

  /** Every decodable entry carries the name its plaintext encodes to. */
  ghost predicate Canonical(cd: Coder, t: CTree, iv: Word64)
    decreases t
  {
    t.Dir? ==> forall i :: 0 <= i < |t.entries| ==>
      match cd.dec(t.entries[i].0, iv)
      case None => true
      case Some((p, below)) =>
        cd.enc(p, iv) == Some((t.entries[i].0, below)) && Canonical(cd, t.entries[i].1, below)
  }

  // ---------------------------------------------------------------- re-encoding a subtree

  /** The subtree as it has to be stored below a directory with IV `to` instead of `from`. */
  function Recode(cd: Coder, t: CTree, from: Word64, to: Word64): CTree
    decreases t, 1
  {
    if from == to then t
    else
      match t
      case File(_) => t
      case Dir(es) => Dir(seq(|es|, i requires 0 <= i < |es| => RecodeEntry(cd, es[i], from, to)))
  }

  function RecodeEntry(cd: Coder, e: (Name, CTree), from: Word64, to: Word64): (Name, CTree)
    decreases e, 0
  {
    match cd.dec(e.0, from)
    case None => e
    case Some((p, belowFrom)) =>
      match cd.enc(p, to)
      case None => e
      case Some((n, belowTo)) => (n, Recode(cd, e.1, belowFrom, belowTo))
  }

  /** Every decodable name can be re-encoded, and no undecodable one becomes decodable by accident. */
  ghost predicate Movable(cd: Coder, t: CTree, from: Word64, to: Word64)
    decreases t
  {
    from != to && t.Dir? ==> forall i :: 0 <= i < |t.entries| ==>
      match cd.dec(t.entries[i].0, from)
      case None => cd.dec(t.entries[i].0, to).None?
      case Some((p, below)) =>
        cd.enc(p, to).Some? && Movable(cd, t.entries[i].1, below, cd.enc(p, to).value.1)
  }

  /** Re-encoding does not change what a user sees. */
  lemma {:induction false} RecodeView(cd: Coder, t: CTree, from: Word64, to: Word64)
    requires cd.Lawful() && Movable(cd, t, from, to)
    ensures View(cd, Recode(cd, t, from, to), to) == View(cd, t, from)
    decreases t
  {
    if from != to && t.Dir? {
      var es := t.entries;
      forall i | 0 <= i < |es|
        ensures ViewEntry(cd, RecodeEntry(cd, es[i], from, to), to) == ViewEntry(cd, es[i], from)
      {
        match cd.dec(es[i].0, from)
        case None =>
        case Some((p, below)) =>
          RecodeView(cd, es[i].1, below, cd.enc(p, to).value.1);
      }
    }
  }

  // ---------------------------------------------------------------- the rename list

  /** One rename(2): in the directory at `dir`, from `oldC` to `newC`. */
  datatype RenameEl = RenameEl(dir: seq<Name>, oldC: Name, newC: Name)

  function Prefixed(c: Name, l: seq<RenameEl>): (r: seq<RenameEl>)
    ensures |r| == |l|
  {
    seq(|l|, i requires 0 <= i < |l| => l[i].(dir := [c] + l[i].dir))
  }

  /** The list for a directory, with paths relative to it; nothing when it cannot be generated. */
  function GenDir(cd: Coder, t: CTree, from: Word64, to: Word64): Option<seq<RenameEl>>
    decreases t, 0
  {
    if from == to then Some([])
    else if t.File? then None
    else GenEntries(cd, t.entries, 0, from, to)
  }

  /** The list for the entries from position `i` on: descendants before the entry itself. */
  function GenEntries(cd: Coder, es: Entries<Name>, i: nat, from: Word64, to: Word64): Option<seq<RenameEl>>
    requires i <= |es|
    decreases es, |es| - i
  {
    if i == |es| then Some([])
    else
      match cd.dec(es[i].0, from)
      case None => GenEntries(cd, es, i + 1, from, to)
      case Some((p, _)) =>
        match cd.enc(p, to)
        case None => None
        case Some((newName, belowTo)) =>
          match (GenBelow(cd, es, i, p, from, belowTo), GenEntries(cd, es, i + 1, from, to))
          case (Some(a), Some(b)) => Some(a + [RenameEl([], es[i].0, newName)] + b)
          case _ => None
  }

  /** The recursive part: the path is re-encoded from the plaintext, then opened. */
  function GenBelow(cd: Coder, es: Entries<Name>, i: nat, p: Name, from: Word64, belowTo: Word64): Option<seq<RenameEl>>
    requires i < |es|
    decreases es, |es| - i, 0
  {
    if es[i].1.File? then Some([])
    else
      match cd.enc(p, from)
      case None => None
      case Some((c, belowFrom)) =>
        var j := Find(es, c);
        if belowFrom == belowTo then Some([])
        else if j == |es| then None
        else
          match GenSub(cd, es[j], belowFrom, belowTo)
          case None => None
          case Some(l) => Some(Prefixed(c, l))
  }

  function GenSub(cd: Coder, e: (Name, CTree), from: Word64, to: Word64): Option<seq<RenameEl>>
    decreases e, 0
  {
    GenDir(cd, e.1, from, to)
  }

  function ApplyAll(t: CTree, l: seq<RenameEl>): Option<CTree>
    decreases |l|
  {
    if l == [] then Some(t)
    else
      match RenameAt(t, l[0].dir, l[0].oldC, l[0].newC)
      case None => None
      case Some(u) => ApplyAll(u, l[1..])
  }

  /** Undoing a list: the last rename is taken back first. */
  function UndoAll(t: CTree, l: seq<RenameEl>): Option<CTree>
    decreases |l|
  {
    if l == [] then Some(t)
    else
      match UndoAll(t, l[1..])
      case None => None
      case Some(u) => RenameAt(u, l[0].dir, l[0].newC, l[0].oldC)
  }

  /** Every new name is free at the moment it is used. */
  predicate FreeRun(t: CTree, l: seq<RenameEl>)
    decreases |l|
  {
    l != [] ==>
      && FreeAt(t, l[0].dir, l[0].oldC, l[0].newC)
      && (match RenameAt(t, l[0].dir, l[0].oldC, l[0].newC)
          case None => true
          case Some(u) => FreeRun(u, l[1..]))
  }

  /** Rollback: undoing what was applied gives back exactly the original tree. */
  lemma {:induction false} UndoApplied(t: CTree, l: seq<RenameEl>)
    requires Proper(t) && FreeRun(t, l) && ApplyAll(t, l).Some?
    ensures UndoAll(ApplyAll(t, l).value, l) == Some(t)
    decreases |l|
  {
    if l != [] {
      var e := l[0];
      RenameBack(t, e.dir, e.oldC, e.newC);
      UndoApplied(RenameAt(t, e.dir, e.oldC, e.newC).value, l[1..]);
    }
  }

  /** A list loses entries exactly when some new name was taken. */
  lemma {:induction false} RunWeight(t: CTree, l: seq<RenameEl>)
    requires ApplyAll(t, l).Some?
    ensures Weight(ApplyAll(t, l).value) <= Weight(t)
    ensures Weight(ApplyAll(t, l).value) == Weight(t) <==> FreeRun(t, l)
    decreases |l|
  {
    if l != [] {
      hide Weight, RenameAt, FreeAt;
      var e := l[0];
      RenameWeight(t, e.dir, e.oldC, e.newC);
      RunWeight(RenameAt(t, e.dir, e.oldC, e.newC).value, l[1..]);
    }
  }

  lemma {:induction false} UndoWeight(t: CTree, l: seq<RenameEl>)
    requires UndoAll(t, l).Some?
    ensures Weight(UndoAll(t, l).value) <= Weight(t)
    decreases |l|
  {
    if l != [] {
      hide Weight, RenameAt;
      UndoWeight(t, l[1..]);
      RenameWeight(UndoAll(t, l[1..]).value, l[0].dir, l[0].newC, l[0].oldC);
    }
  }

  /** Rollback works exactly when every new name was free when it was used. */
  lemma UndoExact(t: CTree, l: seq<RenameEl>)
    requires Proper(t) && ApplyAll(t, l).Some?
    ensures UndoAll(ApplyAll(t, l).value, l) == Some(t) <==> FreeRun(t, l)
  {
    hide Weight, ApplyAll, UndoAll, FreeRun;
    RunWeight(t, l);
    if FreeRun(t, l) {
      UndoApplied(t, l);
    }
    if UndoAll(ApplyAll(t, l).value, l).Some? {
      UndoWeight(ApplyAll(t, l).value, l);
    }
  }

  // ---------------------------------------------------------------- applying the list re-encodes the subtree

  /** The name an entry has after the pass. */
  function NewName(cd: Coder, e: (Name, CTree), from: Word64, to: Word64): Name {
    RecodeEntry(cd, e, from, to).0
  }

  /** A new name differs from the new names before it and the old names after it. */
  ghost predicate NoClash(cd: Coder, t: CTree, from: Word64, to: Word64)
    decreases t
  {
    from != to && t.Dir? ==>
      && (forall i, j :: 0 <= j < i < |t.entries| ==>
            && NewName(cd, t.entries[i], from, to) != NewName(cd, t.entries[j], from, to)
            && NewName(cd, t.entries[j], from, to) != t.entries[i].0)
      && (forall i :: 0 <= i < |t.entries| ==>
            match cd.dec(t.entries[i].0, from)
            case None => true
            case Some((p, below)) =>
              cd.enc(p, to).Some? ==> NoClash(cd, t.entries[i].1, below, cd.enc(p, to).value.1))
  }

  lemma {:induction false} ApplyConcat(t: CTree, a: seq<RenameEl>, b: seq<RenameEl>)
    requires ApplyAll(t, a).Some?
    ensures ApplyAll(t, a + b) == ApplyAll(ApplyAll(t, a).value, b)
    ensures FreeRun(t, a + b) <==> FreeRun(t, a) && FreeRun(ApplyAll(t, a).value, b)
    decreases |a|
  {
    if a == [] {
      assert a + b == b;
    } else {
      assert (a + b)[1..] == a[1..] + b;
      ApplyConcat(RenameAt(t, a[0].dir, a[0].oldC, a[0].newC).value, a[1..], b);
    }
  }

  /** Renames below an entry change only that entry's subtree. */
  lemma {:induction false} ApplyPrefixed(es: Entries<Name>, i: nat, c: Name, l: seq<RenameEl>)
    requires i < |es| && Find(es, c) == i && ApplyAll(es[i].1, l).Some? && FreeRun(es[i].1, l)
    ensures ApplyAll(Dir(es), Prefixed(c, l)) == Some(Dir(es[i := (c, ApplyAll(es[i].1, l).value)]))
    ensures FreeRun(Dir(es), Prefixed(c, l))
    decreases |l|
  {
    if l == [] {
      assert es[i := (c, es[i].1)] == es;
    } else {
      var e, pl := l[0], Prefixed(c, l);
      assert pl[0].dir[0] == c && pl[0].dir[1..] == e.dir;
      assert pl[1..] == Prefixed(c, l[1..]);
      var u := RenameAt(es[i].1, e.dir, e.oldC, e.newC).value;
      var us := es[i := (c, u)];
      FindUpdated(es, i, u, c);
      ApplyPrefixed(us, i, c, l[1..]);
      assert us[i := (c, ApplyAll(u, l[1..]).value)] == es[i := (c, ApplyAll(u, l[1..]).value)];
    }
  }

  /** The directory half way through: entries before `i` are done. */
  function Mixed(cd: Coder, es: Entries<Name>, i: nat, from: Word64, to: Word64): (r: Entries<Name>)
    requires i <= |es|
    ensures |r| == |es|
  {
    seq(|es|, j requires 0 <= j < |es| => if j < i then RecodeEntry(cd, es[j], from, to) else es[j])
  }

  lemma MixedEnds(cd: Coder, es: Entries<Name>, from: Word64, to: Word64)
    ensures Mixed(cd, es, 0, from, to) == es
    ensures from != to ==> Dir(Mixed(cd, es, |es|, from, to)) == Recode(cd, Dir(es), from, to)
  {
    hide RecodeEntry;
  }

  /** What one entry needs for its turn: its own subtree is re-encoded by its own list. */
  lemma {:induction false} EntryApplies(cd: Coder, es: Entries<Name>, i: nat, p: Name, from: Word64, to: Word64)
    requires i < |es| && from != to && Proper(Dir(es)) && Canonical(cd, Dir(es), from) && NoClash(cd, Dir(es), from, to)
    requires cd.dec(es[i].0, from).Some? && cd.dec(es[i].0, from).value.0 == p && cd.enc(p, to).Some?
    requires GenBelow(cd, es, i, p, from, cd.enc(p, to).value.1).Some?
    ensures var sub := GenBelow(cd, es, i, p, from, cd.enc(p, to).value.1).value;
      var now, done := Mixed(cd, es, i, from, to), Mixed(cd, es, i + 1, from, to);
      var l := sub + [RenameEl([], es[i].0, cd.enc(p, to).value.0)];
      ApplyAll(Dir(now), l) == Some(Dir(done)) && FreeRun(Dir(now), l)
    decreases es, |es| - i, 0
  {
    hide RecodeEntry, ApplyAll, FreeRun, Prefixed, NoClash, Recode;
    var (c, below) := (es[i].0, cd.dec(es[i].0, from).value.1);
    var (newName, belowTo) := cd.enc(p, to).value;
    var now := Mixed(cd, es, i, from, to);
    var sub := GenBelow(cd, es, i, p, from, belowTo).value;
    var x := Recode(cd, es[i].1, below, belowTo);
    var mid := now[i := (c, x)];
    NowFinds(cd, es, i, from, to);
    assert ApplyAll(Dir(now), sub) == Some(Dir(mid)) && FreeRun(Dir(now), sub) by {
      SubApplies(cd, es, i, p, from, to);
    }
    ApplyConcat(Dir(now), sub, [RenameEl([], c, newName)]);
    Decoded(cd, es[i], p, from, to);
    LastRename(cd, es, i, x, from, to);
  }

  /** In the half-done directory the entry at `i` is still found, and its new name is free. */
  lemma NowFinds(cd: Coder, es: Entries<Name>, i: nat, from: Word64, to: Word64)
    requires i < |es| && from != to && Proper(Dir(es)) && NoClash(cd, Dir(es), from, to)
    ensures var now := Mixed(cd, es, i, from, to);
      && Find(es, es[i].0) == i && Find(now, es[i].0) == i
      && (NewName(cd, es[i], from, to) == es[i].0 || Find(now, NewName(cd, es[i], from, to)) == |es|)
  {
    hide RecodeEntry, Proper, NoClash, Find, NewName;
    NamesApart(cd, es, i, from, to);
    var now, n := Mixed(cd, es, i, from, to), NewName(cd, es[i], from, to);
    forall j | 0 <= j < |es| ensures now[j].0 == if j < i then NewName(cd, es[j], from, to) else es[j].0 {
      NewNameIs(cd, es[j], from, to);
    }
    FindIs(es, es[i].0, i);
    FindIs(now, es[i].0, i);
  }

  lemma NewNameIs(cd: Coder, e: (Name, CTree), from: Word64, to: Word64)
    ensures NewName(cd, e, from, to) == RecodeEntry(cd, e, from, to).0
  {
  }

  /** What keeps the names of one directory apart, old and new. */
  lemma NamesApart(cd: Coder, es: Entries<Name>, i: nat, from: Word64, to: Word64)
    requires i < |es| && from != to && Proper(Dir(es)) && NoClash(cd, Dir(es), from, to)
    ensures forall j :: 0 <= j < i ==> es[j].0 != es[i].0
    ensures forall j :: 0 <= j < i ==>
      NewName(cd, es[j], from, to) != es[i].0 && NewName(cd, es[j], from, to) != NewName(cd, es[i], from, to)
    ensures forall j :: i < j < |es| ==> NewName(cd, es[i], from, to) != es[j].0
  {
    hide NewName;
  }

  lemma {:induction false} SubApplies(cd: Coder, es: Entries<Name>, i: nat, p: Name, from: Word64, to: Word64)
    requires i < |es| && from != to && Proper(Dir(es)) && Canonical(cd, Dir(es), from) && NoClash(cd, Dir(es), from, to)
    requires cd.dec(es[i].0, from).Some? && cd.dec(es[i].0, from).value.0 == p && cd.enc(p, to).Some?
    requires GenBelow(cd, es, i, p, from, cd.enc(p, to).value.1).Some?
    ensures var sub := GenBelow(cd, es, i, p, from, cd.enc(p, to).value.1).value;
      var now := Mixed(cd, es, i, from, to);
      var x := Recode(cd, es[i].1, cd.dec(es[i].0, from).value.1, cd.enc(p, to).value.1);
      ApplyAll(Dir(now), sub) == Some(Dir(now[i := (es[i].0, x)])) && FreeRun(Dir(now), sub)
    decreases es, |es| - i, -1
  {
    hide RecodeEntry, Prefixed;
    var (c, below) := (es[i].0, cd.dec(es[i].0, from).value.1);
    var belowTo := cd.enc(p, to).value.1;
    var now := Mixed(cd, es, i, from, to);
    NowFinds(cd, es, i, from, to);
    assert now[i] == es[i];
    if es[i].1.File? || below == belowTo {
      assert now[i := (c, es[i].1)] == now;
    } else {
      GenDirApplies(cd, es[i].1, below, belowTo);
      ApplyPrefixed(now, i, c, GenDir(cd, es[i].1, below, belowTo).value);
    }
  }

  lemma LastRename(cd: Coder, es: Entries<Name>, i: nat, x: CTree, from: Word64, to: Word64)
    requires i < |es| && from != to && Proper(Dir(es)) && NoClash(cd, Dir(es), from, to)
    requires RecodeEntry(cd, es[i], from, to).1 == x
    ensures var mid := Mixed(cd, es, i, from, to)[i := (es[i].0, x)];
      var l := [RenameEl([], es[i].0, NewName(cd, es[i], from, to))];
      ApplyAll(Dir(mid), l) == Some(Dir(Mixed(cd, es, i + 1, from, to))) && FreeRun(Dir(mid), l)
  {
    hide RecodeEntry, NoClash, Proper;
    var now, n := Mixed(cd, es, i, from, to), NewName(cd, es[i], from, to);
    var mid := now[i := (es[i].0, x)];
    var el := RenameEl([], es[i].0, n);
    NowFinds(cd, es, i, from, to);
    FindUpdated(now, i, x, es[i].0);
    FindUpdated(now, i, x, n);
    assert mid[i := (n, x)] == Mixed(cd, es, i + 1, from, to);
    if n == es[i].0 {
      assert mid[i := (n, x)] == mid;
    }
    assert RenameEntry(mid, es[i].0, n) == Some(mid[i := (n, x)]);
    assert RenameAt(Dir(mid), [], el.oldC, el.newC) == Some(Dir(mid[i := (n, x)]));
    assert FreeAt(Dir(mid), [], el.oldC, el.newC);
    SingleRun(Dir(mid), el);
  }

  lemma SingleRun(t: CTree, e: RenameEl)
    ensures ApplyAll(t, [e]) == RenameAt(t, e.dir, e.oldC, e.newC)
    ensures FreeRun(t, [e]) == FreeAt(t, e.dir, e.oldC, e.newC)
  {
    hide RenameAt, FreeAt;
    assert [e][1..] == [];
    var u := RenameAt(t, e.dir, e.oldC, e.newC);
    if u.Some? {
      assert ApplyAll(u.value, []) == u && FreeRun(u.value, []);
    }
  }

  lemma Undecoded(cd: Coder, e: (Name, CTree), from: Word64, to: Word64)
    requires cd.dec(e.0, from).None?
    ensures RecodeEntry(cd, e, from, to) == e
  {
  }

  lemma Decoded(cd: Coder, e: (Name, CTree), p: Name, from: Word64, to: Word64)
    requires cd.dec(e.0, from).Some? && cd.dec(e.0, from).value.0 == p && cd.enc(p, to).Some?
    ensures RecodeEntry(cd, e, from, to) ==
      (cd.enc(p, to).value.0, Recode(cd, e.1, cd.dec(e.0, from).value.1, cd.enc(p, to).value.1))
  {
  }

  lemma {:induction false} EntriesApply(cd: Coder, es: Entries<Name>, i: nat, from: Word64, to: Word64)
    requires i <= |es| && from != to
    requires Proper(Dir(es)) && Canonical(cd, Dir(es), from) && NoClash(cd, Dir(es), from, to)
    requires GenEntries(cd, es, i, from, to).Some?
    ensures var l := GenEntries(cd, es, i, from, to).value;
      var now := Dir(Mixed(cd, es, i, from, to));
      ApplyAll(now, l) == Some(Dir(Mixed(cd, es, |es|, from, to))) && FreeRun(now, l)
    decreases es, |es| - i, 1
  {
    hide RecodeEntry, GenBelow, NoClash, Proper, Canonical, Prefixed;
    if i < |es| {
      EntriesApply(cd, es, i + 1, from, to);
      match cd.dec(es[i].0, from)
      case None =>
        Undecoded(cd, es[i], from, to);
        assert Mixed(cd, es, i, from, to) == Mixed(cd, es, i + 1, from, to);
      case Some((p, _)) =>
        EntryApplies(cd, es, i, p, from, to);
        var (newName, belowTo) := cd.enc(p, to).value;
        var a := GenBelow(cd, es, i, p, from, belowTo).value + [RenameEl([], es[i].0, newName)];
        ApplyConcat(Dir(Mixed(cd, es, i, from, to)), a, GenEntries(cd, es, i + 1, from, to).value);
    }
  }

  /** Applying the generated list re-encodes the directory, each new name being free when used. */
  lemma {:induction false} GenDirApplies(cd: Coder, t: CTree, from: Word64, to: Word64)
    requires Proper(t) && Canonical(cd, t, from) && NoClash(cd, t, from, to) && GenDir(cd, t, from, to).Some?
    ensures var l := GenDir(cd, t, from, to).value;
      ApplyAll(t, l) == Some(Recode(cd, t, from, to)) && FreeRun(t, l)
    decreases t, 0
  {
    if from != to {
      hide RecodeEntry, ApplyAll, FreeRun, Prefixed, GenEntries, Recode;
      EntriesApply(cd, t.entries, 0, from, to);
      MixedEnds(cd, t.entries, from, to);
    }
  }

  // ---------------------------------------------------------------- the list on the whole tree

  /** The list with its paths seen from further up. */
  function Below(path: seq<Name>, l: seq<RenameEl>): (r: seq<RenameEl>)
    ensures |r| == |l|
  {
    seq(|l|, i requires 0 <= i < |l| => l[i].(dir := path + l[i].dir))
  }

  /** Applied to the whole tree, the list replaces the subtree at its place. */
  lemma {:induction false} ApplyBelow(t: CTree, path: seq<Name>, l: seq<RenameEl>)
    requires Lookup(t, path).Some? && ApplyAll(Lookup(t, path).value, l).Some? && FreeRun(Lookup(t, path).value, l)
    ensures ApplyAll(t, Below(path, l)) == Graft(t, path, ApplyAll(Lookup(t, path).value, l).value)
    ensures ApplyAll(t, Below(path, l)).Some? && FreeRun(t, Below(path, l))
    decreases |path|
  {
    hide ApplyAll, FreeRun, Find;
    if path == [] {
      assert Below(path, l) == l by {
        forall k | 0 <= k < |l| ensures path + l[k].dir == l[k].dir {
        }
      }
    } else {
      var i := Find(t.entries, path[0]);
      ApplyBelow(t.entries[i].1, path[1..], l);
      ApplyPrefixed(t.entries, i, path[0], Below(path[1..], l));
      assert Below(path, l) == Prefixed(path[0], Below(path[1..], l)) by {
        forall k | 0 <= k < |l| ensures [path[0]] + (path[1..] + l[k].dir) == path + l[k].dir {
        }
      }
    }
  }

  /** No undecodable name becomes decodable by accident. */
  ghost predicate Stays(cd: Coder, t: CTree, from: Word64, to: Word64)
    decreases t
  {
    from != to && t.Dir? ==> forall i :: 0 <= i < |t.entries| ==>
      match cd.dec(t.entries[i].0, from)
      case None => cd.dec(t.entries[i].0, to).None?
      case Some((p, below)) =>
        cd.enc(p, to).Some? ==> Stays(cd, t.entries[i].1, below, cd.enc(p, to).value.1)
  }

  lemma {:induction false} EntriesGenerated(cd: Coder, es: Entries<Name>, i: nat, k: nat, from: Word64, to: Word64)
    requires i <= k < |es| && GenEntries(cd, es, i, from, to).Some? && cd.dec(es[k].0, from).Some?
    ensures var p := cd.dec(es[k].0, from).value.0;
      cd.enc(p, to).Some? && GenBelow(cd, es, k, p, from, cd.enc(p, to).value.1).Some?
    decreases k - i
  {
    hide GenBelow;
    if i < k {
      EntriesGenerated(cd, es, i + 1, k, from, to);
    }
  }

  /** A generated list means that every name below can be re-encoded. */
  lemma {:induction false} GenMovable(cd: Coder, t: CTree, from: Word64, to: Word64)
    requires Proper(t) && Canonical(cd, t, from) && GenDir(cd, t, from, to).Some? && Stays(cd, t, from, to)
    ensures Movable(cd, t, from, to)
    decreases t
  {
    if from != to {
      hide GenEntries;
      var es := t.entries;
      forall i | 0 <= i < |es|
        ensures match cd.dec(es[i].0, from)
          case None => cd.dec(es[i].0, to).None?
          case Some((p, below)) => cd.enc(p, to).Some? && Movable(cd, es[i].1, below, cd.enc(p, to).value.1)
      {
        match cd.dec(es[i].0, from)
        case None =>
        case Some((p, below)) =>
          EntriesGenerated(cd, es, 0, i, from, to);
          FindIs(es, es[i].0, i);
          if es[i].1.Dir? {
            GenMovable(cd, es[i].1, below, cd.enc(p, to).value.1);
          }
      }
    }
  }

  /** For a generated list: the view is kept exactly when no undecodable name becomes decodable. */
  lemma RecodeViewExact(cd: Coder, t: CTree, from: Word64, to: Word64)
    requires cd.Lawful() && Proper(t) && Canonical(cd, t, from) && GenDir(cd, t, from, to).Some?
    ensures View(cd, Recode(cd, t, from, to), to) == View(cd, t, from) <==> Stays(cd, t, from, to)
  {
    hide View, Recode, Stays, Canonical, Proper, GenDir;
    if Stays(cd, t, from, to) {
      GenMovable(cd, t, from, to);
      RecodeView(cd, t, from, to);
    }
    if View(cd, Recode(cd, t, from, to), to) == View(cd, t, from) {
      SameViewStays(cd, t, from, to);
    }
  }

  lemma {:induction false} SameViewStays(cd: Coder, t: CTree, from: Word64, to: Word64)
    requires cd.Lawful() && Proper(t) && Canonical(cd, t, from) && GenDir(cd, t, from, to).Some?
    requires View(cd, Recode(cd, t, from, to), to) == View(cd, t, from)
    ensures Stays(cd, t, from, to)
    decreases t
  {
    if from != to {
      hide GenEntries;
      var es := t.entries;
      var us := Recode(cd, t, from, to).entries;
      forall i | 0 <= i < |es|
        ensures match cd.dec(es[i].0, from)
          case None => cd.dec(es[i].0, to).None?
          case Some((p, below)) => cd.enc(p, to).Some? ==> Stays(cd, es[i].1, below, cd.enc(p, to).value.1)
      {
        assert us[i] == RecodeEntry(cd, es[i], from, to);
        assert View(cd, Dir(us), to).entries[i] == View(cd, t, from).entries[i];
        assert ViewEntry(cd, us[i], to) == ViewEntry(cd, es[i], from);
        match cd.dec(es[i].0, from)
        case None =>
        case Some((p, below)) =>
          EntriesGenerated(cd, es, 0, i, from, to);
          FindIs(es, es[i].0, i);
          if es[i].1.Dir? {
            SameViewStays(cd, es[i].1, below, cd.enc(p, to).value.1);
          }
      }
    }
  }

  /** Every decodable name, level by level, has an encoding under the IV of its new place. */
  ghost predicate Reencodable(cd: Coder, t: CTree, from: Word64, to: Word64)
    decreases t
  {
    from != to ==> t.Dir? && forall i :: 0 <= i < |t.entries| ==>
      match cd.dec(t.entries[i].0, from)
      case None => true
      case Some((p, below)) =>
        && cd.enc(p, to).Some?
        && (t.entries[i].1.Dir? ==> Reencodable(cd, t.entries[i].1, below, cd.enc(p, to).value.1))
  }

  /** What the list needs of one entry. */
  ghost predicate EntryReencodable(cd: Coder, e: (Name, CTree), from: Word64, to: Word64) {
    match cd.dec(e.0, from)
    case None => true
    case Some((p, below)) =>
      cd.enc(p, to).Some? && (e.1.Dir? ==> Reencodable(cd, e.1, below, cd.enc(p, to).value.1))
  }

  /** A list is generated exactly for a directory whose names can all be re-encoded. */
  lemma {:induction false} GenExact(cd: Coder, t: CTree, from: Word64, to: Word64)
    requires Proper(t) && Canonical(cd, t, from)
    ensures GenDir(cd, t, from, to).Some? <==> Reencodable(cd, t, from, to)
    decreases t, 2
  {
    if from != to && t.Dir? {
      hide GenEntries;
      EntriesExact(cd, t.entries, 0, from, to);
      assert Reencodable(cd, t, from, to) <==>
        forall k :: 0 <= k < |t.entries| ==> EntryReencodable(cd, t.entries[k], from, to);
    }
  }

  lemma {:induction false} EntriesExact(cd: Coder, es: Entries<Name>, i: nat, from: Word64, to: Word64)
    requires i <= |es| && Proper(Dir(es)) && Canonical(cd, Dir(es), from)
    ensures GenEntries(cd, es, i, from, to).Some? <==>
      forall k :: i <= k < |es| ==> EntryReencodable(cd, es[k], from, to)
    decreases es, |es| - i, 1
  {
    hide GenBelow, EntryReencodable, Canonical, Proper;
    if i < |es| {
      EntriesExact(cd, es, i + 1, from, to);
      EntryExact(cd, es, i, from, to);
    }
  }

  lemma {:induction false} EntryExact(cd: Coder, es: Entries<Name>, i: nat, from: Word64, to: Word64)
    requires i < |es| && Proper(Dir(es)) && Canonical(cd, Dir(es), from)
    ensures EntryReencodable(cd, es[i], from, to) <==>
      match cd.dec(es[i].0, from)
      case None => true
      case Some((p, _)) => cd.enc(p, to).Some? && GenBelow(cd, es, i, p, from, cd.enc(p, to).value.1).Some?
    decreases es, |es| - i, 0
  {
    match cd.dec(es[i].0, from)
    case None =>
    case Some((p, below)) =>
      if cd.enc(p, to).Some? && es[i].1.Dir? {
        hide GenDir, Reencodable;
        FindIs(es, es[i].0, i);
        GenExact(cd, es[i].1, below, cd.enc(p, to).value.1);
        SamePlace(cd, es[i].1, below);
      }
  }

  lemma SamePlace(cd: Coder, t: CTree, iv: Word64)
    ensures GenDir(cd, t, iv, iv) == Some([]) && Reencodable(cd, t, iv, iv)
  {
  }
}
