/** The directory node: generating, applying and undoing a recursive rename on the backing tree. */
module DirNodes {
  import opened Bytes
  import opened Trees
  import opened Names
  import opened Renames
  import opened Moves

  /**
   * Done; Refused, with an error code and everything put back; or Broken, when an exception from the
   * internal node rename skips the roll-back.
   */
  datatype Verdict = Done | Refused | Broken

  /**
   * What can go wrong outside the directory: the list stops before entry `stopAt`, the internal node
   * cannot be renamed for the final step, rename(2) refuses it, or the node cannot be renamed back.
   */
  datatype Faults = Faults(stopAt: Option<nat>, nodeFails: bool, diskRefuses: bool, backFails: bool)

  lemma {:induction false} EncodeSnoc(cd: Coder, path: seq<Name>, p: Name, iv: Word64)
    ensures EncodePath(cd, path + [p], iv) ==
      match EncodePath(cd, path, iv)
      case None => None
      case Some((cs, last)) =>
        match cd.enc(p, last)
        case None => None
        case Some((c, below)) => Some((cs + [c], below))
    decreases |path|
  {
    if path == [] {
      assert path + [p] == [p] && [p][1..] == [];
      if cd.enc(p, iv).Some? {
        var (c, below) := cd.enc(p, iv).value;
        assert EncodePath(cd, [], below) == Some(([], below));
        assert [c] + [] == [] + [c];
      }
    } else {
      assert (path + [p])[1..] == path[1..] + [p];
      if cd.enc(path[0], iv).Some? {
        var (c, below) := cd.enc(path[0], iv).value;
        EncodeSnoc(cd, path[1..], p, below);
        if EncodePath(cd, path[1..], below).Some? && EncodePath(cd, path[1..] + [p], below).Some? {
          var (cs, last) := EncodePath(cd, path[1..], below).value;
          assert [c] + (cs + [cd.enc(p, last).value.0]) == [c] + cs + [cd.enc(p, last).value.0];
        }
      }
    }
  }

  /** How deep the tree is below a plaintext path. */
  function Reach(cd: Coder, t: CTree, path: seq<Name>): nat {
    match EncodePath(cd, path, 0)
    case None => 0
    case Some((cs, _)) => DepthAt(t, cs)
  }

  lemma ReachBelow(cd: Coder, t: CTree, path: seq<Name>, p: Name)
    requires EncodePath(cd, path, 0).Some?
    requires var x := Lookup(t, EncodePath(cd, path, 0).value.0); x.Some? && x.value.Dir?
    ensures Reach(cd, t, path + [p]) < Reach(cd, t, path)
  {
    hide EncodePath, Lookup, Depth;
    EncodeSnoc(cd, path, p, 0);
    var (cs, last) := EncodePath(cd, path, 0).value;
    if cd.enc(p, last).Some? {
      DepthBelow(t, cs, cd.enc(p, last).value.0);
    } else {
      DepthPositive(t, cs);
    }
  }

  lemma DepthPositive(t: CTree, path: seq<Name>)
    requires Lookup(t, path).Some? && Lookup(t, path).value.Dir?
    ensures 0 < DepthAt(t, path)
  {
  }

  /** The list for a rename in the tree `t`; nothing when it cannot be generated. */
  function ListFor(cd: Coder, t: CTree, from: seq<Name>, to: seq<Name>): Option<seq<RenameEl>> {
    match (EncodePath(cd, from, 0), EncodePath(cd, to, 0))
    case (Some((fromC, fromIV)), Some((_, toIV))) =>
      if fromIV == toIV then Some([])
      else
        (match Lookup(t, fromC)
         case None => None
         case Some(x) =>
           match GenDir(cd, x, fromIV, toIV)
           case None => None
           case Some(l) => Some(Below(fromC, l)))
    case _ => None
  }

  function Joined(a: seq<RenameEl>, b: Option<seq<RenameEl>>): Option<seq<RenameEl>> {
    if b.None? then None else Some(a + b.value)
  }

  lemma JoinedTwice(a: seq<RenameEl>, b: seq<RenameEl>, c: Option<seq<RenameEl>>)
    ensures Joined(a, Joined(b, c)) == Joined(a + b, c)
  {
    if c.Some? {
      assert a + (b + c.value) == a + b + c.value;
    }
  }

  /** What one entry contributes. */
  function EntryList(cd: Coder, es: Entries<Name>, i: nat, from: Word64, to: Word64): Option<seq<RenameEl>>
    requires i < |es|
  {
    match cd.dec(es[i].0, from)
    case None => Some([])
    case Some((p, _)) =>
      match cd.enc(p, to)
      case None => None
      case Some((newName, belowTo)) =>
        match GenBelow(cd, es, i, p, from, belowTo)
        case None => None
        case Some(a) => Some(a + [RenameEl([], es[i].0, newName)])
  }

  lemma EntriesStep(cd: Coder, es: Entries<Name>, i: nat, from: Word64, to: Word64)
    requires i < |es|
    ensures GenEntries(cd, es, i, from, to) ==
      match EntryList(cd, es, i, from, to)
      case None => None
      case Some(a) => Joined(a, GenEntries(cd, es, i + 1, from, to))
  {
    hide GenBelow;
    if cd.dec(es[i].0, from).None? && GenEntries(cd, es, i + 1, from, to).Some? {
      var b := GenEntries(cd, es, i + 1, from, to).value;
      assert [] + b == b;
    }
  }

  lemma BelowConcat(path: seq<Name>, a: seq<RenameEl>, b: seq<RenameEl>)
    ensures Below(path, a + b) == Below(path, a) + Below(path, b)
  {
  }

  lemma BelowNothing(path: seq<Name>)
    ensures Below(path, []) == []
  {
  }

  lemma JoinedNothing(b: Option<seq<RenameEl>>)
    ensures Joined([], b) == b
  {
    if b.Some? {
      assert [] + b.value == b.value;
    }
  }

  lemma NothingLeft(cd: Coder, es: Entries<Name>, from: Word64, to: Word64)
    ensures GenEntries(cd, es, |es|, from, to) == Some([])
  {
  }

  /** The recursive part of an entry is the list of the renamed path. */
  lemma BelowEntry(cd: Coder, t: CTree, from: seq<Name>, to: seq<Name>, i: nat)
    requires EncodePath(cd, from, 0).Some? && EncodePath(cd, to, 0).Some?
    requires Lookup(t, EncodePath(cd, from, 0).value.0).Some?
    requires var x := Lookup(t, EncodePath(cd, from, 0).value.0).value; x.Dir? && i < |x.entries| && x.entries[i].1.Dir?
    requires var (_, fromIV) := EncodePath(cd, from, 0).value;
      var e := Lookup(t, EncodePath(cd, from, 0).value.0).value.entries[i];
      cd.dec(e.0, fromIV).Some? && cd.enc(cd.dec(e.0, fromIV).value.0, EncodePath(cd, to, 0).value.1).Some?
    ensures var (fromC, fromIV) := EncodePath(cd, from, 0).value; var toIV := EncodePath(cd, to, 0).value.1;
      var es := Lookup(t, fromC).value.entries;
      var p := cd.dec(es[i].0, fromIV).value.0;
      var below := GenBelow(cd, es, i, p, fromIV, cd.enc(p, toIV).value.1);
      ListFor(cd, t, from + [p], to + [p]) == if below.None? then None else Some(Below(fromC, below.value))
  {
    hide EncodePath, GenDir;
    var (fromC, fromIV) := EncodePath(cd, from, 0).value;
    var toIV := EncodePath(cd, to, 0).value.1;
    var es := Lookup(t, fromC).value.entries;
    var p := cd.dec(es[i].0, fromIV).value.0;
    EncodeSnoc(cd, from, p, 0);
    EncodeSnoc(cd, to, p, 0);
    if cd.enc(p, fromIV).Some? {
      var (c, belowFrom) := cd.enc(p, fromIV).value;
      var belowTo := cd.enc(p, toIV).value.1;
      LookupSnoc(t, fromC, c);
      SingleLookup(es, c);
      var j := Find(es, c);
      if belowFrom == belowTo {
        assert Below(fromC, []) == [];
      } else if j < |es| && GenDir(cd, es[j].1, belowFrom, belowTo).Some? {
        var l := GenDir(cd, es[j].1, belowFrom, belowTo).value;
        BelowPrefixed(fromC, c, l);
      }
    }
  }

  lemma SingleLookup(es: Entries<Name>, c: Name)
    ensures Lookup(Dir(es), [c]) == if Find(es, c) == |es| then None else Some(es[Find(es, c)].1)
  {
    assert [c][1..] == [];
  }

  lemma BelowPrefixed(path: seq<Name>, c: Name, l: seq<RenameEl>)
    ensures Below(path, Prefixed(c, l)) == Below(path + [c], l)
  {
    forall k | 0 <= k < |l| ensures path + ([c] + l[k].dir) == path + [c] + l[k].dir {
    }
  }

  lemma ApplySnoc(t: CTree, l: seq<RenameEl>, k: nat)
    requires k < |l| && ApplyAll(t, l[..k]).Some?
    ensures ApplyAll(t, l[..k + 1]) ==
      RenameAt(ApplyAll(t, l[..k]).value, l[k].dir, l[k].oldC, l[k].newC)
  {
    hide RenameAt, FreeAt, ApplyAll, FreeRun;
    assert l[..k + 1] == l[..k] + [l[k]];
    ApplyConcat(t, l[..k], [l[k]]);
    SingleRun(ApplyAll(t, l[..k]).value, l[k]);
  }

  /** When a whole list can be applied to free names, so can its first part. */
  lemma FreePrefix(t: CTree, l: seq<RenameEl>, k: nat)
    requires k <= |l| && ApplyAll(t, l[..k]).Some? && FreeRun(t, l)
    ensures FreeRun(t, l[..k])
  {
    hide ApplyAll, FreeRun;
    assert l == l[..k] + l[k..];
    ApplyConcat(t, l[..k], l[k..]);
  }

  lemma NothingUndone(t: CTree)
    ensures UndoAll(t, []) == Some(t)
  {
  }

  /** When a whole list can be undone, so can the part from `k` on, and entry `k` comes next. */
  lemma {:induction false} UndoStep(t: CTree, l: seq<RenameEl>, k: nat)
    requires k < |l| && UndoAll(t, l).Some?
    ensures UndoAll(t, l[k..]).Some? && UndoAll(t, l[k + 1..]).Some?
    ensures UndoAll(t, l[k..]) == RenameAt(UndoAll(t, l[k + 1..]).value, l[k].dir, l[k].newC, l[k].oldC)
    decreases k
  {
    if k > 0 {
      hide RenameAt;
      UndoStep(t, l[1..], k - 1);
      assert l[1..][k - 1..] == l[k..] && l[1..][k..] == l[k + 1..];
    }
  }

  lemma {:induction false} PrefixApplies(t: CTree, a: seq<RenameEl>, b: seq<RenameEl>)
    requires ApplyAll(t, a + b).Some?
    ensures ApplyAll(t, a).Some?
    decreases |a|
  {
    if a != [] {
      assert (a + b)[1..] == a[1..] + b;
      PrefixApplies(RenameAt(t, a[0].dir, a[0].oldC, a[0].newC).value, a[1..], b);
    }
  }

  /** The subtree at `from` can be re-encoded in place without touching a name in use. */
  ghost predicate Fits(cd: Coder, t: CTree, from: seq<Name>, to: seq<Name>) {
    match (EncodePath(cd, from, 0), EncodePath(cd, to, 0))
    case (Some((fromC, fromIV)), Some((_, toIV))) =>
      (match Lookup(t, fromC)
       case None => true
       case Some(x) => NoClash(cd, x, fromIV, toIV))
    case _ => true
  }

  /** No undecodable name below `from` becomes decodable at its new place. */
  ghost predicate StaysAt(cd: Coder, t: CTree, from: seq<Name>, to: seq<Name>) {
    match (EncodePath(cd, from, 0), EncodePath(cd, to, 0))
    case (Some((fromC, fromIV)), Some((_, toIV))) =>
      (match Lookup(t, fromC)
       case None => true
       case Some(x) => Stays(cd, x, fromIV, toIV))
    case _ => true
  }

  /** The last step: the stored tree with one path moved to another. */
  function MoveStored(cd: Coder, t: CTree, from: seq<Name>, to: seq<Name>): Option<CTree>
    requires from != [] && to != [] && Encodable(cd, from, to)
  {
    Move(t, EncodePath(cd, from, 0).value.0, EncodePath(cd, to, 0).value.0)
  }

  /** Re-encoding and then moving, on the stored tree. */
  function StoredMove(cd: Coder, t: CTree, from: seq<Name>, to: seq<Name>): Option<CTree>
    requires from != [] && to != [] && Encodable(cd, from, to)
  {
    match Prepared(cd, t, from, to)
    case None => None
    case Some(u) => MoveStored(cd, u, from, to)
  }

  /** A broken rename leaves a changed disk exactly when re-encoding changes the subtree. */
  lemma PreparedChanges(cd: Coder, t: CTree, from: seq<Name>, to: seq<Name>)
    requires Encodable(cd, from, to) && Lookup(t, EncodePath(cd, from, 0).value.0).Some?
    ensures var (fromC, fromIV) := EncodePath(cd, from, 0).value;
      var x := Lookup(t, fromC).value;
      Prepared(cd, t, from, to) == Some(t) <==> Recode(cd, x, fromIV, EncodePath(cd, to, 0).value.1) == x
  {
    hide EncodePath, Lookup, Recode, Graft;
    var (fromC, fromIV) := EncodePath(cd, from, 0).value;
    var x := Lookup(t, fromC).value;
    GraftSame(t, fromC);
    LookupGraft(t, fromC, Recode(cd, x, fromIV, EncodePath(cd, to, 0).value.1));
  }

  /** Only directories need a list, and only with chained IVs. */
  predicate NeedsList(cd: Coder, t: CTree, from: seq<Name>, chained: bool) {
    chained && match EncodePath(cd, from, 0)
      case None => false
      case Some((fromC, _)) => Lookup(t, fromC).Some? && Lookup(t, fromC).value.Dir?
  }

  predicate Interrupted(stopAt: Option<nat>, list: seq<RenameEl>) {
    stopAt.Some? && stopAt.value < |list|
  }

  /** The rename gets as far as its last step. */
  predicate Reaches(cd: Coder, t: CTree, from: seq<Name>, to: seq<Name>, chained: bool, stopAt: Option<nat>) {
    && Encodable(cd, from, to)
    && (NeedsList(cd, t, from, chained) ==>
          ListFor(cd, t, from, to).Some? && !Interrupted(stopAt, ListFor(cd, t, from, to).value))
  }

  predicate Encodable(cd: Coder, from: seq<Name>, to: seq<Name>) {
    EncodePath(cd, from, 0).Some? && EncodePath(cd, to, 0).Some?
  }

  lemma NothingApplied(t: CTree)
    ensures ApplyAll(t, []) == Some(t)
  {
  }

  lemma StuckApplied(t: CTree, l: seq<RenameEl>, k: nat)
    requires k < |l| && ApplyAll(t, l[..k + 1]).None?
    ensures ApplyAll(t, l).None?
  {
    assert l == l[..k + 1] + l[k + 1..];
    if ApplyAll(t, l).Some? {
      PrefixApplies(t, l[..k + 1], l[k + 1..]);
      assert false;
    }
  }

  /** The list for a rename, applied to the disk, re-encodes exactly the subtree that is to be moved. */
  lemma ListApplies(cd: Coder, t: CTree, from: seq<Name>, to: seq<Name>)
    requires cd.Lawful() && Proper(t) && Canonical(cd, t, 0) && Fits(cd, t, from, to) && Encodable(cd, from, to)
    requires Lookup(t, EncodePath(cd, from, 0).value.0).Some? && ListFor(cd, t, from, to).Some?
    ensures var l := ListFor(cd, t, from, to).value;
      ApplyAll(t, l).Some? && ApplyAll(t, l) == Prepared(cd, t, from, to) && FreeRun(t, l)
    ensures StaysAt(cd, t, from, to) ==> MovableAt(cd, t, from, to)
  {
    hide EncodePath, Lookup, NoClash, Stays, Movable, Recode, GenDir, ApplyAll, FreeRun, Proper, Canonical;
    var (fromC, fromIV) := EncodePath(cd, from, 0).value;
    var toIV := EncodePath(cd, to, 0).value.1;
    var x := Lookup(t, fromC).value;
    if fromIV == toIV {
      NothingApplied(t);
      NoMove(cd, t, fromIV);
      NoMove(cd, x, fromIV);
      GraftSame(t, fromC);
    } else {
      LookupView(cd, t, from, 0);
      ProperLookup(t, fromC);
      GenDirApplies(cd, x, fromIV, toIV);
      if Stays(cd, x, fromIV, toIV) {
        GenMovable(cd, x, fromIV, toIV);
      }
      ApplyBelow(t, fromC, GenDir(cd, x, fromIV, toIV).value);
    }
  }

  lemma NoMove(cd: Coder, t: CTree, iv: Word64)
    ensures Recode(cd, t, iv, iv) == t && Movable(cd, t, iv, iv) && FreeRun(t, [])
  {
  }

  lemma {:induction false} IvKept(cd: Coder, path: seq<Name>, iv: Word64)
    requires (forall p, iv :: cd.enc(p, iv).Some? ==> cd.enc(p, iv).value.1 == iv) && EncodePath(cd, path, iv).Some?
    ensures EncodePath(cd, path, iv).value.1 == iv
    decreases |path|
  {
    if path != [] {
      IvKept(cd, path[1..], iv);
    }
  }

  /** Without chaining, or for a file, nothing below has to be re-encoded. */
  lemma NoListNeeded(cd: Coder, t: CTree, from: seq<Name>, to: seq<Name>, chained: bool)
    requires Encodable(cd, from, to)
    requires chained || forall p, iv :: cd.enc(p, iv).Some? ==> cd.enc(p, iv).value.1 == iv
    requires var x := Lookup(t, EncodePath(cd, from, 0).value.0); !chained || x.None? || x.value.File?
    ensures Prepared(cd, t, from, to) == Some(t) && MovableAt(cd, t, from, to) && FreeRun(t, [])
  {
    var (fromC, fromIV) := EncodePath(cd, from, 0).value;
    var x := Lookup(t, fromC);
    if x.Some? {
      GraftSame(t, fromC);
      if !chained {
        IvKept(cd, from, 0);
        IvKept(cd, to, 0);
      }
    }
  }

  /** Names stay distinct through a rename. */
  lemma StaysProper(cd: Coder, t: CTree, from: seq<Name>, to: seq<Name>)
    requires from != [] && to != [] && Proper(t) && Fits(cd, t, from, to) && Encodable(cd, from, to)
    requires Prepared(cd, t, from, to).Some?
    ensures var (fromC, toC) := (EncodePath(cd, from, 0).value.0, EncodePath(cd, to, 0).value.0);
      var r := Move(Prepared(cd, t, from, to).value, fromC, toC);
      r.Some? ==> Proper(r.value)
  {
    hide EncodePath, Lookup, NoClash, Stays, Recode, Proper, Graft, Move;
    var (fromC, fromIV) := EncodePath(cd, from, 0).value;
    var (toC, toIV) := EncodePath(cd, to, 0).value;
    if Lookup(t, fromC).Some? {
      var x := Lookup(t, fromC).value;
      ProperLookup(t, fromC);
      RecodeProper(cd, x, fromIV, toIV);
      ProperGraft(t, fromC, Recode(cd, x, fromIV, toIV));
    }
    var p := Prepared(cd, t, from, to).value;
    if Move(p, fromC, toC).Some? {
      ProperMove(p, fromC, toC);
    }
  }

  class DirNode {
    const cd: Coder
    const chained: bool
    var disk: CTree

    ghost predicate Valid()
      reads this
    {
      && cd.Lawful() && Proper(disk) && Canonical(cd, disk, 0)
      && (chained || forall p, iv :: cd.enc(p, iv).Some? ==> cd.enc(p, iv).value.1 == iv)
    }

    constructor (cd: Coder, chained: bool, disk: CTree)
      ensures this.cd == cd && this.chained == chained && this.disk == disk
    {
      this.cd, this.chained, this.disk := cd, chained, disk;
    }

    /** Appends the renames for everything below `from`, descendants before the entry itself. */
    method GenRenameList(renameList: seq<RenameEl>, from: seq<Name>, to: seq<Name>)
      returns (ok: bool, out: seq<RenameEl>)
      ensures ok == ListFor(cd, disk, from, to).Some?
      ensures ok ==> out == renameList + ListFor(cd, disk, from, to).value
      decreases Reach(cd, disk, from), 1, 0
    {
      hide GenBelow, EncodePath, GenEntries;
      out := renameList;
      var a, b := EncodePath(cd, from, 0), EncodePath(cd, to, 0);
      if a.None? || b.None? {
        return false, out;
      }
      var (fromC, fromIV) := a.value;
      var (_, toIV) := b.value;
      if fromIV == toIV {
        return true, out;
      }
      var dir := Lookup(disk, fromC);
      if dir.None? || dir.value.File? {
        return false, out;
      }
      ok, out := GenEntryLists(renameList, from, to, fromC, fromIV, toIV, dir.value.entries);
    }

    /** The loop over the entries of an opened directory. */
    method GenEntryLists(renameList: seq<RenameEl>, from: seq<Name>, to: seq<Name>,
                         fromC: seq<Name>, fromIV: Word64, toIV: Word64, es: Entries<Name>)
      returns (ok: bool, out: seq<RenameEl>)
      requires EncodePath(cd, from, 0) == Some((fromC, fromIV))
      requires EncodePath(cd, to, 0).Some? && EncodePath(cd, to, 0).value.1 == toIV
      requires Lookup(disk, fromC) == Some(Dir(es))
      ensures ok == GenEntries(cd, es, 0, fromIV, toIV).Some?
      ensures ok ==> out == renameList + Below(fromC, GenEntries(cd, es, 0, fromIV, toIV).value)
      decreases Reach(cd, disk, from), 0, 1
    {
      hide GenBelow, EncodePath, GenEntries, Lookup, Below;
      out := renameList;
      ghost var done: seq<RenameEl> := [];
      BelowNothing(fromC);
      JoinedNothing(GenEntries(cd, es, 0, fromIV, toIV));
      var i := 0;
      while i < |es|
        invariant 0 <= i <= |es|
        invariant GenEntries(cd, es, 0, fromIV, toIV) == Joined(done, GenEntries(cd, es, i, fromIV, toIV))
        invariant out == renameList + Below(fromC, done)
        decreases |es| - i
      {
        EntriesStep(cd, es, i, fromIV, toIV);
        ok, out := GenEntry(out, from, to, fromC, fromIV, toIV, es, i);
        if !ok {
          return false, out;
        }
        ghost var a := EntryList(cd, es, i, fromIV, toIV).value;
        JoinedTwice(done, a, GenEntries(cd, es, i + 1, fromIV, toIV));
        BelowConcat(fromC, done, a);
        done := done + a;
        i := i + 1;
      }
      NothingLeft(cd, es, fromIV, toIV);
      assert done + [] == done;
      ok := true;
    }

    /** One entry: undecodable names are skipped, directories go first through the recursion. */
    method GenEntry(renameList: seq<RenameEl>, from: seq<Name>, to: seq<Name>,
                    fromC: seq<Name>, fromIV: Word64, toIV: Word64, es: Entries<Name>, i: nat)
      returns (ok: bool, out: seq<RenameEl>)
      requires i < |es|
      requires EncodePath(cd, from, 0) == Some((fromC, fromIV))
      requires EncodePath(cd, to, 0).Some? && EncodePath(cd, to, 0).value.1 == toIV
      requires Lookup(disk, fromC) == Some(Dir(es))
      ensures ok == EntryList(cd, es, i, fromIV, toIV).Some?
      ensures ok ==> out == renameList + Below(fromC, EntryList(cd, es, i, fromIV, toIV).value)
      decreases Reach(cd, disk, from), 0, 0
    {
      hide EncodePath, GenEntries, Lookup, ListFor;
      out := renameList;
      var plain := cd.dec(es[i].0, fromIV);
      if plain.None? {
        assert out == renameList + Below(fromC, []);
        return true, out;
      }
      var p := plain.value.0;
      var recoded := cd.enc(p, toIV);
      if recoded.None? {
        return false, out;
      }
      ghost var sub := GenBelow(cd, es, i, p, fromIV, recoded.value.1);
      if es[i].1.Dir? {
        BelowEntry(cd, disk, from, to, i);
        ReachBelow(cd, disk, from, p);
        ok, out := GenRenameList(out, from + [p], to + [p]);
        if !ok {
          return false, out;
        }
      }
      ghost var el := RenameEl([], es[i].0, recoded.value.0);
      BelowConcat(fromC, sub.value, [el]);
      out := out + [RenameEl(fromC, es[i].0, recoded.value.0)];
      assert fromC + [] == fromC;
      assert Below(fromC, [el]) == [RenameEl(fromC, es[i].0, recoded.value.0)];
      ok := true;
    }

    /** Renames along the list; stops at the first failure, with `last` at the entry that failed. */
    method Apply(list: seq<RenameEl>, stopAt: Option<nat>) returns (ok: bool, last: nat)
      modifies this
      ensures last <= |list| && ApplyAll(old(disk), list[..last]) == Some(disk)
      ensures ok ==> last == |list| && ApplyAll(old(disk), list) == Some(disk)
      ensures !ok ==> (stopAt == Some(last) && last < |list|) || ApplyAll(old(disk), list).None?
      ensures ok ==> !Interrupted(stopAt, list)
    {
      hide ApplyAll, FreeRun, RenameAt, FreeAt;
      last := 0;
      NothingApplied(disk);
      while last < |list|
        invariant last <= |list| && (stopAt.Some? ==> last <= stopAt.value)
        invariant ApplyAll(old(disk), list[..last]) == Some(disk)
        decreases |list| - last
      {
        ApplySnoc(old(disk), list, last);
        if stopAt == Some(last) {
          return false, last;
        }
        var e := list[last];
        match RenameAt(disk, e.dir, e.oldC, e.newC) {
          case None =>
            StuckApplied(old(disk), list, last);
            return false, last;
          case Some(u) => disk := u;
        }
        last := last + 1;
      }
      assert list[..last] == list;
      ok := true;
    }

    /**
     * Takes back the first `last` renames, the latest first, ignoring failures. The disk is as before
     * exactly when every new name had been free: a renamed-over file does not come back.
     */
    method Undo(list: seq<RenameEl>, last: nat, ghost before: CTree)
      requires last <= |list| && Proper(before)
      requires ApplyAll(before, list[..last]) == Some(disk)
      modifies this
      ensures disk == before <==> FreeRun(before, list[..last])
    {
      hide ApplyAll, FreeRun, RenameAt, FreeAt, Proper, UndoAll, Weight;
      ghost var start, done := disk, list[..last];
      ghost var free := FreeRun(before, done);
      RunWeight(before, done);
      if free {
        UndoApplied(before, done);
      }
      var it := last;
      NothingUndone(start);
      assert done[it..] == [];
      while it > 0
        invariant 0 <= it <= last
        invariant free ==> UndoAll(start, done[it..]) == Some(disk)
        invariant Weight(disk) <= Weight(start)
      {
        it := it - 1;
        var e := list[it];
        if free {
          UndoStep(start, done, it);
        }
        match RenameAt(disk, e.dir, e.newC, e.oldC) {
          case None =>
          case Some(u) =>
            RenameWeight(disk, e.dir, e.newC, e.oldC);
            disk := u;
        }
      }
      assert done[0..] == done;
    }

    /**
     * The recursive part: the list is applied, or taken back as far as it got. With names that do not
     * clash, the subtree is re-encoded in place or everything is put back.
     */
    method RenameBelow(from: seq<Name>, to: seq<Name>, stopAt: Option<nat>)
      returns (ok: bool, list: seq<RenameEl>, ghost applied: seq<RenameEl>)
      requires Valid() && Encodable(cd, from, to)
      requires Lookup(disk, EncodePath(cd, from, 0).value.0).Some?
      modifies this
      ensures var l := ListFor(cd, old(disk), from, to);
        ok <==> l.Some? && !Interrupted(stopAt, l.value) && ApplyAll(old(disk), l.value).Some?
      ensures !ok ==> (disk == old(disk) <==> FreeRun(old(disk), applied))
      ensures ApplyAll(old(disk), applied).Some?
      ensures ok ==> applied == list && ApplyAll(old(disk), list) == Some(disk)
      ensures Fits(cd, old(disk), from, to) ==> FreeRun(old(disk), applied)
      ensures Fits(cd, old(disk), from, to) && ListFor(cd, old(disk), from, to).Some? ==>
        ApplyAll(old(disk), ListFor(cd, old(disk), from, to).value).Some?
      ensures ok && Fits(cd, old(disk), from, to) ==> Prepared(cd, old(disk), from, to) == Some(disk)
      ensures ok && Fits(cd, old(disk), from, to) && StaysAt(cd, old(disk), from, to) ==>
        MovableAt(cd, old(disk), from, to)
    {
      hide EncodePath, Lookup, ListFor, Prepared, MovableAt, Fits, StaysAt, FreeRun, ApplyAll, Proper, Canonical,
        Coder.Lawful;
      applied := [];
      NothingApplied(disk);
      NoMove(cd, disk, 0);
      ok, list := GenRenameList([], from, to);
      if ok {
        assert list == ListFor(cd, disk, from, to).value;
        ghost var before := disk;
        if Fits(cd, disk, from, to) {
          ListApplies(cd, disk, from, to);
        }
        var last;
        ok, last := Apply(list, stopAt);
        applied := list[..last];
        if Fits(cd, before, from, to) {
          FreePrefix(before, list, last);
        }
        if ok {
          assert list[..last] == list;
        } else {
          Undo(list, last, before);
        }
      }
    }

    /**
     * A successful rename moves the entry in the plaintext view; a refused one leaves the disk as it was.
     * It is broken, with the subtree re-encoded at its old place, exactly when the last step is reached
     * and either its node cannot be renamed or the disk refuses it and the node cannot be renamed back.
     * When names clash, a refused rename leaves the disk as it was exactly when the renames that were
     * done, `applied`, had not yet overwritten anything.
     */
    method Rename(from: seq<Name>, to: seq<Name>, faults: Faults) returns (r: Verdict, ghost applied: seq<RenameEl>)
      requires from != [] && to != [] && Valid()
      modifies this
      ensures ApplyAll(old(disk), applied).Some?
      ensures r.Refused? ==> (disk == old(disk) <==> FreeRun(old(disk), applied))
      ensures r.Broken? ==> ApplyAll(old(disk), applied) == Some(disk)
      ensures r.Done? ==>
        Encodable(cd, from, to) && Some(disk) == MoveStored(cd, ApplyAll(old(disk), applied).value, from, to)
      ensures Fits(cd, old(disk), from, to) ==> FreeRun(old(disk), applied)
      ensures Fits(cd, old(disk), from, to) ==> (r.Broken? <==>
        && Reaches(cd, old(disk), from, to, chained, faults.stopAt)
        && (faults.nodeFails
            || (faults.backFails && (faults.diskRefuses || StoredMove(cd, old(disk), from, to).None?))))
      ensures Fits(cd, old(disk), from, to) ==> (r.Done? <==>
        && Reaches(cd, old(disk), from, to, chained, faults.stopAt)
        && !faults.nodeFails && !faults.diskRefuses && StoredMove(cd, old(disk), from, to).Some?)
      ensures r.Done? && Fits(cd, old(disk), from, to) && StaysAt(cd, old(disk), from, to) ==>
        Valid() && Some(View(cd, disk, 0)) == Move(View(cd, old(disk), 0), Plains(from), Plains(to))
      ensures r.Broken? && Fits(cd, old(disk), from, to) ==> Prepared(cd, old(disk), from, to) == Some(disk)
    {
      hide EncodePath, Lookup, ListFor, Prepared, MovableAt, Fits, StaysAt, FreeRun, ApplyAll, Proper, Canonical, Move,
        View, Plains, Coder.Lawful, Interrupted;
      applied := [];
      NothingApplied(disk);
      NoMove(cd, disk, 0);
      var a, b := EncodePath(cd, from, 0), EncodePath(cd, to, 0);
      if a.None? || b.None? {
        return Refused, applied;
      }
      var list: seq<RenameEl> := [];
      ghost var before := disk;
      ghost var fits := Fits(cd, disk, from, to);
      var source := Lookup(disk, a.value.0);
      if chained && source.Some? && source.value.Dir? {
        var ok;
        ok, list, applied := RenameBelow(from, to, faults.stopAt);
        if !ok {
          return Refused, applied;
        }
      } else {
        NoListNeeded(cd, disk, from, to, chained);
      }
      if faults.nodeFails {
        return Broken, applied;
      }
      var moved := if faults.diskRefuses then None else Move(disk, a.value.0, b.value.0);
      match moved
      case Some(u) =>
        if fits && StaysAt(cd, before, from, to) {
          MoveView(cd, before, from, to);
          StaysProper(cd, before, from, to);
        }
        disk := u;
        r := Done;
      case None =>
        if faults.backFails {
          return Broken, applied;
        }
        assert list[..|list|] == list;
        Undo(list, |list|, before);
        r := Refused;
    }
  }

  // ---------------------------------------------------------------- a roll-back that is skipped

  /**
   * A stand-in for a chained coding, small enough to compute with: a name carries the parity of its
   * level, and its length decides the level below.
   */
  function ParityCoder(): Coder {
    Coder((p: Name, iv: Word64) => Some(([Mark(iv)] + p, LevelBelow(p))),
          (c: Name, iv: Word64) => if c != [] && c[0] == Mark(iv) then Some((c[1..], LevelBelow(c[1..]))) else None)
  }

  function Mark(iv: Word64): Byte { if iv % 2 == 0 then 0 else 1 }

  function LevelBelow(p: Name): Word64 { if |p| % 2 == 0 then 0 else 1 }

  const FROM: seq<Name> := [[65]]
  const TO: seq<Name> := [[66, 66]]

  /** A directory `A` with a file `X`, and the same with the file already named for a directory `BB`. */
  function SmallTree(level: Byte): CTree {
    Dir([([0, 65], Dir([([level, 88], File(7))]))])
  }

  lemma OneName(cd: Coder, p: Name, iv: Word64)
    requires cd.enc(p, iv).Some?
    ensures EncodePath(cd, [p], iv) == Some(([cd.enc(p, iv).value.0], cd.enc(p, iv).value.1))
  {
    var (c, below) := cd.enc(p, iv).value;
    assert [p][1..] == [] && EncodePath(cd, [], below) == Some(([], below));
    assert [c] + [] == [c];
  }

  lemma SmallPaths()
    ensures EncodePath(ParityCoder(), FROM, 0) == Some(([[0, 65]], 1))
    ensures EncodePath(ParityCoder(), TO, 0) == Some(([[0, 66, 66]], 0))
  {
    hide EncodePath;
    OneName(ParityCoder(), [65], 0);
    OneName(ParityCoder(), [66, 66], 0);
    var a: Name, b: Name := [65], [66, 66];
    assert |a| == 1 && |b| == 2 && Mark(0) == 0;
    assert [0] + a == [0, 65] && [0] + b == [0, 66, 66];
  }

  lemma ParityLawful()
    ensures ParityCoder().Lawful()
  {
    var cd := ParityCoder();
    forall p: Name, iv: Word64 ensures cd.dec(cd.enc(p, iv).value.0, iv) == Some((p, cd.enc(p, iv).value.1)) {
      assert ([Mark(iv)] + p)[1..] == p;
    }
  }

  lemma SmallDirs()
    ensures var cd := ParityCoder();
      && cd.dec([0, 65], 0) == Some(([65], 1)) && cd.enc([65], 0) == Some(([0, 65], 1))
      && cd.dec([1, 88], 1) == Some(([88], 1)) && cd.enc([88], 1) == Some(([1, 88], 1))
      && cd.enc([88], 0) == Some(([0, 88], 1)) && cd.dec([0, 88], 1) == None
  {
    var a: Name, x: Name := [65], [88];
    assert |a| == 1 && |x| == 1 && LevelBelow(a) == 1 && LevelBelow(x) == 1 && Mark(0) == 0 && Mark(1) == 1;
    var c: Name, d: Name, e: Name := [0, 65], [1, 88], [0, 88];
    assert c[0] == 0 && d[0] == 1 && e[0] == 0 && c[1..] == a && d[1..] == x;
    assert [0] + a == [0, 65] && [1] + x == [1, 88] && [0] + x == [0, 88];
  }

  lemma SmallRecode(cd: Coder)
    requires cd == ParityCoder()
    ensures var x: CTree := Dir([([1, 88], File(7))]);
      && Recode(cd, x, 1, 0) == Dir([([0, 88], File(7))]) && NoClash(cd, x, 1, 0) && Stays(cd, x, 1, 0)
      && GenDir(cd, x, 1, 0).Some?
  {
    SmallDirs();
    hide ParityCoder;
    var es: Entries<Name> := [([1, 88], File(7))];
    assert RecodeEntry(cd, es[0], 1, 0) == ([0, 88], File(7));
    NothingLeft(cd, es, 1, 0);
    assert GenBelow(cd, es, 0, [88], 1, 1) == Some([]);
  }

  lemma SmallTreeSound()
    ensures var cd := ParityCoder(); var t := SmallTree(1);
      cd.Lawful() && Proper(t) && Canonical(cd, t, 0)
  {
    ParityLawful();
    SmallDirs();
    hide ParityCoder, Coder.Lawful;
    var x: CTree := Dir([([1, 88], File(7))]);
    assert Proper(x) && Canonical(ParityCoder(), x, 1);
  }

  lemma SmallLookup()
    ensures Lookup(SmallTree(1), [[0, 65]]) == Some(Dir([([1, 88], File(7))]))
    ensures Graft(SmallTree(1), [[0, 65]], Dir([([0, 88], File(7))])) == Some(SmallTree(0))
  {
    var t: CTree, x: CTree, y: CTree := SmallTree(1), Dir([([1, 88], File(7))]), Dir([([0, 88], File(7))]);
    SingleLookup(t.entries, [0, 65]);
    assert [[0, 65]][1..] == [] && Graft(x, [], y) == Some(y);
    assert t.entries[0 := ([0, 65], y)] == SmallTree(0).entries;
  }

  lemma SmallViews()
    ensures SmallTree(0) != SmallTree(1)
    ensures View(ParityCoder(), SmallTree(0), 0) != View(ParityCoder(), SmallTree(1), 0)
  {
    var cd := ParityCoder();
    SmallDirs();
    hide ParityCoder;
    var x: CTree, y: CTree := Dir([([1, 88], File(7))]), Dir([([0, 88], File(7))]);
    assert x.entries[0].0 != y.entries[0].0;
    assert SmallTree(0).entries[0].1 == y && SmallTree(1).entries[0].1 == x;
    assert View(cd, SmallTree(1), 0).entries[0] == ViewEntry(cd, ([0, 65], x), 0) == (Plain([65]), View(cd, x, 1));
    assert View(cd, SmallTree(0), 0).entries[0] == ViewEntry(cd, ([0, 65], y), 0) == (Plain([65]), View(cd, y, 1));
    assert View(cd, x, 1).entries[0].0 == Plain([88]) && View(cd, y, 1).entries[0].0 == Raw([0, 88]);
  }

  /** The small tree meets every condition of a rename, and re-encoding changes it and what a user sees. */
  lemma SmallTreePrepared()
    ensures var cd := ParityCoder(); var t := SmallTree(1);
      && cd.Lawful() && Proper(t) && Canonical(cd, t, 0) && Fits(cd, t, FROM, TO) && StaysAt(cd, t, FROM, TO)
      && NeedsList(cd, t, FROM, true) && ListFor(cd, t, FROM, TO).Some?
      && Prepared(cd, t, FROM, TO) == Some(SmallTree(0))
      && SmallTree(0) != t && View(cd, SmallTree(0), 0) != View(cd, t, 0)
  {
    hide ParityCoder, EncodePath, Lookup, Graft, Recode, NoClash, Stays, GenDir, View, Proper, Canonical, SmallTree,
      Coder.Lawful;
    SmallTreeSound();
    SmallPaths();
    SmallLookup();
    SmallRecode(ParityCoder());
    SmallViews();
  }

  /** The internal node cannot be renamed for the last step: the rename fails and the disk is not put back. */
  method RollbackSkipped() returns (d: DirNode, r: Verdict)
    ensures r.Broken? && d.disk == SmallTree(0) != SmallTree(1)
  {
    assert FROM != [] && TO != [];
    hide *;
    SmallTreePrepared();
    d := new DirNode(ParityCoder(), true, SmallTree(1));
    SmallReaches(d);
    ghost var applied;
    r, applied := d.Rename(FROM, TO, Faults(None, true, false, false));
  }

  lemma SmallReaches(d: DirNode)
    requires d.cd == ParityCoder() && d.chained && d.disk == SmallTree(1)
    ensures d.Valid() && Fits(d.cd, d.disk, FROM, TO) && Reaches(d.cd, d.disk, FROM, TO, true, None)
    ensures Prepared(d.cd, d.disk, FROM, TO) == Some(SmallTree(0))
  {
    hide ParityCoder, EncodePath, Lookup, View, Proper, Canonical, SmallTree, Coder.Lawful, Fits, StaysAt, NeedsList,
      ListFor, Prepared;
    SmallTreePrepared();
    SmallPaths();
  }
}
