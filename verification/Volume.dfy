/** Renaming on a volume with one of the program's own name codings. */
module Volumes {
  import opened Bytes
  import opened Trees
  import opened Names
  import opened Renames
  import opened Moves
  import opened PathCoders
  import opened DirNodes

  /** Whatever decodes to a file name can be encoded again at any level. */
  lemma {:induction false} CoderReencodes(k: Coding, chained: bool, t: CTree, from: Word64, to: Word64)
    requires k.Ok() && t.Dir?
    ensures Reencodable(CoderOf(k, chained), t, from, to)
    decreases t
  {
    hide EncodeName, DecodeName, IsComponent;
    var cd := CoderOf(k, chained);
    CoderLawful(k, chained);
    var es := t.entries;
    forall i | 0 <= i < |es| && cd.dec(es[i].0, from).Some?
      ensures var (p, below) := cd.dec(es[i].0, from).value;
        cd.enc(p, to).Some? && (es[i].1.Dir? ==> Reencodable(cd, es[i].1, below, cd.enc(p, to).value.1))
    {
      var (p, below) := cd.dec(es[i].0, from).value;
      assert IsComponent(p);
      if es[i].1.Dir? {
        CoderReencodes(k, chained, es[i].1, below, cd.enc(p, to).value.1);
      }
    }
  }

  ghost predicate Components(path: seq<Name>) {
    forall i :: 0 <= i < |path| ==> IsComponent(path[i])
  }

  lemma {:induction false} ComponentsEncode(k: Coding, chained: bool, path: seq<Name>, iv: Word64)
    requires k.Ok() && Components(path)
    ensures EncodePath(CoderOf(k, chained), path, iv).Some?
    decreases |path|
  {
    hide EncodeName, DecodeName, IsComponent;
    if path != [] {
      ComponentLaw(k, chained, path[0], iv);
      ComponentsEncode(k, chained, path[1..], CoderOf(k, chained).enc(path[0], iv).value.1);
    }
  }

  /** The last step succeeds exactly when the entry can be moved in the stored tree, re-encoded or not. */
  lemma StoredMoveExact(cd: Coder, t: CTree, from: seq<Name>, to: seq<Name>)
    requires cd.Lawful() && from != [] && to != [] && Encodable(cd, from, to)
    ensures StoredMove(cd, t, from, to).Some? <==>
      CanMove(t, EncodePath(cd, from, 0).value.0, EncodePath(cd, to, 0).value.0)
  {
    hide EncodePath, Recode, Put, Remove, Graft, Lookup, ParentThere, CanMove;
    var (fromC, fromIV) := EncodePath(cd, from, 0).value;
    var (toC, toIV) := EncodePath(cd, to, 0).value;
    CanMoveNeeds(t, fromC, toC);
    if Lookup(t, fromC).Some? {
      var x := Lookup(t, fromC).value;
      var x' := Recode(cd, x, fromIV, toIV);
      RecodeKind(cd, x, fromIV, toIV);
      LookupGraft(t, fromC, x');
      if fromC != toC && !(fromC <= toC) {
        MoveGraft(t, fromC, toC, x');
        RemovePut(t, fromC, toC, x');
      }
    }
  }

  lemma RecodeKind(cd: Coder, t: CTree, from: Word64, to: Word64)
    ensures Recode(cd, t, from, to).File? == t.File?
  {
  }

  /** An entry can be moved in the stored tree exactly when it can be moved in the view. */
  lemma CanMoveView(cd: Coder, t: CTree, from: seq<Name>, to: seq<Name>)
    requires cd.Lawful() && Canonical(cd, t, 0) && from != [] && to != [] && Encodable(cd, from, to)
    ensures CanMove(t, EncodePath(cd, from, 0).value.0, EncodePath(cd, to, 0).value.0) <==>
      CanMove(View(cd, t, 0), Plains(from), Plains(to))
  {
    hide EncodePath, Lookup, View, Plains, Canonical;
    var (fromC, fromIV) := EncodePath(cd, from, 0).value;
    var (toC, toIV) := EncodePath(cd, to, 0).value;
    LookupView(cd, t, from, 0);
    LookupView(cd, t, to, 0);
    PrefixEncoded(cd, from, to, 0);
    PathEncoded(cd, from, to, 0);
    ParentView(cd, t, to);
    if Lookup(t, fromC).Some? {
      ViewKind(cd, Lookup(t, fromC).value, fromIV);
    }
    if Lookup(t, toC).Some? {
      ViewKind(cd, Lookup(t, toC).value, toIV);
    }
  }

  lemma ViewKind(cd: Coder, t: CTree, iv: Word64)
    ensures View(cd, t, iv).File? == t.File? && (View(cd, t, iv) == Dir([]) <==> t == Dir([]))
  {
    hide ViewEntry;
    if t.Dir? {
      assert |View(cd, t, iv).entries| == |t.entries|;
    }
  }

  lemma ParentView(cd: Coder, t: CTree, to: seq<Name>)
    requires cd.Lawful() && Canonical(cd, t, 0) && to != [] && EncodePath(cd, to, 0).Some?
    ensures ParentThere(t, EncodePath(cd, to, 0).value.0) <==> ParentThere(View(cd, t, 0), Plains(to))
  {
    hide EncodePath, Lookup, View, Canonical;
    var n := |to| - 1;
    assert to == to[..n] + [to[n]];
    EncodeSnoc(cd, to[..n], to[n], 0);
    var (cs, iv) := EncodePath(cd, to[..n], 0).value;
    assert EncodePath(cd, to, 0).value.0[..n] == cs;
    assert Plains(to)[..n] == Plains(to[..n]);
    LookupView(cd, t, to[..n], 0);
    if Lookup(t, cs).Some? {
      ViewKind(cd, Lookup(t, cs).value, iv);
    }
  }

  /**
   * On a volume, with names that do not clash and nothing failing, an entry that can be moved in the view,
   * file or directory of any size, is moved.
   */
  method RenameOnVolume(d: DirNode, k: Coding, from: seq<Name>, to: seq<Name>) returns (r: Verdict)
    requires k.Ok() && d.cd == CoderOf(k, d.chained) && d.Valid() && Fits(d.cd, d.disk, from, to)
    requires from != [] && to != [] && Components(from) && Components(to)
    modifies d
    ensures r.Done? <==> CanMove(View(d.cd, old(d.disk), 0), Plains(from), Plains(to))
    ensures !r.Done? ==> r.Refused? && d.disk == old(d.disk)
  {
    hide EncodePath, Lookup, View, Plains, Canonical, CoderOf, Fits, CanMove, FreeRun, ApplyAll, ListFor, NeedsList,
      Move, Prepared, Components, StaysAt;
    Ready(d, k, from, to);
    var noFault := Faults(None, false, false, false);
    ghost var applied;
    r, applied := d.Rename(from, to, noFault);
  }

  lemma Ready(d: DirNode, k: Coding, from: seq<Name>, to: seq<Name>)
    requires k.Ok() && d.cd == CoderOf(k, d.chained) && d.Valid()
    requires from != [] && to != [] && Components(from) && Components(to)
    ensures Encodable(d.cd, from, to) && Reaches(d.cd, d.disk, from, to, d.chained, None)
    ensures StoredMove(d.cd, d.disk, from, to).Some? <==> CanMove(View(d.cd, d.disk, 0), Plains(from), Plains(to))
  {
    hide EncodePath, Lookup, View, Plains, CoderOf, CanMove, Components, GenDir, Reencodable, StoredMove;
    ComponentsEncode(k, d.chained, from, 0);
    ComponentsEncode(k, d.chained, to, 0);
    StoredMoveExact(d.cd, d.disk, from, to);
    CanMoveView(d.cd, d.disk, from, to);
    if NeedsList(d.cd, d.disk, from, d.chained) {
      var (fromC, fromIV) := EncodePath(d.cd, from, 0).value;
      var toIV := EncodePath(d.cd, to, 0).value.1;
      var x := Lookup(d.disk, fromC).value;
      LookupView(d.cd, d.disk, from, 0);
      ProperLookup(d.disk, fromC);
      CoderReencodes(k, d.chained, x, fromIV, toIV);
      GenExact(d.cd, x, fromIV, toIV);
    }
  }
}
