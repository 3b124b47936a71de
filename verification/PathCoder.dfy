/** The name coders of a volume, seen one path component at a time. */
module PathCoders {
  import opened Bytes
  import opened Names
  import opened Paths
  import opened Renames
  import Moves

  /** What a directory entry can be called. */
  predicate IsComponent(name: Name) {
    name != [] && NoNul(name) && !IsDots(name) && forall i :: 0 <= i < |name| ==> name[i] != SLASH
  }

  /** Exactly the names a directory can list. */
  lemma ComponentNames(name: Name)
    ensures IsComponent(name) <==>
      && name != [] && name != ['.' as int] && name != ['.' as int, '.' as int]
      && forall i :: 0 <= i < |name| ==> name[i] != '/' as int && name[i] != 0
  {
  }

  function Level(chained: bool, iv: Word64): Option<Word64> {
    if chained then Some(iv) else None
  }

  function Component(r: Coded, iv: Word64): Option<(Name, Word64)> {
    if r.Ok? && IsComponent(r.value.0) then Some((r.value.0, if r.value.1.Some? then r.value.1.value else iv)) else None
  }

  function CoderOf(k: Coding, chained: bool): Coder
    requires k.Ok()
  {
    Coder((p: Name, iv: Word64) => if IsComponent(p) then Component(EncodeName(k, p, Level(chained, iv)), iv) else None,
          (c: Name, iv: Word64) => if IsComponent(c) then Component(DecodeName(k, c, Level(chained, iv)), iv) else None)
  }

  lemma CleanComponent(c: Name)
    requires Clean(c) && c != []
    ensures IsComponent(c)
  {
    assert c[0] != DOT;
  }

  /** Both name codings, chained or not, encode every component and decode it again. */
  lemma CoderLawful(k: Coding, chained: bool)
    requires k.Ok()
    ensures CoderOf(k, chained).Lawful()
    ensures forall p, iv :: IsComponent(p) ==> CoderOf(k, chained).enc(p, iv).Some?
    ensures !chained ==>
      forall p, iv :: CoderOf(k, chained).enc(p, iv).Some? ==> CoderOf(k, chained).enc(p, iv).value.1 == iv
  {
    hide EncodeName, DecodeName, Clean, IsComponent;
    var cd := CoderOf(k, chained);
    forall p, iv | IsComponent(p)
      ensures cd.enc(p, iv).Some? && cd.dec(cd.enc(p, iv).value.0, iv) == Some((p, cd.enc(p, iv).value.1))
      ensures !chained ==> cd.enc(p, iv).value.1 == iv
    {
      ComponentLaw(k, chained, p, iv);
    }
  }

  lemma ComponentLaw(k: Coding, chained: bool, p: Name, iv: Word64)
    requires k.Ok() && IsComponent(p)
    ensures var cd := CoderOf(k, chained);
      && cd.enc(p, iv).Some? && cd.dec(cd.enc(p, iv).value.0, iv) == Some((p, cd.enc(p, iv).value.1))
      && (!chained ==> cd.enc(p, iv).value.1 == iv)
  {
    hide EncodeName, DecodeName, Clean, IsComponent;
    Nonempty(p);
    NameLaw(k, p, Level(chained, iv));
    var r := EncodeName(k, p, Level(chained, iv));
    CleanComponent(r.value.0);
    if !chained {
      NoChain(k, p);
    }
  }

  lemma Nonempty(p: Name)
    requires IsComponent(p)
    ensures p != []
  {
  }

  lemma NoChain(k: Coding, p: Name)
    requires k.Ok() && p != []
    ensures EncodeName(k, p, None).Ok? ==> EncodeName(k, p, None).value.1 == None
  {
  }

  /** On a chained volume the IV below a directory is the MAC of its name under the IV it lies at. */
  lemma ChainedBelow(k: Coding, p: Name, iv: Word64)
    requires k.Ok() && IsComponent(p)
    ensures CoderOf(k, true).enc(p, iv).Some?
    ensures CoderOf(k, true).enc(p, iv).value.1 == k.cipher.mac64(Covered(k, p), Some(iv))
  {
    hide EncodeName, IsComponent, Covered;
    ComponentLaw(k, true, p, iv);
    ChainedIV(k, p, iv);
  }

  /** Two directories with different MACs have different IVs below them, so their entries are coded apart. */
  lemma LevelsDiffer(k: Coding, p: Name, iv: Word64, q: Name, jv: Word64)
    requires k.Ok() && IsComponent(p) && IsComponent(q)
    requires k.cipher.mac64(Covered(k, p), Some(iv)) != k.cipher.mac64(Covered(k, q), Some(jv))
    ensures CoderOf(k, true).enc(p, iv).Some? && CoderOf(k, true).enc(q, jv).Some?
    ensures CoderOf(k, true).enc(p, iv).value.1 != CoderOf(k, true).enc(q, jv).value.1
  {
    hide CoderOf, IsComponent, Covered;
    ChainedBelow(k, p, iv);
    ChainedBelow(k, q, jv);
  }

  /** A path as text, every component behind its separator. */
  function Text(path: seq<Name>): (r: seq<Byte>)
    ensures r == [] || r[0] == SLASH
  {
    if path == [] then [] else [SLASH] + (path[0] + Text(path[1..]))
  }

  /** Coding a path text component by component is coding the path. */
  lemma {:induction false} TextEncodes(k: Coding, chained: bool, path: seq<Name>, iv: Word64)
    requires k.Ok() && forall i :: 0 <= i < |path| ==> IsComponent(path[i])
    ensures var r := Moves.EncodePath(CoderOf(k, chained), path, iv);
      && r.Some?
      && Recoded(k, Encoding, Text(path), Level(chained, iv), true) == Ok((Text(r.value.0), Level(chained, r.value.1)))
    decreases |path|
  {
    hide EncodeName, Clean, IsComponent, Recoded;
    if path == [] {
      EmptyText(k, Level(chained, iv));
    } else {
      var p, rest := path[0], path[1..];
      var lv := Level(chained, iv);
      ComponentLaw(k, chained, p, iv);
      NameLawAt(k, chained, p, iv);
      var (c, below) := CoderOf(k, chained).enc(p, iv).value;
      TextEncodes(k, chained, rest, below);
      var (cs, last) := Moves.EncodePath(CoderOf(k, chained), rest, below).value;
      TextStep(k, p, Text(rest), lv, c, Level(chained, below), Text(cs), Level(chained, last));
      assert ([c] + cs)[0] == c && ([c] + cs)[1..] == cs;
    }
  }

  lemma EmptyText(k: Coding, iv: Option<Word64>)
    requires k.Ok()
    ensures Recoded(k, Encoding, [], iv, true) == Ok(([], iv))
  {
  }

  lemma NameLawAt(k: Coding, chained: bool, p: Name, iv: Word64)
    requires k.Ok() && IsComponent(p)
    ensures var r := CoderOf(k, chained).enc(p, iv);
      r.Some? && EncodeName(k, p, Level(chained, iv)) == Ok((r.value.0, Level(chained, r.value.1)))
      && CString(r.value.0) == r.value.0 && r.value.0 != []
  {
    hide EncodeName, DecodeName;
    NameLaw(k, p, Level(chained, iv));
    var r := EncodeName(k, p, Level(chained, iv)).value;
    CleanComponent(r.0);
    CStringWhole(r.0);
    Chained(k, p, Level(chained, iv));
  }

  lemma Chained(k: Coding, p: Name, iv: Option<Word64>)
    requires k.Ok()
    ensures EncodeName(k, p, iv).Ok? ==> EncodeName(k, p, iv).value.1.Some? == iv.Some?
  {
  }

  lemma TextStep(k: Coding, p: Name, rest: seq<Byte>, iv: Option<Word64>, c: Name, below: Option<Word64>,
                 out: seq<Byte>, last: Option<Word64>)
    requires k.Ok() && IsComponent(p) && (rest == [] || rest[0] == SLASH)
    requires EncodeName(k, p, iv) == Ok((c, below)) && CString(c) == c && c != []
    requires Recoded(k, Encoding, rest, below, true) == Ok((out, last))
    ensures Recoded(k, Encoding, [SLASH] + (p + rest), iv, true) == Ok(([SLASH] + (c + out), last))
  {
    hide EncodeName, CString;
    ReadComponent(k, Encoding, p, rest, iv, true);
    assert ([SLASH] + (p + rest))[1..] == p + rest;
  }
}
