/** The plaintext view of path operations: what happens to the stored tree happens to the view. */
module Moves {
  import opened Bytes
  import opened Trees
  import opened Names
  import opened Renames

  /** The stored form of a path, with the IV below it. */
  function EncodePath(cd: Coder, path: seq<Name>, iv: Word64): (r: Option<(seq<Name>, Word64)>)
    ensures r.Some? ==> |r.value.0| == |path|
    decreases |path|
  {
    if path == [] then Some(([], iv))
    else
      match cd.enc(path[0], iv)
      case None => None
      case Some((c, below)) =>
        match EncodePath(cd, path[1..], below)
        case None => None
        case Some((cs, last)) => Some(([c] + cs, last))
  }

  function Plains(path: seq<Name>): (r: seq<VName>)
    ensures |r| == |path|
  {
    seq(|path|, i requires 0 <= i < |path| => Plain(path[i]))
  }

  function ViewOf(cd: Coder, t: Option<CTree>, iv: Word64): Option<VTree> {
    if t.None? then None else Some(View(cd, t.value, iv))
  }

  lemma PlainsTail(path: seq<Name>)
    requires path != []
    ensures Plains(path)[0] == Plain(path[0]) && Plains(path)[1..] == Plains(path[1..])
  {
  }

  /** A name is found in the view exactly where its encoding is found in the stored directory. */
  lemma FindView(cd: Coder, es: Entries<Name>, p: Name, iv: Word64)
    requires cd.Lawful() && Canonical(cd, Dir(es), iv) && cd.enc(p, iv).Some?
    ensures var (c, below) := cd.enc(p, iv).value; var vs := View(cd, Dir(es), iv).entries;
      var i := Find(es, c);
      && |vs| == |es| && Find(vs, Plain(p)) == i
      && (i < |es| ==> vs[i] == (Plain(p), View(cd, es[i].1, below)) && Canonical(cd, es[i].1, below))
  {
    hide Find;
    var (c, below) := cd.enc(p, iv).value;
    var vs := View(cd, Dir(es), iv).entries;
    var i := Find(es, c);
    forall k | 0 <= k < |es| ensures vs[k].0 == Plain(p) <==> es[k].0 == c {
      assert vs[k] == ViewEntry(cd, es[k], iv);
    }
    assert Find(vs, Plain(p)) == i by {
      if i < |es| {
        FindIs(vs, Plain(p), i);
      }
    }
    if i < |es| {
      assert vs[i] == ViewEntry(cd, es[i], iv);
    }
  }

  lemma {:induction false} LookupView(cd: Coder, t: CTree, path: seq<Name>, iv: Word64)
    requires cd.Lawful() && Canonical(cd, t, iv) && EncodePath(cd, path, iv).Some?
    ensures var (cs, last) := EncodePath(cd, path, iv).value;
      && ViewOf(cd, Lookup(t, cs), last) == Lookup(View(cd, t, iv), Plains(path))
      && (Lookup(t, cs).Some? ==> Canonical(cd, Lookup(t, cs).value, last))
    decreases |path|
  {
    hide Find, ViewEntry;
    if path != [] && t.Dir? {
      PlainsTail(path);
      FindView(cd, t.entries, path[0], iv);
      var (c, below) := cd.enc(path[0], iv).value;
      var cs := EncodePath(cd, path, iv).value.0;
      assert cs[1..] == EncodePath(cd, path[1..], below).value.0;
      var i := Find(t.entries, c);
      if i < |t.entries| {
        LookupView(cd, t.entries[i].1, path[1..], below);
      }
    }
  }

  /** The view of a directory with one entry replaced. */
  lemma ViewUpdate(cd: Coder, es: Entries<Name>, i: nat, p: Name, x: CTree, iv: Word64)
    requires i < |es| && cd.Lawful() && cd.enc(p, iv).Some?
    ensures var (c, below) := cd.enc(p, iv).value;
      && View(cd, Dir(es[i := (c, x)]), iv) == Dir(View(cd, Dir(es), iv).entries[i := (Plain(p), View(cd, x, below))])
      && (Canonical(cd, Dir(es), iv) && Canonical(cd, x, below) ==> Canonical(cd, Dir(es[i := (c, x)]), iv))
  {
    var (c, below) := cd.enc(p, iv).value;
    var us, vs := es[i := (c, x)], View(cd, Dir(es), iv).entries;
    assert cd.dec(c, iv) == Some((p, below));
    forall k | 0 <= k < |es|
      ensures ViewEntry(cd, us[k], iv) == vs[i := (Plain(p), View(cd, x, below))][k]
    {
    }
    assert View(cd, Dir(us), iv).entries == vs[i := (Plain(p), View(cd, x, below))];
  }

  lemma ViewAppend(cd: Coder, es: Entries<Name>, p: Name, x: CTree, iv: Word64)
    requires cd.Lawful() && cd.enc(p, iv).Some?
    ensures var (c, below) := cd.enc(p, iv).value;
      && View(cd, Dir(es + [(c, x)]), iv) == Dir(View(cd, Dir(es), iv).entries + [(Plain(p), View(cd, x, below))])
      && (Canonical(cd, Dir(es), iv) && Canonical(cd, x, below) ==> Canonical(cd, Dir(es + [(c, x)]), iv))
  {
    var (c, below) := cd.enc(p, iv).value;
    var us, vs := es + [(c, x)], View(cd, Dir(es), iv).entries;
    assert cd.dec(c, iv) == Some((p, below));
    forall k | 0 <= k < |us|
      ensures ViewEntry(cd, us[k], iv) == (vs + [(Plain(p), View(cd, x, below))])[k]
    {
    }
    assert View(cd, Dir(us), iv).entries == vs + [(Plain(p), View(cd, x, below))];
  }

  lemma ViewDrop(cd: Coder, es: Entries<Name>, i: nat, iv: Word64)
    requires i < |es|
    ensures var vs := View(cd, Dir(es), iv).entries;
      && |vs| == |es|
      && View(cd, Dir(es[..i] + es[i + 1..]), iv) == Dir(vs[..i] + vs[i + 1..])
      && (Canonical(cd, Dir(es), iv) ==> Canonical(cd, Dir(es[..i] + es[i + 1..]), iv))
  {
    hide ViewEntry;
    var us, vs := es[..i] + es[i + 1..], View(cd, Dir(es), iv).entries;
    assert View(cd, Dir(us), iv).entries == vs[..i] + vs[i + 1..];
    forall k | 0 <= k < |us| ensures us[k] == es[if k < i then k else k + 1] {
    }
  }

  lemma {:induction false} PutView(cd: Coder, t: CTree, path: seq<Name>, x: CTree, iv: Word64)
    requires cd.Lawful() && Canonical(cd, t, iv) && path != [] && EncodePath(cd, path, iv).Some?
    ensures var (cs, last) := EncodePath(cd, path, iv).value;
      && ViewOf(cd, Put(t, cs, x), iv) == Put(View(cd, t, iv), Plains(path), View(cd, x, last))
      && (Put(t, cs, x).Some? && Canonical(cd, x, last) ==> Canonical(cd, Put(t, cs, x).value, iv))
    decreases |path|
  {
    hide Find, ViewEntry, Canonical;
    if t.Dir? {
      PlainsTail(path);
      FindView(cd, t.entries, path[0], iv);
      var (c, below) := cd.enc(path[0], iv).value;
      var (cs, last) := EncodePath(cd, path, iv).value;
      assert cs[0] == c && cs[1..] == EncodePath(cd, path[1..], below).value.0;
      var i := Find(t.entries, c);
      if |path| == 1 {
        if i == |t.entries| {
          ViewAppend(cd, t.entries, path[0], x, iv);
        } else {
          ReplacesView(cd, x, t.entries[i].1, below, below);
          ViewUpdate(cd, t.entries, i, path[0], x, iv);
        }
      } else if i < |t.entries| {
        PutView(cd, t.entries[i].1, path[1..], x, below);
        var s := Put(t.entries[i].1, cs[1..], x);
        if s.Some? {
          ViewUpdate(cd, t.entries, i, path[0], s.value, iv);
        }
      }
    }
  }

  lemma ReplacesView(cd: Coder, x: CTree, y: CTree, ivX: Word64, ivY: Word64)
    ensures Replaces(View(cd, x, ivX), View(cd, y, ivY)) == Replaces(x, y)
  {
    hide ViewEntry;
    if y.Dir? {
      assert |View(cd, y, ivY).entries| == |y.entries|;
    }
  }

  lemma {:induction false} RemoveView(cd: Coder, t: CTree, path: seq<Name>, iv: Word64)
    requires cd.Lawful() && Canonical(cd, t, iv) && path != [] && EncodePath(cd, path, iv).Some?
    ensures var cs := EncodePath(cd, path, iv).value.0;
      && ViewOf(cd, Remove(t, cs), iv) == Remove(View(cd, t, iv), Plains(path))
      && (Remove(t, cs).Some? ==> Canonical(cd, Remove(t, cs).value, iv))
    decreases |path|
  {
    hide Find, ViewEntry, Canonical;
    if t.Dir? {
      PlainsTail(path);
      FindView(cd, t.entries, path[0], iv);
      var (c, below) := cd.enc(path[0], iv).value;
      var (cs, last) := EncodePath(cd, path, iv).value;
      assert cs[0] == c && cs[1..] == EncodePath(cd, path[1..], below).value.0;
      var i := Find(t.entries, c);
      if i < |t.entries| {
        if |path| == 1 {
          ViewDrop(cd, t.entries, i, iv);
        } else {
          RemoveView(cd, t.entries[i].1, path[1..], below);
          var s := Remove(t.entries[i].1, cs[1..]);
          if s.Some? {
            ViewUpdate(cd, t.entries, i, path[0], s.value, iv);
          }
        }
      }
    }
  }

  /** One path is above another exactly when its stored form is. */
  lemma {:induction false} PrefixEncoded(cd: Coder, from: seq<Name>, to: seq<Name>, iv: Word64)
    requires cd.Lawful() && EncodePath(cd, from, iv).Some? && EncodePath(cd, to, iv).Some?
    ensures (from <= to) == (EncodePath(cd, from, iv).value.0 <= EncodePath(cd, to, iv).value.0)
    ensures (from <= to) == (Plains(from) <= Plains(to))
    decreases |from|
  {
    if from != [] && to != [] {
      PlainsTail(from);
      PlainsTail(to);
      assert from == [from[0]] + from[1..] && to == [to[0]] + to[1..];
      assert Plains(from) == [Plain(from[0])] + Plains(from[1..]) && Plains(to) == [Plain(to[0])] + Plains(to[1..]);
      var (cf, cg) := (cd.enc(from[0], iv).value, cd.enc(to[0], iv).value);
      assert cf.0 == cg.0 ==> from[0] == to[0];
      var fs, gs := EncodePath(cd, from, iv).value.0, EncodePath(cd, to, iv).value.0;
      if from[0] == to[0] {
        PrefixEncoded(cd, from[1..], to[1..], cf.1);
        var fr, gr := EncodePath(cd, from[1..], cf.1).value.0, EncodePath(cd, to[1..], cf.1).value.0;
        assert fs == [cf.0] + fr && gs == [cf.0] + gr;
        assert fs[1..] == fr && gs[1..] == gr;
      } else {
        assert fs[0] != gs[0] && Plains(from)[0] != Plains(to)[0];
      }
    }
  }

  lemma PathEncoded(cd: Coder, from: seq<Name>, to: seq<Name>, iv: Word64)
    requires cd.Lawful() && EncodePath(cd, from, iv).Some? && EncodePath(cd, to, iv).Some?
    ensures (from == to) == (EncodePath(cd, from, iv).value.0 == EncodePath(cd, to, iv).value.0)
    ensures (from == to) == (Plains(from) == Plains(to))
  {
    PrefixEncoded(cd, from, to, iv);
    PrefixEncoded(cd, to, from, iv);
  }

  /** Re-encoding gives names that are canonical under the new IV. */
  lemma {:induction false} RecodeCanonical(cd: Coder, t: CTree, from: Word64, to: Word64)
    requires cd.Lawful() && Canonical(cd, t, from) && Movable(cd, t, from, to)
    ensures Canonical(cd, Recode(cd, t, from, to), to)
    decreases t
  {
    if from != to && t.Dir? {
      var es, us := t.entries, Recode(cd, t, from, to).entries;
      forall i | 0 <= i < |es|
        ensures match cd.dec(us[i].0, to)
          case None => true
          case Some((p, below)) => cd.enc(p, to) == Some((us[i].0, below)) && Canonical(cd, us[i].1, below)
      {
        assert us[i] == RecodeEntry(cd, es[i], from, to);
        match cd.dec(es[i].0, from)
        case None =>
        case Some((p, below)) =>
          RecodeCanonical(cd, es[i].1, below, cd.enc(p, to).value.1);
      }
    }
  }

  /** Re-encoding without clashes keeps names distinct. */
  lemma {:induction false} RecodeProper(cd: Coder, t: CTree, from: Word64, to: Word64)
    requires Proper(t) && NoClash(cd, t, from, to)
    ensures Proper(Recode(cd, t, from, to))
    decreases t
  {
    if from != to && t.Dir? {
      var es, us := t.entries, Recode(cd, t, from, to).entries;
      forall i, j | 0 <= i < j < |es| ensures us[i].0 != us[j].0 {
        assert us[i].0 == NewName(cd, es[i], from, to) && us[j].0 == NewName(cd, es[j], from, to);
      }
      forall i | 0 <= i < |es| ensures Proper(us[i].1) {
        assert us[i] == RecodeEntry(cd, es[i], from, to);
        match cd.dec(es[i].0, from)
        case None =>
        case Some((p, below)) =>
          if cd.enc(p, to).Some? {
            RecodeProper(cd, es[i].1, below, cd.enc(p, to).value.1);
          }
      }
    }
  }

  lemma {:induction false} GraftSame<N>(t: Tree<N>, path: seq<N>)
    requires Lookup(t, path).Some?
    ensures Graft(t, path, Lookup(t, path).value) == Some(t)
    decreases |path|
  {
    if path != [] {
      var i := Find(t.entries, path[0]);
      GraftSame(t.entries[i].1, path[1..]);
      assert t.entries[i := t.entries[i]] == t.entries;
    }
  }

  /** The stored tree when the subtree at `from` has been re-encoded for its new place but not moved yet. */
  function Prepared(cd: Coder, t: CTree, from: seq<Name>, to: seq<Name>): (r: Option<CTree>) {
    match (EncodePath(cd, from, 0), EncodePath(cd, to, 0))
    case (Some((fromC, fromIV)), Some((_, toIV))) =>
      (match Lookup(t, fromC)
       case None => Some(t)
       case Some(x) => Graft(t, fromC, Recode(cd, x, fromIV, toIV)))
    case _ => None
  }

  /** The names below `from` can all be re-encoded, whether or not a list is needed. */
  ghost predicate MovableAt(cd: Coder, t: CTree, from: seq<Name>, to: seq<Name>) {
    match (EncodePath(cd, from, 0), EncodePath(cd, to, 0))
    case (Some((fromC, fromIV)), Some((_, toIV))) =>
      (match Lookup(t, fromC)
       case None => true
       case Some(x) => Movable(cd, x, fromIV, toIV))
    case _ => false
  }

  /**
   * The main theorem: re-encoding a subtree and then moving it on disk moves it in the plaintext view,
   * entry for entry, and succeeds exactly when the move on the view does.
   */
  lemma MoveView(cd: Coder, t: CTree, from: seq<Name>, to: seq<Name>)
    requires cd.Lawful() && Canonical(cd, t, 0) && from != [] && to != [] && MovableAt(cd, t, from, to)
    ensures var (fromC, toC) := (EncodePath(cd, from, 0).value.0, EncodePath(cd, to, 0).value.0);
      && Prepared(cd, t, from, to).Some?
      && var r := Move(Prepared(cd, t, from, to).value, fromC, toC);
      && ViewOf(cd, r, 0) == Move(View(cd, t, 0), Plains(from), Plains(to))
      && (r.Some? ==> Canonical(cd, r.value, 0))
  {
    hide EncodePath, Recode, Put, Remove, Graft, Lookup, View, Plains, Canonical, Movable;
    var (fromC, fromIV) := EncodePath(cd, from, 0).value;
    var (toC, toIV) := EncodePath(cd, to, 0).value;
    LookupView(cd, t, from, 0);
    PrefixEncoded(cd, from, to, 0);
    PathEncoded(cd, from, to, 0);
    if Lookup(t, fromC).Some? {
      var x := Lookup(t, fromC).value;
      var x' := Recode(cd, x, fromIV, toIV);
      LookupGraft(t, fromC, x');
      if from == to {
        RecodeSame(cd, x, fromIV);
        GraftSame(t, fromC);
      } else if !(from <= to) {
        MoveGraft(t, fromC, toC, x');
        RecodeView(cd, x, fromIV, toIV);
        RecodeCanonical(cd, x, fromIV, toIV);
        PutView(cd, t, to, x', 0);
        var u := Put(t, toC, x');
        if u.Some? {
          RemoveView(cd, u.value, from, 0);
        }
      }
    }
  }

  // ---------------------------------------------------------------- what the view tells

  lemma {:induction false} RawInjective(t: CTree, u: CTree)
    requires RawTree(t) == RawTree(u)
    ensures t == u
    decreases t
  {
    if t.Dir? {
      var es, us := t.entries, u.entries;
      assert |es| == |RawTree(t).entries| == |us|;
      forall i | 0 <= i < |es| ensures es[i] == us[i] {
        assert RawTree(t).entries[i] == RawTree(u).entries[i];
        RawInjective(es[i].1, us[i].1);
      }
    }
  }

  /** The view hides nothing: two canonical trees that look the same are the same. */
  lemma {:induction false} ViewInjective(cd: Coder, t: CTree, u: CTree, iv: Word64)
    requires Canonical(cd, t, iv) && Canonical(cd, u, iv) && View(cd, t, iv) == View(cd, u, iv)
    ensures t == u
    decreases t
  {
    if t.Dir? {
      var es, us := t.entries, u.entries;
      assert |es| == |View(cd, t, iv).entries| == |us|;
      forall i | 0 <= i < |es| ensures es[i] == us[i] {
        assert View(cd, t, iv).entries[i] == View(cd, u, iv).entries[i];
        assert ViewEntry(cd, es[i], iv) == ViewEntry(cd, us[i], iv);
        match cd.dec(es[i].0, iv)
        case None =>
          RawInjective(es[i].1, us[i].1);
        case Some((p, below)) =>
          ViewInjective(cd, es[i].1, us[i].1, below);
      }
    }
  }

  lemma RecodeSame(cd: Coder, t: CTree, iv: Word64)
    ensures Recode(cd, t, iv, iv) == t
  {
  }
}
