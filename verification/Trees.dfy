/** Directory trees: lookup, removal, insertion and renaming of entries by path. */
module Trees {
  import opened Bytes

  /** Entries are listed in directory order. */
  datatype Tree<N> = File(id: nat) | Dir(entries: seq<(N, Tree<N>)>)

  type Entries<N> = seq<(N, Tree<N>)>

  /** The position of the first entry with this name, or the number of entries. */
  function Find<N(==)>(es: Entries<N>, n: N): (i: nat)
    ensures i <= |es| && (i < |es| ==> es[i].0 == n)
    ensures forall j :: 0 <= j < i ==> es[j].0 != n
  {
    if es == [] || es[0].0 == n then 0 else 1 + Find(es[1..], n)
  }

  lemma FindIs<N>(es: Entries<N>, n: N, i: nat)
    requires i < |es| && es[i].0 == n && forall j :: 0 <= j < i ==> es[j].0 != n
    ensures Find(es, n) == i
  {
    assert Find(es, n) <= i;
  }

  function Lookup<N(==)>(t: Tree<N>, path: seq<N>): Option<Tree<N>>
    decreases |path|
  {
    if path == [] then Some(t)
    else if t.File? then None
    else
      var i := Find(t.entries, path[0]);
      if i == |t.entries| then None else Lookup(t.entries[i].1, path[1..])
  }

  /** Replace the subtree at an existing path. */
  function Graft<N(==)>(t: Tree<N>, path: seq<N>, x: Tree<N>): Option<Tree<N>>
    decreases |path|
  {
    if path == [] then Some(x)
    else if t.File? then None
    else
      var i := Find(t.entries, path[0]);
      if i == |t.entries| then None
      else
        match Graft(t.entries[i].1, path[1..], x)
        case None => None
        case Some(s) => Some(Dir(t.entries[i := (path[0], s)]))
  }

  function Remove<N(==)>(t: Tree<N>, path: seq<N>): Option<Tree<N>>
    requires path != []
    decreases |path|
  {
    if t.File? then None
    else
      var i := Find(t.entries, path[0]);
      if i == |t.entries| then None
      else if |path| == 1 then Some(Dir(t.entries[..i] + t.entries[i + 1..]))
      else
        match Remove(t.entries[i].1, path[1..])
        case None => None
        case Some(s) => Some(Dir(t.entries[i := (path[0], s)]))
  }

  /** Only a file can replace a file, and only a directory an empty directory. */
  predicate Replaces<N>(x: Tree<N>, y: Tree<N>) {
    if x.File? then y.File? else y.Dir? && y.entries == []
  }

  /** Place a subtree in an existing directory, over an entry it may replace or under a free name. */
  function Put<N(==)>(t: Tree<N>, path: seq<N>, x: Tree<N>): Option<Tree<N>>
    requires path != []
    decreases |path|
  {
    if t.File? then None
    else
      var i := Find(t.entries, path[0]);
      if |path| == 1 then
        if i == |t.entries| then Some(Dir(t.entries + [(path[0], x)]))
        else if Replaces(x, t.entries[i].1) then Some(Dir(t.entries[i := (path[0], x)]))
        else None
      else if i == |t.entries| then None
      else
        match Put(t.entries[i].1, path[1..], x)
        case None => None
        case Some(s) => Some(Dir(t.entries[i := (path[0], s)]))
  }

  /** rename(2) of a path: nothing can be moved below itself. */
  function Move<N(==)>(t: Tree<N>, from: seq<N>, to: seq<N>): Option<Tree<N>>
    requires from != [] && to != []
  {
    match Lookup(t, from)
    case None => None
    case Some(x) =>
      if from == to then Some(t)
      else if from <= to then None
      else
        match Put(t, to, x)
        case None => None
        case Some(u) => Remove(u, from)
  }

  /**
   * rename(2) of one entry within a directory: a taken name is replaced where `Replaces` allows.
   */
  function RenameEntry<N(==)>(es: Entries<N>, old': N, new': N): Option<Entries<N>> {
    var i, j := Find(es, old'), Find(es, new');
    if i == |es| then None
    else if i == j then Some(es)
    else if j == |es| then Some(es[i := (new', es[i].1)])
    else if !Replaces(es[i].1, es[j].1) then None
    else
      var renamed := es[i := (new', es[i].1)];
      Some(renamed[..j] + renamed[j + 1..])
  }

  function RenameAt<N(==)>(t: Tree<N>, dir: seq<N>, old': N, new': N): Option<Tree<N>>
    decreases |dir|
  {
    if t.File? then None
    else if dir == [] then
      match RenameEntry(t.entries, old', new')
      case None => None
      case Some(es) => Some(Dir(es))
    else
      var i := Find(t.entries, dir[0]);
      if i == |t.entries| then None
      else
        match RenameAt(t.entries[i].1, dir[1..], old', new')
        case None => None
        case Some(s) => Some(Dir(t.entries[i := (dir[0], s)]))
  }

  /** The new name is not taken in the directory (or is the old one). */
  predicate FreeAt<N(==)>(t: Tree<N>, dir: seq<N>, old': N, new': N)
    decreases |dir|
  {
    if t.File? then true
    else if dir == [] then old' == new' || Find(t.entries, new') == |t.entries|
    else
      var i := Find(t.entries, dir[0]);
      i < |t.entries| ==> FreeAt(t.entries[i].1, dir[1..], old', new')
  }

  /** No directory lists a name twice. */
  ghost predicate Proper<N>(t: Tree<N>)
  {
    t.Dir? ==>
      && (forall i, j :: 0 <= i < j < |t.entries| ==> t.entries[i].0 != t.entries[j].0)
      && (forall i :: 0 <= i < |t.entries| ==> Proper(t.entries[i].1))
  }

  lemma FindUpdated<N>(es: Entries<N>, i: nat, x: Tree<N>, n: N)
    requires i < |es| && Find(es, es[i].0) == i
    ensures Find(es[i := (es[i].0, x)], n) == Find(es, n)
  {
    var us := es[i := (es[i].0, x)];
    var k := Find(es, n);
    if k < |es| {
      FindIs(us, n, k);
    }
  }

  lemma EntryBack<N>(es: Entries<N>, old': N, new': N)
    requires Proper(Dir(es)) && old' != new' && Find(es, old') < |es| == Find(es, new')
    ensures var us := es[Find(es, old') := (new', es[Find(es, old')].1)];
      Proper(Dir(us)) && RenameEntry(es, old', new') == Some(us) && RenameEntry(us, new', old') == Some(es)
  {
    var i := Find(es, old');
    var us := es[i := (new', es[i].1)];
    FindIs(us, new', i);
    assert Find(us, old') == |us|;
    assert us[i := (old', es[i].1)] == es;
  }

  /** Renaming to a free name keeps names distinct and can be taken back. */
  lemma {:induction false} RenameBack<N>(t: Tree<N>, dir: seq<N>, old': N, new': N)
    requires Proper(t) && RenameAt(t, dir, old', new').Some? && FreeAt(t, dir, old', new')
    ensures Proper(RenameAt(t, dir, old', new').value)
    ensures RenameAt(RenameAt(t, dir, old', new').value, dir, new', old') == Some(t)
    decreases |dir|
  {
    var es := t.entries;
    if dir == [] {
      if old' != new' {
        EntryBack(es, old', new');
      }
    } else {
      var i := Find(es, dir[0]);
      RenameBack(es[i].1, dir[1..], old', new');
      var s := RenameAt(es[i].1, dir[1..], old', new').value;
      FindUpdated(es, i, s, dir[0]);
      assert es[i := (dir[0], s)][i := (dir[0], es[i].1)] == es;
    }
  }

  // ---------------------------------------------------------------- grafting

  lemma {:induction false} LookupGraft<N>(t: Tree<N>, path: seq<N>, x: Tree<N>)
    requires Lookup(t, path).Some?
    ensures Graft(t, path, x).Some? && Lookup(Graft(t, path, x).value, path) == Some(x)
    decreases |path|
  {
    if path != [] {
      var i := Find(t.entries, path[0]);
      LookupGraft(t.entries[i].1, path[1..], x);
      FindUpdated(t.entries, i, Graft(t.entries[i].1, path[1..], x).value, path[0]);
    }
  }

  lemma {:induction false} RemoveGraft<N>(t: Tree<N>, path: seq<N>, x: Tree<N>)
    requires path != [] && Lookup(t, path).Some?
    ensures Graft(t, path, x).Some? && Remove(Graft(t, path, x).value, path) == Remove(t, path)
    decreases |path|
  {
    var es, i := t.entries, Find(t.entries, path[0]);
    LookupGraft(t, path, x);
    var s := Graft(es[i].1, path[1..], x).value;
    var us := es[i := (path[0], s)];
    FindUpdated(es, i, s, path[0]);
    if |path| == 1 {
      assert us[..i] + us[i + 1..] == es[..i] + es[i + 1..];
    } else {
      RemoveGraft(es[i].1, path[1..], x);
      var r := Remove(es[i].1, path[1..]);
      if r.Some? {
        assert us[i := (path[0], r.value)] == es[i := (path[0], r.value)];
      }
    }
  }

  function RemoveAfter<N(==)>(u: Option<Tree<N>>, path: seq<N>): Option<Tree<N>>
    requires path != []
  {
    if u.None? then None else Remove(u.value, path)
  }

  /** What was grafted at the old place is gone after the move: only what is put at the new one stays. */
  lemma {:induction false} MoveGraft<N>(t: Tree<N>, from: seq<N>, to: seq<N>, x: Tree<N>)
    requires from != [] && to != [] && !(from <= to) && Lookup(t, from).Some?
    ensures Graft(t, from, x).Some?
    ensures RemoveAfter(Put(Graft(t, from, x).value, to, x), from) == RemoveAfter(Put(t, to, x), from)
    decreases |from|
  {
    hide Find, Remove, RemoveAfter;
    var es, f, g := t.entries, from[0], to[0];
    var i := Find(es, f);
    LookupGraft(t, from, x);
    var s := Graft(es[i].1, from[1..], x).value;
    var us := es[i := (f, s)];
    FindUpdated(es, i, s, f);
    FindUpdated(es, i, s, g);
    if f != g {
      Apart(es, i, s, from, to, x);
    } else if |to| == 1 {
      assert from[1..] != [];
      assert !Replaces(x, es[i].1) && !Replaces(x, s);
      assert Put(t, to, x) == None && Put(Dir(us), to, x) == None;
    } else {
      assert from == [f] + from[1..] && to == [f] + to[1..];
      assert !(from[1..] <= to[1..]);
      assert from[1..] != [];
      MoveGraft(es[i].1, from[1..], to[1..], x);
      Deeper(es, i, Put(es[i].1, to[1..], x), from);
      Deeper(us, i, Put(s, to[1..], x), from);
      var p := Put(es[i].1, to[1..], x);
      var v := RemoveAfter(p, from[1..]);
      if v.Some? {
        assert us[i := (f, v.value)] == es[i := (f, v.value)];
      }
    }
  }

  /** Removal below an entry that has just been replaced. */
  lemma Deeper<N>(es: Entries<N>, i: nat, u: Option<Tree<N>>, from: seq<N>)
    requires i < |es| && |from| > 1 && Find(es, from[0]) == i
    ensures RemoveAfter(if u.None? then None else Some(Dir(es[i := (from[0], u.value)])), from)
      == (var r := RemoveAfter(u, from[1..]); if r.None? then None else Some(Dir(es[i := (from[0], r.value)])))
  {
    if u.Some? {
      FindUpdated(es, i, u.value, from[0]);
      var r := Remove(u.value, from[1..]);
      if r.Some? {
        assert es[i := (from[0], u.value)][i := (from[0], r.value)] == es[i := (from[0], r.value)];
      }
    }
  }

  lemma Apart<N>(es: Entries<N>, i: nat, s: Tree<N>, from: seq<N>, to: seq<N>, x: Tree<N>)
    requires from != [] && to != [] && from[0] != to[0]
    requires i < |es| && Find(es, from[0]) == i && Lookup(es[i].1, from[1..]).Some?
    requires Graft(es[i].1, from[1..], x) == Some(s)
    ensures RemoveAfter(Put(Dir(es[i := (from[0], s)]), to, x), from) == RemoveAfter(Put(Dir(es), to, x), from)
  {
    hide Find, Graft, Lookup, Remove, Replaces;
    var us := es[i := (from[0], s)];
    var j := Find(es, to[0]);
    FindUpdated(es, i, s, from[0]);
    FindUpdated(es, i, s, to[0]);
    var y := if |to| == 1 then Some(x) else if j < |es| then Put(es[j].1, to[1..], x) else None;
    if j == |es| {
      if |to| == 1 {
        var es', us' := es + [(to[0], x)], us + [(to[0], x)];
        FindIs(es', from[0], i);
        FindIs(us', from[0], i);
        assert us' == es'[i := (from[0], s)];
        RemoveUpdated(es', i, s, from, x);
      }
    } else if y.Some? && (|to| == 1 ==> Replaces(x, es[j].1)) {
      var es', us' := es[j := (to[0], y.value)], us[j := (to[0], y.value)];
      FindUpdated(es, j, y.value, from[0]);
      FindUpdated(us, j, y.value, from[0]);
      assert us' == es'[i := (from[0], s)];
      RemoveUpdated(es', i, s, from, x);
    }
  }

  lemma RemoveUpdated<N>(es: Entries<N>, i: nat, s: Tree<N>, from: seq<N>, x: Tree<N>)
    requires from != [] && i < |es| && Find(es, from[0]) == i && Lookup(es[i].1, from[1..]).Some?
    requires Graft(es[i].1, from[1..], x) == Some(s)
    ensures Remove(Dir(es[i := (from[0], s)]), from) == Remove(Dir(es), from)
  {
    RemoveGraft(Dir(es), from, x);
  }

  // ---------------------------------------------------------------- names stay distinct

  lemma ProperUpdate<N>(es: Entries<N>, i: nat, x: Tree<N>)
    requires i < |es| && Proper(Dir(es)) && Proper(x)
    ensures Proper(Dir(es[i := (es[i].0, x)]))
  {
  }

  lemma {:induction false} ProperLookup<N>(t: Tree<N>, path: seq<N>)
    requires Proper(t) && Lookup(t, path).Some?
    ensures Proper(Lookup(t, path).value)
    decreases |path|
  {
    if path != [] {
      ProperLookup(t.entries[Find(t.entries, path[0])].1, path[1..]);
    }
  }

  lemma {:induction false} ProperPut<N>(t: Tree<N>, path: seq<N>, x: Tree<N>)
    requires path != [] && Proper(t) && Proper(x) && Put(t, path, x).Some?
    ensures Proper(Put(t, path, x).value)
    decreases |path|
  {
    var es, i := t.entries, Find(t.entries, path[0]);
    if i < |es| {
      if |path| > 1 {
        ProperPut(es[i].1, path[1..], x);
        ProperUpdate(es, i, Put(es[i].1, path[1..], x).value);
      } else {
        ProperUpdate(es, i, x);
      }
    }
  }

  lemma {:induction false} ProperRemove<N>(t: Tree<N>, path: seq<N>)
    requires path != [] && Proper(t) && Remove(t, path).Some?
    ensures Proper(Remove(t, path).value)
    decreases |path|
  {
    var es, i := t.entries, Find(t.entries, path[0]);
    if |path| > 1 {
      ProperRemove(es[i].1, path[1..]);
      ProperUpdate(es, i, Remove(es[i].1, path[1..]).value);
    } else {
      var us := es[..i] + es[i + 1..];
      forall k | 0 <= k < |us| ensures us[k] == es[if k < i then k else k + 1] {
      }
    }
  }

  lemma {:induction false} ProperGraft<N>(t: Tree<N>, path: seq<N>, x: Tree<N>)
    requires Proper(t) && Proper(x) && Graft(t, path, x).Some?
    ensures Proper(Graft(t, path, x).value)
    decreases |path|
  {
    if path != [] {
      var es, i := t.entries, Find(t.entries, path[0]);
      ProperGraft(es[i].1, path[1..], x);
      ProperUpdate(es, i, Graft(es[i].1, path[1..], x).value);
    }
  }

  lemma ProperMove<N>(t: Tree<N>, from: seq<N>, to: seq<N>)
    requires from != [] && to != [] && Proper(t) && Move(t, from, to).Some?
    ensures Proper(Move(t, from, to).value)
  {
    if from != to {
      var x := Lookup(t, from).value;
      ProperLookup(t, from);
      ProperPut(t, to, x);
      ProperRemove(Put(t, to, x).value, from);
    }
  }

  lemma {:induction false} LookupSnoc<N>(t: Tree<N>, path: seq<N>, n: N)
    ensures Lookup(t, path + [n]) ==
      match Lookup(t, path) case None => None case Some(x) => Lookup(x, [n])
    decreases |path|
  {
    if path == [] {
      assert path + [n] == [n];
    } else {
      assert (path + [n])[1..] == path[1..] + [n];
      if t.Dir? && Find(t.entries, path[0]) < |t.entries| {
        LookupSnoc(t.entries[Find(t.entries, path[0])].1, path[1..], n);
      }
    }
  }

  // ---------------------------------------------------------------- depth

  function Depth<N>(t: Tree<N>): nat
    decreases t, 0
  {
    match t
    case File(_) => 0
    case Dir(es) => 1 + Deepest(es)
  }

  function DepthOf<N>(e: (N, Tree<N>)): nat
    decreases e, 0
  {
    Depth(e.1)
  }

  function Deepest<N>(es: Entries<N>): (d: nat)
    ensures forall i :: 0 <= i < |es| ==> DepthOf(es[i]) <= d
    decreases es, 0
  {
    if es == [] then 0
    else
      var a, b := DepthOf(es[0]), Deepest(es[1..]);
      assert forall i :: 0 < i < |es| ==> es[i] == es[1..][i - 1];
      if a < b then b else a
  }

  /** How deep the tree is below a path, nothing for a missing path. */
  function DepthAt<N(==)>(t: Tree<N>, path: seq<N>): nat {
    match Lookup(t, path)
    case None => 0
    case Some(x) => Depth(x)
  }

  lemma DepthBelow<N>(t: Tree<N>, path: seq<N>, n: N)
    requires Lookup(t, path).Some? && Lookup(t, path).value.Dir?
    ensures DepthAt(t, path + [n]) < DepthAt(t, path)
  {
    LookupSnoc(t, path, n);
    var x := Lookup(t, path).value;
    var i := Find(x.entries, n);
    if i < |x.entries| {
      assert [n][1..] == [];
      assert Lookup(x, [n]) == Some(x.entries[i].1);
    }
  }

  // ---------------------------------------------------------------- how many entries there are

  function Weight<N>(t: Tree<N>): nat
    decreases t, 0
  {
    match t
    case File(_) => 0
    case Dir(es) => Total(es)
  }

  function WeightOf<N>(e: (N, Tree<N>)): (w: nat)
    ensures 0 < w
    decreases e, 0
  {
    1 + Weight(e.1)
  }

  function Total<N>(es: Entries<N>): nat
    decreases es, 0
  {
    if es == [] then 0 else WeightOf(es[0]) + Total(es[1..])
  }

  lemma {:induction false} TotalConcat<N>(a: Entries<N>, b: Entries<N>)
    ensures Total(a + b) == Total(a) + Total(b)
    decreases |a|
  {
    if a == [] {
      assert a + b == b;
    } else {
      assert (a + b)[1..] == a[1..] + b;
      TotalConcat(a[1..], b);
    }
  }

  /** The weight of a directory is that of one entry and of the others. */
  lemma TotalSplit<N>(es: Entries<N>, i: nat)
    requires i < |es|
    ensures Total(es) == Total(es[..i]) + WeightOf(es[i]) + Total(es[i + 1..])
  {
    assert es == es[..i] + es[i..] && es[i..] == [es[i]] + es[i + 1..];
    TotalConcat(es[..i], es[i..]);
  }

  lemma TotalUpdate<N>(es: Entries<N>, i: nat, e: (N, Tree<N>))
    requires i < |es|
    ensures Total(es[i := e]) + WeightOf(es[i]) == Total(es) + WeightOf(e)
  {
    hide Total;
    var us := es[i := e];
    TotalSplit(es, i);
    TotalSplit(us, i);
    assert us[..i] == es[..i] && us[i + 1..] == es[i + 1..];
  }

  lemma TotalDrop<N>(es: Entries<N>, j: nat)
    requires j < |es|
    ensures Total(es[..j] + es[j + 1..]) + WeightOf(es[j]) == Total(es)
  {
    hide Total;
    TotalSplit(es, j);
    TotalConcat(es[..j], es[j + 1..]);
  }

  /** Renaming over a taken name: exactly the entry that had it is lost, the others stay in order. */
  lemma EntryLost<N>(es: Entries<N>, old': N, new': N)
    requires var i, j := Find(es, old'), Find(es, new'); i != j && i < |es| && j < |es| && Replaces(es[i].1, es[j].1)
    ensures var i, j := Find(es, old'), Find(es, new'); var us := RenameEntry(es, old', new');
      && us.Some? && |us.value| == |es| - 1
      && forall k :: 0 <= k < |us.value| ==>
        var p := if k < j then k else k + 1;
        us.value[k] == if p == i then (new', es[i].1) else es[p]
  {
    hide Find, Replaces;
  }

  /** Renaming over a taken name loses the entry that had it; renaming to a free one loses nothing. */
  lemma {:induction false} RenameWeight<N>(t: Tree<N>, dir: seq<N>, old': N, new': N)
    requires RenameAt(t, dir, old', new').Some?
    ensures var u := RenameAt(t, dir, old', new').value;
      Weight(u) <= Weight(t) && (Weight(u) == Weight(t) <==> FreeAt(t, dir, old', new'))
    decreases |dir|
  {
    hide Total, Find, Replaces;
    var es := t.entries;
    if dir == [] {
      var i, j := Find(es, old'), Find(es, new');
      var renamed := es[i := (new', es[i].1)];
      TotalUpdate(es, i, (new', es[i].1));
      if i != j && j < |es| {
        TotalDrop(renamed, j);
      }
    } else {
      var i := Find(es, dir[0]);
      RenameWeight(es[i].1, dir[1..], old', new');
      TotalUpdate(es, i, (dir[0], RenameAt(es[i].1, dir[1..], old', new').value));
    }
  }

  // ---------------------------------------------------------------- what a move does

  /** The directory a path lies in exists. */
  predicate ParentThere<N(==)>(t: Tree<N>, path: seq<N>)
    requires path != []
  {
    match Lookup(t, path[..|path| - 1])
    case None => false
    case Some(d) => d.Dir?
  }

  /** A subtree can be placed exactly in an existing directory, under a free name, over a file or an empty directory. */
  lemma {:induction false} PutExact<N>(t: Tree<N>, path: seq<N>, x: Tree<N>)
    requires path != []
    ensures Put(t, path, x).Some? <==>
      ParentThere(t, path) &&
      match Lookup(t, path)
      case None => true
      case Some(y) => (x.File? && y.File?) || (x.Dir? && y == Dir([]))
    decreases |path|
  {
    if t.Dir? {
      var i := Find(t.entries, path[0]);
      if |path| == 1 {
        assert path[..0] == [] && path[1..] == [];
        if i < |t.entries| {
          assert Lookup(t, path) == Some(t.entries[i].1);
        }
      } else {
        assert path[..|path| - 1][0] == path[0] && path[..|path| - 1][1..] == path[1..][..|path| - 2];
        if i < |t.entries| {
          PutExact(t.entries[i].1, path[1..], x);
        }
      }
    }
  }

  lemma {:induction false} RemoveExact<N>(t: Tree<N>, path: seq<N>)
    requires path != []
    ensures Remove(t, path).Some? <==> Lookup(t, path).Some?
    decreases |path|
  {
    if t.Dir? {
      var i := Find(t.entries, path[0]);
      if i < |t.entries| {
        if |path| == 1 {
          assert path[1..] == [];
        } else {
          RemoveExact(t.entries[i].1, path[1..]);
        }
      }
    }
  }

  /** What was placed is found where it was placed. */
  lemma {:induction false} LookupPut<N>(t: Tree<N>, path: seq<N>, x: Tree<N>)
    requires path != [] && Put(t, path, x).Some?
    ensures Lookup(Put(t, path, x).value, path) == Some(x)
    decreases |path|
  {
    var es, i := t.entries, Find(t.entries, path[0]);
    if i == |es| {
      assert path[1..] == [];
      FindIs(es + [(path[0], x)], path[0], |es|);
    } else {
      if |path| > 1 {
        LookupPut(es[i].1, path[1..], x);
        FindUpdated(es, i, Put(es[i].1, path[1..], x).value, path[0]);
      } else {
        assert path[1..] == [];
        FindUpdated(es, i, x, path[0]);
      }
    }
  }

  /** A path that is not below the new place leads to something of the same kind, and to the same file. */
  lemma {:induction false} LookupPutOther<N>(t: Tree<N>, path: seq<N>, x: Tree<N>, p: seq<N>)
    requires path != [] && Put(t, path, x).Some? && !(path <= p) && Lookup(t, p).Some?
    ensures var r := Lookup(Put(t, path, x).value, p);
      r.Some? && r.value.File? == Lookup(t, p).value.File? && (r.value.File? ==> r == Lookup(t, p))
    decreases |path|
  {
    if p != [] {
      var es, i, j := t.entries, Find(t.entries, path[0]), Find(t.entries, p[0]);
      if i == |es| {
        FindIs(es + [(path[0], x)], p[0], j);
      } else {
        var s := if |path| == 1 then x else Put(es[i].1, path[1..], x).value;
        FindUpdated(es, i, s, p[0]);
        if i == j {
          assert path == [path[0]] + path[1..] && p == [path[0]] + p[1..];
          if |path| > 1 {
            LookupPutOther(es[i].1, path[1..], x, p[1..]);
          } else {
            assert false;
          }
        }
      }
    }
  }

  lemma {:induction false} LookupRemoved<N>(t: Tree<N>, path: seq<N>)
    requires path != [] && Proper(t) && Remove(t, path).Some?
    ensures Lookup(Remove(t, path).value, path) == None
    decreases |path|
  {
    var es, i := t.entries, Find(t.entries, path[0]);
    if |path| == 1 {
      var us := es[..i] + es[i + 1..];
      forall k | 0 <= k < |us| ensures us[k].0 != path[0] {
        assert us[k] == es[if k < i then k else k + 1];
      }
      assert Find(us, path[0]) == |us|;
    } else {
      LookupRemoved(es[i].1, path[1..]);
      FindUpdated(es, i, Remove(es[i].1, path[1..]).value, path[0]);
    }
  }

  /** Without one entry, every other name is found where it was, or one place earlier. */
  lemma FindDropped<N>(es: Entries<N>, i: nat, n: N)
    requires i < |es| && Find(es, n) < |es| && Find(es, n) != i
    ensures var us := es[..i] + es[i + 1..]; var k := Find(us, n);
      k < |us| && us[k] == es[Find(es, n)]
  {
    hide Find;
    var us, j := es[..i] + es[i + 1..], Find(es, n);
    var k := if j < i then j else j - 1;
    assert forall m :: 0 <= m < |us| ==> us[m] == es[if m < i then m else m + 1];
    FindIs(us, n, k);
  }

  lemma {:induction false} LookupRemoveOther<N>(t: Tree<N>, path: seq<N>, p: seq<N>)
    requires path != [] && Proper(t) && Remove(t, path).Some? && !(path <= p) && Lookup(t, p).Some?
    ensures var r := Lookup(Remove(t, path).value, p);
      && r.Some? && r.value.File? == Lookup(t, p).value.File? && (r.value.File? ==> r == Lookup(t, p))
      && (!(p <= path) ==> r == Lookup(t, p))
    decreases |path|
  {
    if p != [] {
      hide Find;
      var es, i, j := t.entries, Find(t.entries, path[0]), Find(t.entries, p[0]);
      assert path == [path[0]] + path[1..] && p == [p[0]] + p[1..];
      if |path| == 1 {
        assert i != j;
        FindDropped(es, i, p[0]);
      } else {
        FindUpdated(es, i, Remove(es[i].1, path[1..]).value, p[0]);
        if i == j {
          LookupRemoveOther(es[i].1, path[1..], p[1..]);
        }
      }
    }
  }

  /** When a move succeeds: the source is there, is not above the target, and the target can be taken. */
  ghost predicate CanMove<N>(t: Tree<N>, from: seq<N>, to: seq<N>)
    requires from != [] && to != []
  {
    match Lookup(t, from)
    case None => false
    case Some(x) =>
      from == to ||
      (!(from <= to) && ParentThere(t, to) &&
       match Lookup(t, to)
       case None => true
       case Some(y) => (x.File? && y.File?) || (x.Dir? && y == Dir([])))
  }

  /** Also when the subtree is exchanged for one of the same kind on the way. */
  lemma RemovePut<N>(t: Tree<N>, from: seq<N>, to: seq<N>, x: Tree<N>)
    requires from != [] && to != [] && !(from <= to) && Lookup(t, from).Some?
    requires Lookup(t, from).value.File? == x.File?
    ensures RemoveAfter(Put(t, to, x), from).Some? <==> CanMove(t, from, to)
  {
    hide Put, Lookup, Remove, ParentThere;
    PutExact(t, to, x);
    if Put(t, to, x).Some? {
      var u := Put(t, to, x).value;
      RemoveExact(u, from);
      if to <= from {
        AboveFull(t, to, from);
        assert false;
      }
      LookupPutOther(t, to, x, from);
    }
  }

  /** A directory with something below it is not empty. */
  lemma {:induction false} AboveFull<N>(t: Tree<N>, p: seq<N>, q: seq<N>)
    requires p <= q && p != q && Lookup(t, q).Some?
    ensures Lookup(t, p).Some? && Lookup(t, p).value.Dir? && Lookup(t, p).value.entries != []
    decreases |p|
  {
    if p != [] {
      AboveFull(t.entries[Find(t.entries, p[0])].1, p[1..], q[1..]);
    }
  }

  lemma MoveExact<N>(t: Tree<N>, from: seq<N>, to: seq<N>)
    requires from != [] && to != []
    ensures Move(t, from, to).Some? <==> CanMove(t, from, to)
  {
    hide Put, Lookup, Remove, ParentThere, CanMove;
    CanMoveNeeds(t, from, to);
    if Lookup(t, from).Some? && from != to && !(from <= to) {
      RemovePut(t, from, to, Lookup(t, from).value);
    }
  }

  /** To a free place in an existing directory anything can be moved, and a file also over a file. */
  lemma FreeTarget<N>(t: Tree<N>, from: seq<N>, to: seq<N>)
    requires from != [] && to != [] && !(from <= to) && Lookup(t, from).Some?
    requires Lookup(t, to[..|to| - 1]).Some? && Lookup(t, to[..|to| - 1]).value.Dir?
    requires Lookup(t, to).None? || (Lookup(t, to).value.File? && Lookup(t, from).value.File?)
    ensures Move(t, from, to).Some?
  {
    hide Put, Lookup, Remove;
    MoveExact(t, from, to);
  }

  lemma CanMoveNeeds<N>(t: Tree<N>, from: seq<N>, to: seq<N>)
    requires from != [] && to != []
    ensures CanMove(t, from, to) ==> Lookup(t, from).Some? && (from == to || !(from <= to))
    ensures Lookup(t, from).Some? && from == to ==> CanMove(t, from, to)
  {
  }

  /** After a move the subtree is at its new place, nothing is at the old one, and every other file is where it was. */
  lemma MoveResult<N>(t: Tree<N>, from: seq<N>, to: seq<N>, p: seq<N>)
    requires from != [] && to != [] && from != to && Proper(t) && Move(t, from, to).Some?
    ensures var u := Move(t, from, to).value;
      && Lookup(u, to) == Lookup(t, from) && Lookup(u, from) == None
      && (!(from <= p) && !(to <= p) && Lookup(t, p).Some? && Lookup(t, p).value.File? ==> Lookup(u, p) == Lookup(t, p))
  {
    hide Put, Lookup, Remove, Proper;
    var x := Lookup(t, from).value;
    var u := Put(t, to, x).value;
    ProperLookup(t, from);
    ProperPut(t, to, x);
    LookupPut(t, to, x);
    LookupRemoved(u, from);
    if to <= from {
      PutExact(t, to, x);
      AboveFull(t, to, from);
      assert false;
    }
    LookupRemoveOther(u, from, to);
    if !(from <= p) && !(to <= p) && Lookup(t, p).Some? && Lookup(t, p).value.File? {
      LookupPutOther(t, to, x, p);
      LookupRemoveOther(u, from, p);
    }
  }
}
