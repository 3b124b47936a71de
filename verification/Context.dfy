/** The table of open files and the idle monitor, as atomic steps on one state. */
module Contexts {
  import opened Bytes

  /** A file node keeps its handle for life. */
  datatype Node = Node(id: nat, fh: nat)

  datatype State = State(
    files: map<string, seq<Node>>,
    handles: map<nat, Node>,
    usage: nat,
    idle: int,
    unmounting: bool,
    root: Option<nat>,
    onDemand: bool)

  function Fresh(root: Option<nat>, onDemand: bool): State {
    State(map[], map[], 0, -1, false, root, onDemand)
  }

  predicate Listed(s: State, path: string, n: Node) {
    path in s.files && n in s.files[path]
  }

  /**
   * No list is empty; the handle map holds exactly the listed nodes, each under its own handle; a node
   * is listed under one path only.
   */
  ghost predicate Inv(s: State) {
    && (forall p :: p in s.files ==> s.files[p] != [])
    && (forall p, n :: Listed(s, p, n) ==> n.fh in s.handles && s.handles[n.fh] == n)
    && (forall h :: h in s.handles ==> s.handles[h].fh == h && exists p :: Listed(s, p, s.handles[h]))
    && (forall p, q, n :: Listed(s, p, n) && Listed(s, q, n) ==> p == q)
  }

  // ---------------------------------------------------------------- steps on the table

  function PutNode(s: State, path: string, n: Node): State {
    s.(files := s.files[path := [n] + (if path in s.files then s.files[path] else [])],
       handles := s.handles[n.fh := n])
  }

  /** The list without its first occurrence of a node. */
  function Without(l: seq<Node>, n: Node): (r: seq<Node>)
    ensures n in l ==> multiset(r) == multiset(l) - multiset{n}
    ensures n !in l ==> r == l
  {
    if l == [] then []
    else
      assert l == [l[0]] + l[1..];
      if l[0] == n then l[1..] else [l[0]] + Without(l[1..], n)
  }

  /** Nothing when the path is not open or the node is not listed there. */
  function EraseNode(s: State, path: string, n: Node): Option<State> {
    if !Listed(s, path, n) then None
    else
      var rest := Without(s.files[path], n);
      Some(s.(files := if rest == [] then s.files - {path} else s.files[path := rest],
              handles := if n in rest then s.handles else s.handles - {n.fh}))
  }

  function RenameNode(s: State, from: string, to: string): State {
    if from in s.files then s.(files := (s.files - {from})[to := s.files[from]]) else s
  }

  /** A check of the idle monitor: the new state and whether the filesystem is gone. */
  function Check(s: State, timeoutCycles: int): (State, bool) {
    if s.root.None? then (s, false)
    else
      var t := s.(idle := if s.usage == 0 then s.idle + 1 else 0, usage := 0);
      if t.idle < timeoutCycles || t.files != map[] then (t, false)
      else if s.onDemand then (t.(root := None), false)
      else (t.(unmounting := true), true)
  }

  /** Access to the root; a detached filesystem is mounted again first, if `remount` yields a root. */
  function GetRoot(s: State, skipUsageCount: bool, remount: Option<nat>): (State, Option<nat>) {
    var counted := s.(usage := s.usage + if skipUsageCount then 0 else 1);
    if s.unmounting then (s, None)
    else if s.root.Some? then (counted, s.root)
    else if remount.None? then (counted, None)
    else (counted.(root := remount, usage := counted.usage + if skipUsageCount then 0 else 1), remount)
  }

  // ---------------------------------------------------------------- exactly when a step keeps the table sound

  /** The node is already open under this path, or its handle is not in use. */
  predicate MayPut(s: State, path: string, n: Node) {
    Listed(s, path, n) || n.fh !in s.handles
  }

  lemma PutKeeps(s: State, path: string, n: Node)
    requires Inv(s)
    ensures Inv(PutNode(s, path, n)) <==> MayPut(s, path, n)
  {
    hide Inv;
    if MayPut(s, path, n) {
      PutSound(s, path, n);
    } else {
      PutBreaks(s, path, n);
    }
  }

  lemma PutSound(s: State, path: string, n: Node)
    requires Inv(s) && MayPut(s, path, n)
    ensures Inv(PutNode(s, path, n))
  {
    hide Listed;
    var t := PutNode(s, path, n);
    PutListed(s, path, n);
    forall h | h in t.handles ensures t.handles[h].fh == h && exists p :: Listed(t, p, t.handles[h]) {
      if h != n.fh {
        var p :| Listed(s, p, s.handles[h]);
        assert Listed(t, p, t.handles[h]);
      } else {
        assert Listed(t, path, t.handles[h]);
      }
    }
  }

  lemma PutBreaks(s: State, path: string, n: Node)
    requires Inv(s) && !MayPut(s, path, n)
    ensures !Inv(PutNode(s, path, n))
  {
    var t := PutNode(s, path, n);
    PutListed(s, path, n);
    assert Listed(t, path, n);
    var m := s.handles[n.fh];
    var q :| Listed(s, q, m);
    assert Listed(t, q, m);
    assert m == n ==> q != path;
  }

  lemma PutListed(s: State, path: string, n: Node)
    ensures forall p, m :: Listed(PutNode(s, path, n), p, m) <==> Listed(s, p, m) || (p == path && m == n)
  {
  }

  lemma EraseListed(s: State, path: string, n: Node)
    requires Listed(s, path, n) && Inv(s)
    ensures var t := EraseNode(s, path, n).value;
      forall p, m :: Listed(t, p, m) <==>
        Listed(s, p, m) && ((p == path && m == n) ==> n in Without(s.files[path], n))
  {
    var l := s.files[path];
    var rest := Without(l, n);
    var t := EraseNode(s, path, n).value;
    forall m | m != n ensures m in rest <==> m in l {
      assert multiset(rest)[m] == multiset(l)[m];
    }
    assert rest == [] ==> forall m :: m !in rest;
  }

  lemma EraseKeeps(s: State, path: string, n: Node)
    requires Inv(s) && EraseNode(s, path, n).Some?
    ensures Inv(EraseNode(s, path, n).value)
  {
    var t := EraseNode(s, path, n).value;
    EraseListed(s, path, n);
    forall h | h in t.handles ensures t.handles[h].fh == h && exists p :: Listed(t, p, t.handles[h]) {
      var p :| Listed(s, p, s.handles[h]);
      assert Listed(t, p, t.handles[h]);
    }
  }

  /** Another open file already has the new path. */
  predicate Overwrites(s: State, from: string, to: string) {
    from != to && from in s.files && to in s.files
  }

  lemma RenameListed(s: State, from: string, to: string)
    requires from in s.files
    ensures var t := RenameNode(s, from, to);
      forall p, m :: Listed(t, p, m) <==> if p == to then Listed(s, from, m) else p != from && Listed(s, p, m)
  {
  }

  /** Renaming keeps the table sound exactly when it does not overwrite an open file. */
  lemma RenameKeeps(s: State, from: string, to: string)
    requires Inv(s)
    ensures Inv(RenameNode(s, from, to)) <==> !Overwrites(s, from, to)
  {
    if from in s.files {
      var t := RenameNode(s, from, to);
      RenameListed(s, from, to);
      if Overwrites(s, from, to) {
        var n := s.files[to][0];
        assert Listed(s, to, n);
        assert s.handles[n.fh] == n && t.handles == s.handles;
        forall p ensures !Listed(t, p, n) {
        }
      } else {
        forall h | h in t.handles ensures t.handles[h].fh == h && exists p :: Listed(t, p, t.handles[h]) {
          var p :| Listed(s, p, s.handles[h]);
          assert Listed(t, if p == from then to else p, t.handles[h]);
        }
      }
    }
  }

  /** Two open files, one renamed onto the other: the second keeps its handle but is listed nowhere. */
  lemma OverwriteExample()
    ensures var s := PutNode(PutNode(Fresh(None, false), "a", Node(0, 1)), "b", Node(1, 2));
      var t := RenameNode(s, "a", "b");
      Inv(s) && !Inv(t) && t.handles[2] == Node(1, 2) && forall p :: !Listed(t, p, Node(1, 2))
  {
    hide Inv;
    EmptyTable(Fresh(None, false), Node(0, 1));
    var u := PutNode(Fresh(None, false), "a", Node(0, 1));
    PutKeeps(Fresh(None, false), "a", Node(0, 1));
    PutKeeps(u, "b", Node(1, 2));
    var s := PutNode(u, "b", Node(1, 2));
    assert "a" in s.files && "b" in s.files && "a" != "b";
    RenameKeeps(s, "a", "b");
    RenameListed(s, "a", "b");
  }

  // ---------------------------------------------------------------- runs

  datatype Event =
    | Put(path: string, node: Node)
    | Erase(path: string, node: Node)
    | Rename(from: string, to: string)
    | Root(skipUsageCount: bool, remount: Option<nat>)
    | Idle(timeoutCycles: int)

  function Step(s: State, e: Event): State {
    match e
    case Put(p, n) => PutNode(s, p, n)
    case Erase(p, n) => (match EraseNode(s, p, n) case None => s case Some(t) => t)
    case Rename(f, t) => RenameNode(s, f, t)
    case Root(skip, r) => GetRoot(s, skip, r).0
    case Idle(c) => Check(s, c).0
  }

  /** What the callers keep to. */
  predicate Allowed(s: State, e: Event) {
    match e
    case Put(p, n) => MayPut(s, p, n)
    case Rename(f, t) => !Overwrites(s, f, t)
    case _ => true
  }

  /** A step is allowed exactly when it keeps the table sound. */
  lemma AllowedExactly(s: State, e: Event)
    requires Inv(s)
    ensures Allowed(s, e) <==> Inv(Step(s, e))
  {
    hide Inv;
    match e
    case Put(p, n) => PutKeeps(s, p, n);
    case Erase(p, n) =>
      if EraseNode(s, p, n).Some? {
        EraseKeeps(s, p, n);
      }
    case Rename(f, t) => RenameKeeps(s, f, t);
    case Root(skip, r) => SameTable(s, Step(s, e), Node(0, 0));
    case Idle(c) => SameTable(s, Step(s, e), Node(0, 0));
  }

  function Run(s: State, es: seq<Event>): State
    decreases |es|
  {
    if es == [] then s else Step(Run(s, es[..|es| - 1]), es[|es| - 1])
  }

  predicate AllowedRun(s: State, es: seq<Event>)
    decreases |es|
  {
    es != [] ==>
      AllowedRun(s, es[..|es| - 1]) && Allowed(Run(s, es[..|es| - 1]), es[|es| - 1])
  }

  lemma AllowedMore(s: State, es: seq<Event>, e: Event)
    ensures AllowedRun(s, []) && (AllowedRun(s, es + [e]) <==> AllowedRun(s, es) && Allowed(Run(s, es), e))
    ensures Run(s, es + [e]) == Step(Run(s, es), e)
  {
    var all := es + [e];
    assert all[..|all| - 1] == es;
  }

  /** How often a node is listed. */
  ghost function Copies(s: State, n: Node): nat {
    if exists p :: Listed(s, p, n) then
      var p :| Listed(s, p, n);
      multiset(s.files[p])[n]
    else 0
  }

  lemma CopiesAt(s: State, path: string, n: Node)
    requires Inv(s) && Listed(s, path, n)
    ensures Copies(s, n) == multiset(s.files[path])[n]
  {
  }

  lemma CopiesNone(s: State, n: Node)
    requires forall p :: !Listed(s, p, n)
    ensures Copies(s, n) == 0
  {
  }

  function Opens(s: State, es: seq<Event>, n: Node): nat
    decreases |es|
  {
    if es == [] then 0
    else Opens(s, es[..|es| - 1], n) + if es[|es| - 1].Put? && es[|es| - 1].node == n then 1 else 0
  }

  /** Releases that were carried out. */
  function Releases(s: State, es: seq<Event>, n: Node): nat
    decreases |es|
  {
    if es == [] then 0
    else
      var e := es[|es| - 1];
      Releases(s, es[..|es| - 1], n)
      + if e.Erase? && e.node == n && EraseNode(Run(s, es[..|es| - 1]), e.path, n).Some? then 1 else 0
  }

  function Delta(s: State, e: Event, n: Node): int {
    if e.Put? && e.node == n then 1
    else if e.Erase? && e.node == n && EraseNode(s, e.path, n).Some? then -1
    else 0
  }

  /** One allowed step keeps the invariant and changes a node's count by what the step says. */
  lemma StepKeeps(s: State, e: Event, n: Node)
    requires Inv(s) && Allowed(s, e)
    ensures Inv(Step(s, e)) && Copies(Step(s, e), n) == Copies(s, n) + Delta(s, e, n)
  {
    hide Copies, Inv;
    match e
    case Put(p, m) => PutKeeps(s, p, m); PutCopies(s, p, m, n);
    case Erase(p, m) =>
      if EraseNode(s, p, m).Some? {
        EraseKeeps(s, p, m);
        EraseCopies(s, p, m, n);
      }
    case Rename(f, t) => RenameKeeps(s, f, t); RenameCopies(s, f, t, n);
    case Root(skip, r) => SameTable(s, Step(s, e), n);
    case Idle(c) => SameTable(s, Step(s, e), n);
  }

  lemma SameTable(s: State, t: State, n: Node)
    requires Inv(s) && t.files == s.files && t.handles == s.handles
    ensures Inv(t) && Copies(t, n) == Copies(s, n)
  {
    assert forall p, m :: Listed(t, p, m) == Listed(s, p, m);
    if p :| Listed(s, p, n) {
      CopiesAt(s, p, n);
      CopiesAt(t, p, n);
    } else {
      CopiesNone(s, n);
      CopiesNone(t, n);
    }
  }

  lemma PutCopies(s: State, path: string, m: Node, n: Node)
    requires Inv(s) && MayPut(s, path, m)
    ensures Copies(PutNode(s, path, m), n) == Copies(s, n) + if m == n then 1 else 0
  {
    var t := PutNode(s, path, m);
    PutKeeps(s, path, m);
    PutListed(s, path, m);
    if p :| Listed(s, p, n) {
      CopiesAt(s, p, n);
      CopiesAt(t, p, n);
      assert n == m ==> p == path;
    } else {
      CopiesNone(s, n);
      if n == m {
        assert Listed(t, path, n);
        CopiesAt(t, path, n);
        assert !Listed(s, path, n);
        assert t.files[path] == [n] + (if path in s.files then s.files[path] else []);
      } else {
        CopiesNone(t, n);
      }
    }
  }

  lemma EraseCopies(s: State, path: string, m: Node, n: Node)
    requires Inv(s) && EraseNode(s, path, m).Some?
    ensures Copies(EraseNode(s, path, m).value, n) == Copies(s, n) - if m == n then 1 else 0
  {
    hide Without;
    var t := EraseNode(s, path, m).value;
    EraseKeeps(s, path, m);
    EraseListed(s, path, m);
    if p :| Listed(s, p, n) {
      CopiesAt(s, p, n);
      if Listed(t, p, n) {
        CopiesAt(t, p, n);
      } else {
        assert multiset(Without(s.files[path], m))[n] == 0;
        CopiesNone(t, n);
      }
    } else {
      CopiesNone(s, n);
      CopiesNone(t, n);
    }
  }

  lemma RenameCopies(s: State, from: string, to: string, n: Node)
    requires Inv(s) && !Overwrites(s, from, to)
    ensures Copies(RenameNode(s, from, to), n) == Copies(s, n)
  {
    var t := RenameNode(s, from, to);
    RenameKeeps(s, from, to);
    if from in s.files {
      RenameListed(s, from, to);
      if p :| Listed(s, p, n) {
        CopiesAt(s, p, n);
        CopiesAt(t, if p == from then to else p, n);
      } else {
        CopiesNone(s, n);
        CopiesNone(t, n);
      }
    }
  }

  /** Over every allowed run the table is sound, and a node is listed as often as it was opened and not released. */
  lemma {:induction false} TableOverRuns(root: Option<nat>, onDemand: bool, es: seq<Event>, n: Node)
    requires AllowedRun(Fresh(root, onDemand), es)
    ensures var s := Fresh(root, onDemand);
      Inv(Run(s, es)) && Copies(Run(s, es), n) == Opens(s, es, n) - Releases(s, es, n)
    decreases |es|
  {
    hide Copies, Inv;
    var s := Fresh(root, onDemand);
    if es == [] {
      EmptyTable(s, n);
    } else {
      TableOverRuns(root, onDemand, es[..|es| - 1], n);
      StepKeeps(Run(s, es[..|es| - 1]), es[|es| - 1], n);
    }
  }

  lemma EmptyTable(s: State, n: Node)
    requires s.files == map[] && s.handles == map[]
    ensures Inv(s) && Copies(s, n) == 0
  {
  }

  // ---------------------------------------------------------------- unmounting

  /** How many checks in a row, up to now, found that nobody had used the filesystem. */
  function Quiet(s: State, es: seq<Event>): nat
    decreases |es|
  {
    if es == [] then 0
    else
      var (before, e) := (Run(s, es[..|es| - 1]), es[|es| - 1]);
      if !e.Idle? || before.root.None? then Quiet(s, es[..|es| - 1])
      else if before.usage == 0 then Quiet(s, es[..|es| - 1]) + 1
      else 0
  }

  lemma {:induction false} IdleIsQuiet(root: Option<nat>, onDemand: bool, es: seq<Event>)
    ensures var s := Fresh(root, onDemand); var t := Run(s, es);
      t.idle <= Quiet(s, es) <= t.idle + 1 && t.onDemand == onDemand
    decreases |es|
  {
    if es != [] {
      hide Step;
      IdleIsQuiet(root, onDemand, es[..|es| - 1]);
      StepIdle(Run(Fresh(root, onDemand), es[..|es| - 1]), es[|es| - 1]);
    }
  }

  lemma StepIdle(s: State, e: Event)
    ensures Step(s, e).onDemand == s.onDemand
    ensures Step(s, e).idle == if !e.Idle? || s.root.None? then s.idle else if s.usage == 0 then s.idle + 1 else 0
  {
  }

  /** The check at position `k` found the table empty after enough quiet checks. */
  ghost predicate UnmountsAt(s: State, es: seq<Event>, k: nat) {
    && k < |es| && es[k].Idle?
    && Run(s, es[..k]).files == map[]
    && Quiet(s, es[..k + 1]) >= es[k].timeoutCycles
  }

  /** Unmounting is announced only by a check that found no open file after enough quiet checks. */
  lemma {:induction false} UnmountOnlyIdle(root: Option<nat>, onDemand: bool, es: seq<Event>)
    requires Run(Fresh(root, onDemand), es).unmounting
    ensures !onDemand && exists k: nat :: UnmountsAt(Fresh(root, onDemand), es, k)
    decreases |es|
  {
    var s := Fresh(root, onDemand);
    if es != [] {
      var init := es[..|es| - 1];
      IdleIsQuiet(root, onDemand, init);
      if Run(s, init).unmounting {
        UnmountOnlyIdle(root, onDemand, init);
        var k: nat :| UnmountsAt(s, init, k);
        assert init[..k] == es[..k] && init[..k + 1] == es[..k + 1];
        assert UnmountsAt(s, es, k);
      } else {
        IdleIsQuiet(root, onDemand, es);
        assert es[..|es|] == es;
        assert UnmountsAt(s, es, |es| - 1);
      }
    }
  }

  /** A check that finds the filesystem mounted, unused for longer than the timeout and without open files ends it. */
  lemma UnmountWhenDue(root: Option<nat>, es: seq<Event>, timeoutCycles: nat)
    requires var s := Fresh(root, false);
      && Run(s, es).root.Some? && Run(s, es).files == map[]
      && Quiet(s, es + [Idle(timeoutCycles)]) > timeoutCycles
    ensures Run(Fresh(root, false), es + [Idle(timeoutCycles)]).unmounting
  {
    var all := es + [Idle(timeoutCycles)];
    assert all[..|all| - 1] == es;
    IdleIsQuiet(root, false, es);
    IdleIsQuiet(root, false, all);
  }

  /** Some check found that the filesystem had been used. */
  predicate EverUsed(s: State, es: seq<Event>)
    decreases |es|
  {
    es != [] &&
    var (before, e) := (Run(s, es[..|es| - 1]), es[|es| - 1]);
    (e.Idle? && before.root.Some? && before.usage != 0) || EverUsed(s, es[..|es| - 1])
  }

  /** The idle counter is the number of quiet checks in a row, less one until the first check that was not quiet. */
  lemma {:induction false} IdleExact(root: Option<nat>, onDemand: bool, es: seq<Event>)
    ensures var s := Fresh(root, onDemand);
      Run(s, es).idle == if EverUsed(s, es) then Quiet(s, es) else Quiet(s, es) - 1
    decreases |es|
  {
    if es != [] {
      hide Step;
      IdleExact(root, onDemand, es[..|es| - 1]);
      StepIdle(Run(Fresh(root, onDemand), es[..|es| - 1]), es[|es| - 1]);
    }
  }

  /** The root is dropped only on demand, by a check that found no open file after enough quiet checks. */
  lemma RootDropsOnlyIdle(root: Option<nat>, onDemand: bool, es: seq<Event>, e: Event)
    requires var s := Fresh(root, onDemand); Run(s, es).root.Some? && Run(s, es + [e]).root.None?
    ensures var s := Fresh(root, onDemand);
      onDemand && e.Idle? && Run(s, es).files == map[] && Quiet(s, es + [e]) >= e.timeoutCycles
  {
    var all := es + [e];
    assert all[..|all| - 1] == es;
    IdleIsQuiet(root, onDemand, es);
    IdleIsQuiet(root, onDemand, all);
    DropsOnly(Run(Fresh(root, onDemand), es), e);
  }

  lemma DropsOnly(s: State, e: Event)
    requires s.root.Some? && Step(s, e).root.None?
    ensures s.onDemand && e.Idle? && s.files == map[] && Step(s, e).idle >= e.timeoutCycles
  {
  }

  /** On demand, a check after more quiet checks than the timeout drops the root, unless a file is open. */
  lemma RootDropsWhenDue(root: Option<nat>, es: seq<Event>, timeoutCycles: nat)
    requires var s := Fresh(root, true);
      && Run(s, es).root.Some? && Run(s, es).files == map[]
      && Quiet(s, es + [Idle(timeoutCycles)]) > timeoutCycles
    ensures var t := Run(Fresh(root, true), es + [Idle(timeoutCycles)]); t.root.None? && !t.unmounting
  {
    var all := es + [Idle(timeoutCycles)];
    assert all[..|all| - 1] == es;
    IdleIsQuiet(root, true, es);
    IdleIsQuiet(root, true, all);
    NeverAnnounced(root, es);
  }

  lemma {:induction false} NeverAnnounced(root: Option<nat>, es: seq<Event>)
    ensures !Run(Fresh(root, true), es).unmounting
  {
    if Run(Fresh(root, true), es).unmounting {
      UnmountOnlyIdle(root, true, es);
    }
  }

  /** Until unmounting is announced everybody gets the root, remounted if it has been dropped. */
  lemma RootServed(s: State, skip: bool, remount: Option<nat>)
    requires !s.unmounting
    ensures var (t, r) := GetRoot(s, skip, remount);
      && r == (if s.root.Some? then s.root else remount) && t.root == r
      && t.files == s.files && t.handles == s.handles && t.idle == s.idle && !t.unmounting
      && (skip ==> t.usage == s.usage) && (!skip ==> t.usage > s.usage)
  {
  }

  /** Nobody asked for the root, in a way that counts, since the last check of the mounted filesystem. */
  predicate Unused(s: State, es: seq<Event>)
    decreases |es|
  {
    es == [] ||
    var (before, e) := (Run(s, es[..|es| - 1]), es[|es| - 1]);
    if e.Idle? && before.root.Some? then true
    else !(e.Root? && !e.skipUsageCount && !before.unmounting) && Unused(s, es[..|es| - 1])
  }

  lemma StepUsage(s: State, e: Event)
    ensures Step(s, e).usage == 0 <==>
      (e.Idle? && s.root.Some?) || (!(e.Root? && !e.skipUsageCount && !s.unmounting) && s.usage == 0)
  {
  }

  /** A quiet check is one before which nobody used the filesystem. */
  lemma {:induction false} UsageIsUnused(root: Option<nat>, onDemand: bool, es: seq<Event>)
    ensures var s := Fresh(root, onDemand); Run(s, es).usage == 0 <==> Unused(s, es)
    decreases |es|
  {
    if es != [] {
      hide Step;
      UsageIsUnused(root, onDemand, es[..|es| - 1]);
      StepUsage(Run(Fresh(root, onDemand), es[..|es| - 1]), es[|es| - 1]);
    }
  }

  /** Once unmounting is announced it stays announced, and nobody gets the root any more. */
  lemma {:induction false} NoRootAfterwards(s: State, es: seq<Event>, skip: bool, remount: Option<nat>)
    requires s.unmounting
    ensures Run(s, es).unmounting && GetRoot(Run(s, es), skip, remount).1 == None
    decreases |es|
  {
    if es != [] {
      NoRootAfterwards(s, es[..|es| - 1], skip, remount);
    }
  }

  // ---------------------------------------------------------------- the object

  class Context {
    var openFiles: map<string, seq<Node>>
    var fuseFhMap: map<nat, Node>
    var usageCount: nat
    var idleCount: int
    var isUnmounting: bool
    var root: Option<nat>
    var mountOnDemand: bool
    var currentFuseFh: Word64
    /** Whether the handle counter has started over. */
    ghost var wrapped: bool

    function Now(): State
      reads this
    {
      State(openFiles, fuseFhMap, usageCount, idleCount, isUnmounting, root, mountOnDemand)
    }

    /** The table is sound, and until the counter wraps no handle in use will be given out again. */
    ghost predicate Valid()
      reads this
    {
      Inv(Now()) && (wrapped || forall h :: h in fuseFhMap ==> h < currentFuseFh)
    }

    constructor (root: Option<nat>, mountOnDemand: bool)
      ensures Valid() && Now() == Fresh(root, mountOnDemand) && !wrapped
    {
      openFiles, fuseFhMap := map[], map[];
      usageCount, idleCount, isUnmounting := 0, -1, false;
      this.root, this.mountOnDemand := root, mountOnDemand;
      currentFuseFh, wrapped := 1, false;
    }

    /** The 64-bit counter starts over after its last value; until then every handle is unused. */
    method NextFuseFh() returns (fh: Word64)
      requires Valid()
      modifies this`currentFuseFh, this`wrapped
      ensures Valid() && fh == old(currentFuseFh) && (old(wrapped) ==> wrapped)
      ensures !old(wrapped) ==> fh !in fuseFhMap && (wrapped || fh < currentFuseFh)
    {
      fh := currentFuseFh;
      if currentFuseFh == TWO_64 - 1 {
        currentFuseFh, wrapped := 0, true;
      } else {
        currentFuseFh := currentFuseFh + 1;
      }
    }

    method LookupNode(path: string) returns (n: Option<Node>)
      requires Valid()
      ensures n.Some? <==> path in openFiles
      ensures n.Some? ==> Listed(Now(), path, n.value)
    {
      if path in openFiles {
        n := Some(openFiles[path][0]);
      } else {
        n := None;
      }
    }

    /** A handle leads to the one node that carries it, as long as that node is open. */
    method LookupFuseFh(fh: nat) returns (n: Option<Node>)
      requires Valid()
      ensures n.Some? <==> exists p, m :: Listed(Now(), p, m) && m.fh == fh
      ensures n.Some? ==> n.value.fh == fh && exists p :: Listed(Now(), p, n.value)
    {
      if fh in fuseFhMap {
        n := Some(fuseFhMap[fh]);
        assert Now().handles[fh] == n.value;
      } else {
        n := None;
      }
    }

    method Put(path: string, node: Node)
      requires Valid() && (wrapped || node.fh < currentFuseFh)
      modifies this
      ensures Now() == PutNode(old(Now()), path, node) && currentFuseFh == old(currentFuseFh) && wrapped == old(wrapped)
      ensures Valid() <==> MayPut(old(Now()), path, node)
    {
      hide Inv;
      PutKeeps(Now(), path, node);
      var list := if path in openFiles then openFiles[path] else [];
      openFiles := openFiles[path := [node] + list];
      fuseFhMap := fuseFhMap[node.fh := node];
    }

    /**
     * Opening a path: the node already open there, or a new one with the next handle. The table stays
     * sound unless the counter has wrapped round to a handle that is still in use.
     */
    method Open(path: string, id: nat) returns (fh: nat)
      requires Valid()
      modifies this
      ensures fh in fuseFhMap && Now() == PutNode(old(Now()), path, fuseFhMap[fh])
      ensures path in old(openFiles) ==> fuseFhMap[fh] in old(openFiles)[path]
      ensures path !in old(openFiles) ==> fuseFhMap[fh] == Node(id, old(currentFuseFh))
      ensures !old(wrapped) ==> Valid()
      ensures Valid() <==> path in old(openFiles) || MayPut(old(Now()), path, Node(id, old(currentFuseFh)))
    {
      var found := LookupNode(path);
      var node;
      match found {
        case Some(n) => node := n;
        case None =>
          var h := NextFuseFh();
          node := Node(id, h);
      }
      Put(path, node);
      fh := node.fh;
    }

    /** False when an assertion on the arguments fails; nothing changes then. */
    method Erase(path: string, node: Node) returns (ok: bool)
      requires Valid()
      modifies this
      ensures Valid() && ok == EraseNode(old(Now()), path, node).Some?
      ensures currentFuseFh == old(currentFuseFh) && wrapped == old(wrapped)
      ensures Now() == if ok then EraseNode(old(Now()), path, node).value else old(Now())
    {
      hide Inv;
      if path !in openFiles || node !in openFiles[path] {
        return false;
      }
      EraseKeeps(Now(), path, node);
      var list := Without(openFiles[path], node);
      openFiles := openFiles[path := list];
      if node !in list {
        fuseFhMap := fuseFhMap - {node.fh};
      }
      if list == [] {
        openFiles := openFiles - {path};
        assert openFiles == old(openFiles) - {path};
      }
      ok := true;
    }

    /** The table stays sound exactly when no other open file has the new path. */
    method RenamePath(from: string, to: string)
      requires Valid()
      modifies this
      ensures Now() == RenameNode(old(Now()), from, to)
      ensures Valid() <==> !Overwrites(old(Now()), from, to)
    {
      RenameKeeps(Now(), from, to);
      if from in openFiles {
        var val := openFiles[from];
        openFiles := openFiles - {from};
        openFiles := openFiles[to := val];
      }
    }

    method Acquire(skipUsageCount: bool, remount: Option<nat>) returns (r: Option<nat>)
      requires Valid()
      modifies this
      ensures Valid() && (Now(), r) == GetRoot(old(Now()), skipUsageCount, remount)
    {
      r := None;
      var rounds := 0;
      while r.None?
        invariant rounds <= 1 && openFiles == old(openFiles) && fuseFhMap == old(fuseFhMap)
        invariant currentFuseFh == old(currentFuseFh) && wrapped == old(wrapped) && mountOnDemand == old(mountOnDemand)
        invariant isUnmounting == old(isUnmounting) && idleCount == old(idleCount)
        invariant rounds == 0 && r.None? ==> Now() == old(Now())
        invariant r.None? && rounds == 1 ==>
          && !isUnmounting && old(root).None? && remount.Some? && root == remount
          && usageCount == old(usageCount) + if skipUsageCount then 0 else 1
        invariant r.Some? ==> (Now(), r) == GetRoot(old(Now()), skipUsageCount, remount)
        decreases r.None?, 1 - rounds
      {
        if isUnmounting {
          break;
        }
        r := root;
        if !skipUsageCount {
          usageCount := usageCount + 1;
        }
        if r.None? {
          if remount.None? {
            break;
          }
          root := remount;
          rounds := rounds + 1;
        }
      }
      SameTableKeeps(old(Now()), Now());
    }

    /** Called periodically by the idle monitor. */
    method UsageAndUnmount(timeoutCycles: int) returns (gone: bool)
      requires Valid() && timeoutCycles > 0
      modifies this
      ensures Valid() && (Now(), gone) == Check(old(Now()), timeoutCycles)
    {
      gone := false;
      if root.Some? {
        if usageCount == 0 {
          idleCount := idleCount + 1;
        } else {
          idleCount := 0;
        }
        usageCount := 0;
        if idleCount >= timeoutCycles && openFiles == map[] {
          if mountOnDemand {
            root := None;
          } else {
            isUnmounting := true;
            gone := true;
          }
        }
      }
      SameTableKeeps(old(Now()), Now());
    }
  }

  lemma SameTableKeeps(s: State, t: State)
    requires Inv(s) && t.files == s.files && t.handles == s.handles
    ensures Inv(t)
  {
    SameTable(s, t, Node(0, 0));
  }
}
