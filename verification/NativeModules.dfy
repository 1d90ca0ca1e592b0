/**
 Copying packages with their runtime dependencies (scripts/copy-native-modules.ts:53-116).

 Directories are paths of segments. `tree` is the dependency tree on disk, which the copying
 does not write to: each existing package directory with the names its manifest lists, or
 `None` when there is no readable manifest.
 */
module NativeModules {
  import opened Results

  type Path = seq<string>
  type Name = seq<string>           // one segment, or scope and package

  datatype Package = Package(manifest: Option<seq<Name>>)
  type Tree = map<Path, Package>

  // One copy: a source directory and where it goes.
  datatype Copy = Copy(source: Path, target: Path)

  const NODE_MODULES := ["node_modules"]
  const SRC: Path := NODE_MODULES
  const DEST: Path := ["server-dist", "node_modules"]
  const HELPER: Path := ["cua-helper-dist", "node_modules"]

  /** Source and target are the same path below their roots. */
  ghost predicate Mirrors(source: Path, target: Path) {
    exists rel: Path :: source == SRC + rel && (target == DEST + rel || target == HELPER + rel)
  }

  /** The target alone determines the source, so it is a sound key for what has been copied. */
  lemma TargetDeterminesSource(s1: Path, s2: Path, target: Path)
    requires Mirrors(s1, target) && Mirrors(s2, target)
    ensures s1 == s2
  {
    var r1: Path :| s1 == SRC + r1 && (target == DEST + r1 || target == HELPER + r1);
    var r2: Path :| s2 == SRC + r2 && (target == DEST + r2 || target == HELPER + r2);
    assert target[0] == if target == DEST + r1 then "server-dist" else "cua-helper-dist";
    assert target[0] == if target == DEST + r2 then "server-dist" else "cua-helper-dist";
    assert r1 == target[2..] == r2;
  }

  /** The copy a dependency leads to: the package's own nested one, else the hoisted one into server-dist. */
  function Dependency(tree: Tree, c: Copy, name: Name): Option<Copy> {
    if c.source + NODE_MODULES + name in tree
    then Some(Copy(c.source + NODE_MODULES + name, c.target + NODE_MODULES + name))
    else if SRC + name in tree then Some(Copy(SRC + name, DEST + name))
    else None
  }

  ghost predicate DependsOn(tree: Tree, c: Copy, d: Copy) {
    c.source in tree && tree[c.source].manifest.Some?
    && exists name | name in tree[c.source].manifest.value :: Dependency(tree, c, name) == Some(d)
  }

  ghost predicate Chain(tree: Tree, trace: seq<Copy>) {
    forall i | 0 <= i < |trace| - 1 :: DependsOn(tree, trace[i], trace[i + 1])
  }

  /** `d` is `c` or among the dependencies of its dependencies. */
  ghost predicate Reaches(tree: Tree, c: Copy, d: Copy) {
    exists trace :: |trace| > 0 && trace[0] == c && trace[|trace| - 1] == d && Chain(tree, trace)
  }

  ghost predicate Closed(tree: Tree, copies: set<Copy>) {
    forall c, d | c in copies && DependsOn(tree, c, d) :: d in copies
  }

  lemma ReachesItself(tree: Tree, c: Copy)
    ensures Reaches(tree, c, c)
  {
    assert Chain(tree, [c]);
  }

  lemma ReachesThrough(tree: Tree, c: Copy, d: Copy, e: Copy)
    requires DependsOn(tree, c, d) && Reaches(tree, d, e)
    ensures Reaches(tree, c, e)
  {
    var trace :| |trace| > 0 && trace[0] == d && trace[|trace| - 1] == e && Chain(tree, trace);
    var longer := [c] + trace;
    forall i | 0 <= i < |longer| - 1
      ensures DependsOn(tree, longer[i], longer[i + 1])
    {
      if i > 0 { assert DependsOn(tree, trace[i - 1], trace[i]); }
    }
    assert Chain(tree, longer);
  }

  /** A closed set holds everything its members reach. */
  lemma ClosedHoldsReached(tree: Tree, copies: set<Copy>, c: Copy, d: Copy)
    requires Closed(tree, copies) && c in copies && Reaches(tree, c, d)
    ensures d in copies
  {
    var trace :| |trace| > 0 && trace[0] == c && trace[|trace| - 1] == d && Chain(tree, trace);
    var i := 0;
    while i < |trace| - 1
      invariant 0 <= i < |trace| && trace[i] in copies
    {
      assert DependsOn(tree, trace[i], trace[i + 1]);
      i := i + 1;
    }
  }

  /** The directories a copy can go to. */
  ghost function Targets(tree: Tree): set<Path> {
    (set p | p in tree && |p| > 0 :: DEST + p[1..]) + (set p | p in tree && |p| > 0 :: HELPER + p[1..])
  }

  lemma TargetKnown(tree: Tree, c: Copy)
    requires Mirrors(c.source, c.target) && c.source in tree
    ensures c.target in Targets(tree)
  {
    var rel: Path :| c.source == SRC + rel && (c.target == DEST + rel || c.target == HELPER + rel);
    assert c.source[1..] == rel;
  }

  lemma DependencyMirrors(tree: Tree, c: Copy, name: Name)
    requires Mirrors(c.source, c.target) && Dependency(tree, c, name).Some?
    ensures var d := Dependency(tree, c, name).value;
            Mirrors(d.source, d.target) && d.source in tree
  {
    var rel: Path :| c.source == SRC + rel && (c.target == DEST + rel || c.target == HELPER + rel);
    var below := rel + NODE_MODULES + name;
    assert c.source + NODE_MODULES + name == SRC + below;
    assert c.target == DEST + rel ==> c.target + NODE_MODULES + name == DEST + below;
    assert c.target == HELPER + rel ==> c.target + NODE_MODULES + name == HELPER + below;
    assert Mirrors(c.source + NODE_MODULES + name, c.target + NODE_MODULES + name);
    assert Mirrors(SRC + name, DEST + name);
  }

  /** The package exists and its manifest can be read. */
  predicate Readable(tree: Tree, c: Copy) {
    c.source in tree && tree[c.source].manifest.Some?
  }

  ghost predicate ReadSince(tree: Tree, before: seq<Copy>, copies: seq<Copy>) {
    forall c | c in copies && c !in before :: Readable(tree, c)
  }

  ghost predicate Met(tree: Tree, c: Copy, copies: seq<Copy>) {
    forall d | DependsOn(tree, c, d) :: d in copies
  }

  /** Everything copied since `before` is reached from `root`. */
  ghost predicate ReachedSince(tree: Tree, root: Copy, before: seq<Copy>, copies: seq<Copy>) {
    before <= copies && forall c | c in copies && c !in before :: Reaches(tree, root, c)
  }

  /** Everything copied since `before`, except `open`, has its dependencies copied. */
  ghost predicate MetSince(tree: Tree, open: Option<Copy>, before: seq<Copy>, copies: seq<Copy>) {
    forall c | c in copies && c !in before && open != Some(c) :: Met(tree, c, copies)
  }

  lemma MetGrows(tree: Tree, open: Option<Copy>, before: seq<Copy>, middle: seq<Copy>, after: seq<Copy>)
    requires before <= middle <= after
    requires MetSince(tree, open, before, middle) && MetSince(tree, None, middle, after)
    ensures MetSince(tree, open, before, after)
  {
    forall c, d | c in after && c !in before && open != Some(c) && DependsOn(tree, c, d)
      ensures d in after
    {
      if c in middle {
        assert Met(tree, c, middle);
        assert d in middle;
      } else {
        assert Met(tree, c, after);
      }
    }
  }

  lemma ReachedGrows(tree: Tree, root: Copy, before: seq<Copy>, middle: seq<Copy>, after: seq<Copy>)
    requires ReachedSince(tree, root, before, middle) && ReachedSince(tree, root, middle, after)
    ensures ReachedSince(tree, root, before, after) && before <= middle <= after
  {
  }

  lemma ReadGrows(tree: Tree, before: seq<Copy>, middle: seq<Copy>, after: seq<Copy>)
    requires ReadSince(tree, before, middle) && ReadSince(tree, middle, after)
    ensures ReadSince(tree, before, after)
  {
    hide Readable;
  }

  lemma NothingYet(tree: Tree, root: Copy, copies: seq<Copy>)
    ensures ReachedSince(tree, root, copies, copies) && MetSince(tree, None, copies, copies)
    ensures ReadSince(tree, copies, copies)
    ensures Reaches(tree, root, root)
    ensures root.source !in tree || tree[root.source].manifest.None? ==> !Readable(tree, root)
  {
    ReachesItself(tree, root);
    hide Reaches, Met;
  }

  lemma RootCopied(tree: Tree, root: Copy, before: seq<Copy>)
    ensures ReachedSince(tree, root, before, before + [root]) && MetSince(tree, Some(root), before, before + [root])
    ensures Readable(tree, root) ==> ReadSince(tree, before, before + [root])
    ensures root.source in tree && tree[root.source].manifest.Some? ==> Readable(tree, root)
  {
    ReachesItself(tree, root);
    hide Reaches, Met;
  }

  /** The dependencies of `c` named first are among the copies. */
  ghost predicate NamesDone(tree: Tree, c: Copy, names: seq<Name>, count: nat, copies: seq<Copy>)
    requires count <= |names|
  {
    forall k | 0 <= k < count && Dependency(tree, c, names[k]).Some? :: Dependency(tree, c, names[k]).value in copies
  }

  lemma NoNamesYet(tree: Tree, c: Copy, names: seq<Name>, copies: seq<Copy>)
    ensures NamesDone(tree, c, names, 0, copies)
    ensures MetSince(tree, None, copies, copies) && ReachedSince(tree, c, copies, copies)
  {
  }

  lemma NextNameDone(tree: Tree, c: Copy, names: seq<Name>, i: nat, before: seq<Copy>, copies: seq<Copy>)
    requires i < |names| && before <= copies && NamesDone(tree, c, names, i, before)
    requires Dependency(tree, c, names[i]).Some? ==> Dependency(tree, c, names[i]).value in copies
    ensures NamesDone(tree, c, names, i + 1, copies)
  {
    hide Dependency;
  }

  lemma AllNamesDone(tree: Tree, c: Copy, before: seq<Copy>, copies: seq<Copy>)
    requires c.source in tree && tree[c.source].manifest.Some?
    requires var names := tree[c.source].manifest.value; NamesDone(tree, c, names, |names|, copies)
    requires MetSince(tree, Some(c), before, copies)
    ensures MetSince(tree, None, before, copies)
  {
    var names := tree[c.source].manifest.value;
    forall d | DependsOn(tree, c, d)
      ensures d in copies
    {
      var name :| name in names && Dependency(tree, c, name) == Some(d);
      var k :| 0 <= k < |names| && names[k] == name;
      assert Dependency(tree, c, names[k]).value in copies;
    }
    assert Met(tree, c, copies);
  }

  /** The copies of a finished run: exactly the wanted ones, each mirroring an existing package. */
  ghost predicate Shipped(tree: Tree, roots: seq<(Name, Path)>, copies: seq<Copy>) {
    && (forall c :: c in copies <==> Wanted(tree, roots, |roots|, c))
    && (forall c | c in copies :: Mirrors(c.source, c.target) && c.source in tree)
    && (forall r | r in roots :: r.1 == DEST || r.1 == HELPER)
  }

  class Copier {
    const tree: Tree
    const reliable: bool
    // Targets already taken, and the copies made, in order.
    var copiedRuntime: set<Path>
    var copies: seq<Copy>

    constructor (tree: Tree, reliable: bool)
      ensures this.tree == tree && this.reliable == reliable && copies == [] && Valid() && Complete()
    {
      this.tree := tree;
      this.reliable := reliable;
      copiedRuntime, copies := {}, [];
    }

    /** Each target is copied to at most once, from the source that belongs to it. */
    ghost predicate Valid()
      reads this
    {
      && (forall c | c in copies :: Mirrors(c.source, c.target) && c.source in tree && c.target in copiedRuntime)
      && (forall i, j | 0 <= i < j < |copies| :: copies[i].target != copies[j].target)
    }

    ghost predicate Complete()
      reads this
    {
      forall t | t in copiedRuntime :: exists c :: c in copies && c.target == t
    }

    /** mkdirSync and cpSync, which may fail. */
    method CopyDirectory(c: Copy) returns (ok: bool)
      requires Valid() && c.target in copiedRuntime && Mirrors(c.source, c.target) && c.source in tree
      requires forall d | d in copies :: d.target != c.target
      modifies this`copies
      ensures Valid() && copies == if ok then old(copies) + [c] else old(copies)
      ensures reliable ==> ok
    {
      var fails := Fault(reliable);
      ok := !fails;
      if ok { copies := copies + [c]; }
    }

    /**
     Copies one package and everything it leads to that has not been copied yet. `false` stands
     for a thrown error, which ends the whole script; when no copying fails, `bad` is the package
     to blame.
     */
    method CopyRuntimePackage(name: Name, sourceParent: Path, destParent: Path) returns (ok: bool, ghost bad: Copy)
      requires Valid() && Complete() && Mirrors(sourceParent + name, destParent + name)
      modifies this
      ensures Valid() && old(copiedRuntime) <= copiedRuntime
      ensures ReachedSince(tree, Copy(sourceParent + name, destParent + name), old(copies), copies)
      ensures ok ==> Complete() && Copy(sourceParent + name, destParent + name) in copies
      ensures ok ==> MetSince(tree, None, old(copies), copies) && ReadSince(tree, old(copies), copies)
      ensures reliable && !ok ==>
        Reaches(tree, Copy(sourceParent + name, destParent + name), bad) && !Readable(tree, bad)
      ensures destParent + name !in old(copiedRuntime) && sourceParent + name !in tree ==> !ok && copies == old(copies)
      decreases Targets(tree) - copiedRuntime, 0
    {
      hide MetSince, ReachedSince, ReadSince, Reaches, Targets, Mirrors, NamesDone, Readable;
      var sourceDir, targetDir := sourceParent + name, destParent + name;
      var root := Copy(sourceDir, targetDir);
      bad := root;
      NothingYet(tree, root, copies);
      if targetDir in copiedRuntime {
        ghost var c :| c in copies && c.target == targetDir;
        TargetDeterminesSource(c.source, sourceDir, targetDir);
        return true, bad;
      }
      if sourceDir !in tree { return false, bad; }
      TargetKnown(tree, root);
      copiedRuntime := copiedRuntime + {targetDir};
      ok, bad := CopyWithDependencies(root);
    }

    /** The package itself, whose target has just been taken, then what its manifest lists. */
    method CopyWithDependencies(root: Copy) returns (ok: bool, ghost bad: Copy)
      requires Valid() && root.target in copiedRuntime && Mirrors(root.source, root.target) && root.source in tree
      requires forall c | c in copies :: c.target != root.target
      requires forall t | t in copiedRuntime && t != root.target :: exists c :: c in copies && c.target == t
      modifies this
      ensures Valid() && old(copiedRuntime) <= copiedRuntime
      ensures ReachedSince(tree, root, old(copies), copies)
      ensures ok ==> Complete() && root in copies
      ensures ok ==> MetSince(tree, None, old(copies), copies) && ReadSince(tree, old(copies), copies)
      ensures reliable && !ok ==> Reaches(tree, root, bad) && !Readable(tree, bad)
      decreases Targets(tree) - copiedRuntime, 3
    {
      hide MetSince, ReachedSince, ReadSince, Reaches, Targets, Mirrors, NamesDone, Readable;
      bad := root;
      NothingYet(tree, root, copies);
      ok := CopyDirectory(root);
      if !ok { return; }
      RootCopied(tree, root, old(copies));
      if tree[root.source].manifest.None? { return false, bad; }
      ghost var middle := copies;
      CompleteWith(root, old(copies));
      ok, bad := CopyDependencies(root);
      ReachedGrows(tree, root, old(copies), middle, copies);
      if ok {
        MetGrows(tree, Some(root), old(copies), middle, copies);
        ReadGrows(tree, old(copies), middle, copies);
        AllNamesDone(tree, root, old(copies), copies);
      }
    }

    lemma CompleteWith(root: Copy, before: seq<Copy>)
      requires copies == before + [root]
      requires forall t | t in copiedRuntime && t != root.target :: exists c :: c in before && c.target == t
      ensures Complete()
    {
      forall t | t in copiedRuntime
        ensures exists c :: c in copies && c.target == t
      {
        if t == root.target {
          assert root in copies;
        } else {
          var c :| c in before && c.target == t;
          assert c in copies;
        }
      }
    }

    /** The loop over the names in the manifest. */
    method CopyDependencies(c: Copy) returns (ok: bool, ghost bad: Copy)
      requires Valid() && Complete() && c in copies
      requires c.source in tree && tree[c.source].manifest.Some?
      modifies this
      ensures Valid() && old(copiedRuntime) <= copiedRuntime
      ensures ReachedSince(tree, c, old(copies), copies)
      ensures ok ==> Complete() && MetSince(tree, None, old(copies), copies)
      ensures ok ==> ReadSince(tree, old(copies), copies)
      ensures reliable && !ok ==> Reaches(tree, c, bad) && !Readable(tree, bad)
      ensures ok ==> var names := tree[c.source].manifest.value; NamesDone(tree, c, names, |names|, copies)
      decreases Targets(tree) - copiedRuntime, 2
    {
      hide MetSince, NamesDone, Dependency, Reaches, Mirrors, Targets, Readable;
      bad := c;
      var names := tree[c.source].manifest.value;
      NoNamesYet(tree, c, names, copies);
      for i := 0 to |names|
        invariant Valid() && Complete() && old(copiedRuntime) <= copiedRuntime
        invariant ReachedSince(tree, c, old(copies), copies) && c in copies
        invariant MetSince(tree, None, old(copies), copies)
        invariant NamesDone(tree, c, names, i, copies) && ReadSince(tree, old(copies), copies)
      {
        ghost var before := copies;
        ok, bad := CopyDependency(c, names[i]);
        ReachedGrows(tree, c, old(copies), before, copies);
        if !ok { return; }
        MetGrows(tree, None, old(copies), before, copies);
        NextNameDone(tree, c, names, i, before, copies);
      }
      ok := true;
    }

    method CopyDependency(c: Copy, name: Name) returns (ok: bool, ghost bad: Copy)
      requires Valid() && Complete() && c in copies
      requires c.source in tree && tree[c.source].manifest.Some? && name in tree[c.source].manifest.value
      modifies this
      ensures Valid() && old(copiedRuntime) <= copiedRuntime
      ensures ReachedSince(tree, c, old(copies), copies)
      ensures ok ==> Complete() && (Dependency(tree, c, name).Some? ==> Dependency(tree, c, name).value in copies)
      ensures ok ==> MetSince(tree, None, old(copies), copies) && ReadSince(tree, old(copies), copies)
      ensures reliable && !ok ==> Reaches(tree, c, bad) && !Readable(tree, bad)
      decreases Targets(tree) - copiedRuntime, 1
    {
      ok, bad := true, c;
      if Dependency(tree, c, name).Some? { DependencyMirrors(tree, c, name); }
      if c.source + NODE_MODULES + name in tree {
        ok, bad := CopyRuntimePackage(name, c.source + NODE_MODULES, c.target + NODE_MODULES);
      } else if SRC + name in tree {
        ok, bad := CopyRuntimePackage(name, SRC, DEST);
      }
      forall d | d in copies && d !in old(copies)
        ensures Reaches(tree, c, d)
      {
        ReachesThrough(tree, c, Dependency(tree, c, name).value, d);
      }
      if reliable && !ok { ReachesThrough(tree, c, Dependency(tree, c, name).value, bad); }
    }

    /** The script's calls: each root package, by name and destination. */
    method CopyAll(roots: seq<(Name, Path)>) returns (ok: bool)
      requires copies == [] && Valid() && Complete()
      requires forall r | r in roots :: r.1 == DEST || r.1 == HELPER
      modifies this
      ensures Valid()
      ensures AllWanted(tree, roots, |roots|, copies)
      ensures ok ==> Shipped(tree, roots, copies)
      // Nothing but a wanted package that cannot be read keeps a reliable run from its end.
      ensures ok ==> forall c | Wanted(tree, roots, |roots|, c) :: Readable(tree, c)
      ensures reliable && !ok ==> exists c :: Wanted(tree, roots, |roots|, c) && !Readable(tree, c)
    {
      hide Readable, Wanted, AllWanted, MetSince, ReachedSince, Targets, Mirrors;
      NothingWanted(tree, roots);
      for i := 0 to |roots|
        invariant Valid() && Complete()
        invariant AllWanted(tree, roots, i, copies)
        invariant MetSince(tree, None, [], copies) && ReadSince(tree, [], copies)
        invariant RootsIn(roots, i, copies)
      {
        ghost var before := copies;
        RootMirrors(roots[i]);
        ghost var bad;
        ok, bad := CopyRuntimePackage(roots[i].0, SRC, roots[i].1);
        NextRootWanted(tree, roots, i, before, copies);
        RootsKept(roots, i, before, copies);
        if !ok {
          if reliable { RootWants(tree, roots, i, bad); }
          return;
        }
        MetGrows(tree, None, [], before, copies);
      }
      ok := true;
      EverythingCopied(tree, roots, copies);
    }
  }

  lemma RootWants(tree: Tree, roots: seq<(Name, Path)>, k: nat, c: Copy)
    requires k < |roots| && Reaches(tree, RootCopy(roots[k]), c)
    ensures Wanted(tree, roots, |roots|, c)
  {
    hide Reaches;
  }

  lemma RootMirrors(root: (Name, Path))
    requires root.1 == DEST || root.1 == HELPER
    ensures Mirrors(SRC + root.0, root.1 + root.0)
  {
  }

  ghost predicate AllWanted(tree: Tree, roots: seq<(Name, Path)>, count: nat, copies: seq<Copy>)
    requires count <= |roots|
  {
    forall c | c in copies :: Wanted(tree, roots, count, c)
  }

  ghost predicate RootsIn(roots: seq<(Name, Path)>, count: nat, copies: seq<Copy>)
    requires count <= |roots|
  {
    forall k | 0 <= k < count :: RootCopy(roots[k]) in copies
  }

  lemma RootsKept(roots: seq<(Name, Path)>, i: nat, before: seq<Copy>, copies: seq<Copy>)
    requires i < |roots| && before <= copies && RootsIn(roots, i, before)
    ensures RootCopy(roots[i]) in copies ==> RootsIn(roots, i + 1, copies)
  {
  }

  lemma NothingWanted(tree: Tree, roots: seq<(Name, Path)>)
    ensures AllWanted(tree, roots, 0, []) && MetSince(tree, None, [], []) && RootsIn(roots, 0, [])
    ensures AllWanted(tree, roots, |roots|, [])
  {
  }

  lemma NextRootWanted(tree: Tree, roots: seq<(Name, Path)>, i: nat, before: seq<Copy>, copies: seq<Copy>)
    requires i < |roots| && AllWanted(tree, roots, i, before)
    requires ReachedSince(tree, RootCopy(roots[i]), before, copies)
    ensures before <= copies
    ensures AllWanted(tree, roots, i + 1, copies) && AllWanted(tree, roots, |roots|, copies)
  {
    hide Reaches;
    forall c | c in copies
      ensures Wanted(tree, roots, i + 1, c) && Wanted(tree, roots, |roots|, c)
    {
      if c in before { assert Wanted(tree, roots, i, c); }
    }
  }

  lemma EverythingCopied(tree: Tree, roots: seq<(Name, Path)>, copies: seq<Copy>)
    requires MetSince(tree, None, [], copies)
    requires RootsIn(roots, |roots|, copies)
    requires AllWanted(tree, roots, |roots|, copies)
    ensures forall c :: c in copies <==> Wanted(tree, roots, |roots|, c)
  {
    hide Reaches, DependsOn, Met;
    MetIsClosed(tree, copies);
    forall c | Wanted(tree, roots, |roots|, c)
      ensures c in copies
    {
      var k :| 0 <= k < |roots| && Reaches(tree, RootCopy(roots[k]), c);
      ClosedHoldsReached(tree, (set d | d in copies), RootCopy(roots[k]), c);
    }
  }

  function RootCopy(root: (Name, Path)): Copy {
    Copy(SRC + root.0, root.1 + root.0)
  }

  /** In the closure of the first `count` roots: the least set holding them and closed under `DependsOn`. */
  ghost predicate Wanted(tree: Tree, roots: seq<(Name, Path)>, count: nat, c: Copy)
    requires count <= |roots|
  {
    exists k :: 0 <= k < count && Reaches(tree, RootCopy(roots[k]), c)
  }

  lemma MetIsClosed(tree: Tree, copies: seq<Copy>)
    requires MetSince(tree, None, [], copies)
    ensures Closed(tree, set c | c in copies)
  {
    forall c, d | c in copies && DependsOn(tree, c, d)
      ensures d in copies
    {
      assert Met(tree, c, copies);
    }
  }

  /** `Wanted` is closed and holds the roots ... */
  lemma WantedIsClosed(tree: Tree, roots: seq<(Name, Path)>)
    ensures forall k | 0 <= k < |roots| :: Wanted(tree, roots, |roots|, RootCopy(roots[k]))
    ensures forall c, d | Wanted(tree, roots, |roots|, c) && DependsOn(tree, c, d) :: Wanted(tree, roots, |roots|, d)
  {
    hide Reaches, DependsOn;
    forall k | 0 <= k < |roots|
      ensures Wanted(tree, roots, |roots|, RootCopy(roots[k]))
    {
      ReachesItself(tree, RootCopy(roots[k]));
    }
    forall c, d | Wanted(tree, roots, |roots|, c) && DependsOn(tree, c, d)
      ensures Wanted(tree, roots, |roots|, d)
    {
      var k :| 0 <= k < |roots| && Reaches(tree, RootCopy(roots[k]), c);
      ReachesFurther(tree, RootCopy(roots[k]), c, d);
    }
  }

  /** ... and lies in every set that is closed and holds the roots. */
  lemma WantedIsLeast(tree: Tree, roots: seq<(Name, Path)>, all: set<Copy>, c: Copy)
    requires Closed(tree, all) && forall k | 0 <= k < |roots| :: RootCopy(roots[k]) in all
    requires Wanted(tree, roots, |roots|, c)
    ensures c in all
  {
    var k :| 0 <= k < |roots| && Reaches(tree, RootCopy(roots[k]), c);
    ClosedHoldsReached(tree, all, RootCopy(roots[k]), c);
  }

  lemma ReachesFurther(tree: Tree, c: Copy, d: Copy, e: Copy)
    requires Reaches(tree, c, d) && DependsOn(tree, d, e)
    ensures Reaches(tree, c, e)
  {
    var trace :| |trace| > 0 && trace[0] == c && trace[|trace| - 1] == d && Chain(tree, trace);
    var longer := trace + [e];
    forall i | 0 <= i < |longer| - 1
      ensures DependsOn(tree, longer[i], longer[i + 1])
    {
      if i < |trace| - 1 { assert DependsOn(tree, trace[i], trace[i + 1]); }
    }
    assert Chain(tree, longer);
  }

  // ---------------------------------------------------------------------------
  // Against Node's own resolution

  /**
   What `require(name)` finds from the package at `rel` below node_modules: the nearest
   node_modules of an enclosing directory, from the inside out, that has the name.
   */
  function NodeLookup(tree: Tree, rel: Path, k: nat, name: Name): Option<Path>
    requires k <= |rel|
  {
    if k == 0 then
      if SRC + name in tree then Some(SRC + name) else None
    else if rel[k - 1] != "node_modules" && SRC + rel[..k] + NODE_MODULES + name in tree
    then Some(SRC + rel[..k] + NODE_MODULES + name)
    else NodeLookup(tree, rel, k - 1, name)
  }

  /** No directory between the package and the root has the name in its node_modules. */
  ghost predicate NoneBetween(tree: Tree, rel: Path, k: nat, name: Name)
    requires k <= |rel|
  {
    forall i | 0 < i < k && rel[i - 1] != "node_modules" :: SRC + rel[..i] + NODE_MODULES + name !in tree
  }

  function Chosen(dependency: Option<Copy>): Option<Path> {
    if dependency.Some? then Some(dependency.value.source) else None
  }

  lemma {:induction false} LookupBetween(tree: Tree, rel: Path, k: nat, name: Name)
    requires k < |rel|
    ensures NoneBetween(tree, rel, k + 1, name) ==>
      NodeLookup(tree, rel, k, name) == if SRC + name in tree then Some(SRC + name) else None
    ensures !NoneBetween(tree, rel, k + 1, name) ==>
      NodeLookup(tree, rel, k, name).Some? && |NodeLookup(tree, rel, k, name).value| > |SRC + name|
  {
    if k > 0 { LookupBetween(tree, rel, k - 1, name); }
  }

  /**
   The copier takes the package Node would resolve to exactly when the package has the
   dependency nested in itself or no enclosing directory in between has it.
   */
  lemma CopierAgreesWithNode(tree: Tree, rel: Path, target: Path, name: Name)
    requires rel != [] && rel[|rel| - 1] != "node_modules"
    ensures Chosen(Dependency(tree, Copy(SRC + rel, target), name)) == NodeLookup(tree, rel, |rel|, name)
       <==> SRC + rel + NODE_MODULES + name in tree || NoneBetween(tree, rel, |rel|, name)
  {
    assert rel[..|rel|] == rel;
    LookupBetween(tree, rel, |rel| - 1, name);
  }

  // `a` nests `b` and `c`; `b` needs that `c`, and another `c` is hoisted.
  const A: Path := SRC + ["a"]
  const B: Path := A + NODE_MODULES + ["b"]
  const NESTED_C: Path := A + NODE_MODULES + ["c"]
  const HOISTED_C: Path := SRC + ["c"]
  const CONFLICT: Tree := map[
    A := Package(Some([["b"]])), B := Package(Some([["c"]])),
    NESTED_C := Package(Some([])), HOISTED_C := Package(Some([]))]

  /** In that tree the copy of `b` is shipped with the wrong `c`, and the one it needs is not shipped at all. */
  lemma SiblingDependencyIsMissed(target: Path)
    ensures Chosen(Dependency(CONFLICT, Copy(B, target), ["c"])) == Some(HOISTED_C)
    ensures NodeLookup(CONFLICT, ["a", "node_modules", "b"], 3, ["c"]) == Some(NESTED_C)
    ensures forall c | Wanted(CONFLICT, [(["a"], DEST)], 1, c) :: c.source != NESTED_C
  {
    var rel := ["a", "node_modules", "b"];
    assert SRC + rel == B;
    assert SRC + rel[..3] + NODE_MODULES + ["c"] == B + NODE_MODULES + ["c"];
    assert |B + NODE_MODULES + ["c"]| == 6;
    assert SRC + rel[..1] + NODE_MODULES + ["c"] == NESTED_C;
    assert NodeLookup(CONFLICT, rel, 1, ["c"]) == Some(NESTED_C);
    assert NodeLookup(CONFLICT, rel, 2, ["c"]) == Some(NESTED_C);
    ConflictClosure();
  }

  lemma ConflictClosure()
    ensures forall c | Wanted(CONFLICT, [(["a"], DEST)], 1, c) :: c.source != NESTED_C
  {
    var all := {Copy(A, DEST + ["a"]), Copy(B, DEST + ["a"] + NODE_MODULES + ["b"]), Copy(HOISTED_C, DEST + ["c"])};
    assert Closed(CONFLICT, all) by { ConflictIsClosed(all); }
    assert NESTED_C[1] == "a" && HOISTED_C[1] == "c" && |A| == 2 && NESTED_C[3] == "c" && B[3] == "b";
    forall c | Wanted(CONFLICT, [(["a"], DEST)], 1, c)
      ensures c.source != NESTED_C
    {
      WantedIsLeast(CONFLICT, [(["a"], DEST)], all, c);
    }
  }

  lemma ConflictIsClosed(all: set<Copy>)
    requires all == {Copy(A, DEST + ["a"]), Copy(B, DEST + ["a"] + NODE_MODULES + ["b"]), Copy(HOISTED_C, DEST + ["c"])}
    ensures Closed(CONFLICT, all)
  {
    assert |A| == 2 && |B| == 4 && |NESTED_C| == 4 && |HOISTED_C| == 2;
    assert A[1] == "a" && HOISTED_C[1] == "c" && B[3] == "b" && NESTED_C[3] == "c";
    assert CONFLICT[A].manifest == Some([["b"]]) && CONFLICT[B].manifest == Some([["c"]]);
    assert CONFLICT[HOISTED_C].manifest == Some([]);
    assert |B + NODE_MODULES + ["c"]| == 6;
    assert Dependency(CONFLICT, Copy(A, DEST + ["a"]), ["b"]) == Some(Copy(B, DEST + ["a"] + NODE_MODULES + ["b"]));
    assert Dependency(CONFLICT, Copy(B, DEST + ["a"] + NODE_MODULES + ["b"]), ["c"]) == Some(Copy(HOISTED_C, DEST + ["c"]));
  }
}
