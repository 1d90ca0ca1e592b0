/**
 What the copied packages find where they were copied to: Node's lookup among the shipped targets
 against its lookup in the dependency tree (scripts/copy-native-modules.ts:53-116).
 */
module ShippedModules {
  import opened Results
  import opened NativeModules

  ghost predicate IsTarget(copies: seq<Copy>, target: Path) {
    exists c :: c in copies && c.target == target
  }

  function Below(rel: Path, name: Name): Path {
    rel + NODE_MODULES + name
  }

  /** What `require(name)` finds from the shipped package at `dest + rel`, looking from the inside out. */
  ghost function ShippedLookup(copies: seq<Copy>, dest: Path, rel: Path, k: nat, name: Name): Option<Path>
    requires k <= |rel|
  {
    if k == 0 then
      if IsTarget(copies, dest + name) then Some(name) else None
    else if rel[k - 1] != "node_modules" && IsTarget(copies, dest + Below(rel[..k], name))
    then Some(Below(rel[..k], name))
    else ShippedLookup(copies, dest, rel, k - 1, name)
  }

  /** The same in the dependency tree; both are given as paths below node_modules. */
  function TreeLookup(tree: Tree, rel: Path, k: nat, name: Name): Option<Path>
    requires k <= |rel|
  {
    if k == 0 then
      if SRC + name in tree then Some(name) else None
    else if rel[k - 1] != "node_modules" && SRC + Below(rel[..k], name) in tree
    then Some(Below(rel[..k], name))
    else TreeLookup(tree, rel, k - 1, name)
  }

  lemma {:induction false} TreeLookupIsNodes(tree: Tree, rel: Path, k: nat, name: Name)
    requires k <= |rel|
    ensures NodeLookup(tree, rel, k, name)
         == var found := TreeLookup(tree, rel, k, name); if found.Some? then Some(SRC + found.value) else None
  {
    if k > 0 {
      TreeLookupIsNodes(tree, rel, k - 1, name);
      assert SRC + rel[..k] + NODE_MODULES + name == SRC + Below(rel[..k], name);
    }
  }

  predicate IsRoot(dest: Path) {
    dest == DEST || dest == HELPER
  }

  lemma SamePlace(dest: Path, a: Path, b: Path)
    requires IsRoot(dest) && (dest + a == DEST + b || dest + a == HELPER + b)
    ensures a == b
  {
    assert (dest + a)[2..] == a;
    assert (DEST + b)[2..] == b && (HELPER + b)[2..] == b;
  }

  /** A target was copied from its own place in the tree. */
  lemma TargetHasSource(tree: Tree, copies: seq<Copy>, dest: Path, at: Path)
    requires IsRoot(dest)
    requires forall c | c in copies :: Mirrors(c.source, c.target) && c.source in tree
    ensures IsTarget(copies, dest + at) <==> Copy(SRC + at, dest + at) in copies
    ensures IsTarget(copies, dest + at) ==> SRC + at in tree
  {
    if IsTarget(copies, dest + at) {
      var c :| c in copies && c.target == dest + at;
      var rel: Path :| c.source == SRC + rel && (c.target == DEST + rel || c.target == HELPER + rel);
      SamePlace(dest, at, rel);
    }
  }

  lemma {:induction false} LookupLength(copies: seq<Copy>, dest: Path, rel: Path, k: nat, name: Name)
    requires k <= |rel|
    ensures var found := ShippedLookup(copies, dest, rel, k, name);
            found.Some? ==> |found.value| <= k + 1 + |name| && (k == 0 ==> found.value == name)
  {
    if k > 0 { LookupLength(copies, dest, rel, k - 1, name); }
  }

  /**
   The shipped package finds nothing where Node finds nothing, and otherwise what Node finds
   exactly when that was copied to the same side.
   */
  lemma {:induction false} LookupsAgree(tree: Tree, copies: seq<Copy>, dest: Path, rel: Path, k: nat, name: Name)
    requires IsRoot(dest) && k <= |rel|
    requires forall c | c in copies :: Mirrors(c.source, c.target) && c.source in tree
    ensures var found := TreeLookup(tree, rel, k, name);
            ShippedLookup(copies, dest, rel, k, name) == found
            <==> found.None? || Copy(SRC + found.value, dest + found.value) in copies
  {
    hide IsTarget, Mirrors, Below;
    if k == 0 {
      TargetHasSource(tree, copies, dest, name);
    } else {
      var at := Below(rel[..k], name);
      TargetHasSource(tree, copies, dest, at);
      LookupsAgree(tree, copies, dest, rel, k - 1, name);
      LookupLength(copies, dest, rel, k - 1, name);
      assert |at| == k + 1 + |name| by { BelowLength(rel[..k], name); }
      ShorterAgree(tree, copies, dest, rel, k, name, at);
    }
  }

  lemma BelowLength(rel: Path, name: Name)
    ensures |Below(rel, name)| == |rel| + 1 + |name|
  {
  }

  lemma ShorterAgree(tree: Tree, copies: seq<Copy>, dest: Path, rel: Path, k: nat, name: Name, at: Path)
    requires 0 < k <= |rel| && at == Below(rel[..k], name)
    requires IsTarget(copies, dest + at) <==> Copy(SRC + at, dest + at) in copies
    requires IsTarget(copies, dest + at) ==> SRC + at in tree
    requires var found := TreeLookup(tree, rel, k - 1, name);
             ShippedLookup(copies, dest, rel, k - 1, name) == found
             <==> found.None? || Copy(SRC + found.value, dest + found.value) in copies
    requires ShippedLookup(copies, dest, rel, k - 1, name) != Some(at)
    ensures var found := TreeLookup(tree, rel, k, name);
            ShippedLookup(copies, dest, rel, k, name) == found
            <==> found.None? || Copy(SRC + found.value, dest + found.value) in copies
  {
    hide IsTarget, Below;
  }

  /** A lookup that ends at the root found nothing nested in the package. */
  lemma {:induction false} FoundAt(tree: Tree, rel: Path, k: nat, name: Name)
    requires k <= |rel| && "node_modules" !in name
    ensures var found := TreeLookup(tree, rel, k, name);
            && (found.Some? ==> SRC + found.value in tree)
            && (found == Some(name) ==> forall i | 0 < i <= k && rel[i - 1] != "node_modules" ::
                  SRC + Below(rel[..i], name) !in tree)
  {
    if k > 0 {
      FoundAt(tree, rel, k - 1, name);
      assert Below(rel[..k], name)[k] == "node_modules";
    }
  }

  /** The copy that leads to the hoisted dependency, or the one nested in the package, is shipped. */
  lemma DependencyIsShipped(tree: Tree, roots: seq<(Name, Path)>, copies: seq<Copy>, dest: Path, rel: Path, name: Name)
    requires Shipped(tree, roots, copies) && Copy(SRC + rel, dest + rel) in copies
    requires tree[SRC + rel].manifest.Some? && name in tree[SRC + rel].manifest.value
    ensures SRC + Below(rel, name) in tree ==> Copy(SRC + Below(rel, name), dest + Below(rel, name)) in copies
    ensures SRC + Below(rel, name) !in tree && SRC + name in tree ==> Copy(SRC + name, DEST + name) in copies
  {
    hide Wanted, Mirrors;
    var c := Copy(SRC + rel, dest + rel);
    assert c.source + NODE_MODULES + name == SRC + Below(rel, name);
    assert c.target + NODE_MODULES + name == dest + Below(rel, name);
    var d := Dependency(tree, c, name);
    if d.Some? {
      assert DependsOn(tree, c, d.value);
      hide Dependency, DependsOn;
      WantedIsClosed(tree, roots);
    }
  }

  /** What a chain reaches beyond its start, some package it reaches depends on. */
  lemma LastLink(tree: Tree, c: Copy, d: Copy) returns (before: Copy)
    requires Reaches(tree, c, d) && c != d
    ensures Reaches(tree, c, before) && DependsOn(tree, before, d)
  {
    var trace :| |trace| > 0 && trace[0] == c && trace[|trace| - 1] == d && Chain(tree, trace);
    var shorter := trace[..|trace| - 1];
    before := shorter[|shorter| - 1];
    assert DependsOn(tree, trace[|trace| - 2], trace[|trace| - 1]);
    assert Chain(tree, shorter);
  }

  /** Only a root is copied to the top of the helper's modules: dependencies go below a package or to the server. */
  lemma TopOfHelper(tree: Tree, roots: seq<(Name, Path)>, copies: seq<Copy>, name: Name)
    requires Shipped(tree, roots, copies) && "node_modules" !in name
    ensures Copy(SRC + name, HELPER + name) in copies <==> (name, HELPER) in roots
  {
    var top := Copy(SRC + name, HELPER + name);
    hide Reaches;
    if (name, HELPER) in roots {
      var k :| 0 <= k < |roots| && roots[k] == (name, HELPER);
      assert RootCopy(roots[k]) == top;
      ReachesItself(tree, top);
      assert Wanted(tree, roots, |roots|, top);
    }
    if top in copies {
      var k :| 0 <= k < |roots| && Reaches(tree, RootCopy(roots[k]), top);
      assert roots[k] in roots;
      if RootCopy(roots[k]) == top {
        SamePlace(HELPER, name, roots[k].0);
        assert (roots[k].1 + roots[k].0)[0] == roots[k].1[0];
      } else {
        var before := LastLink(tree, RootCopy(roots[k]), top);
        assert Wanted(tree, roots, |roots|, before) && before in copies;
        NeverOnTop(tree, before, name);
      }
    }
  }

  lemma NeverOnTop(tree: Tree, c: Copy, name: Name)
    requires Mirrors(c.source, c.target) && "node_modules" !in name
    ensures !DependsOn(tree, c, Copy(SRC + name, HELPER + name))
  {
    var rel: Path :| c.source == SRC + rel && (c.target == DEST + rel || c.target == HELPER + rel);
    forall n: Name
      ensures Dependency(tree, c, n) != Some(Copy(SRC + name, HELPER + name))
    {
      assert (c.target + NODE_MODULES + n)[|c.target|] == "node_modules";
      if |c.target| < |HELPER + name| {
        assert name[|c.target| - 2] in name && (HELPER + name)[|c.target|] == name[|c.target| - 2];
      }
      assert (DEST + n)[0] != (HELPER + name)[0];
    }
  }

  // ---------------------------------------------------------------------------
  // Dependencies nested in some package

  /** No package is called node_modules. */
  ghost predicate PlainNames(tree: Tree, roots: seq<(Name, Path)>) {
    && (forall r | r in roots :: "node_modules" !in r.0)
    && (forall p, name | p in tree && tree[p].manifest.Some? && name in tree[p].manifest.value :: "node_modules" !in name)
  }

  /** The package below node_modules at `rel` lists the name. */
  predicate Lists(tree: Tree, rel: Path, name: Name) {
    SRC + rel in tree && tree[SRC + rel].manifest.Some? && name in tree[SRC + rel].manifest.value
  }

  function Placed(dest: Path, rel: Path): Copy {
    Copy(SRC + rel, dest + rel)
  }

  /** A path splits at its last node_modules in one way only. */
  lemma LastSplit(a: Path, m: Name, b: Path, n: Name)
    requires a + NODE_MODULES + m == b + NODE_MODULES + n
    requires "node_modules" !in m && "node_modules" !in n
    ensures a == b && m == n
  {
    NotLonger(a, m, b, n);
    NotLonger(b, n, a, m);
    var s := a + NODE_MODULES + m;
    assert a == s[..|a|] && b == s[..|b|];
    assert m == s[|a| + 1..] && n == s[|b| + 1..];
  }

  lemma NotLonger(a: Path, m: Name, b: Path, n: Name)
    requires a + NODE_MODULES + m == b + NODE_MODULES + n && "node_modules" !in n
    ensures |a| <= |b|
  {
    var s := b + NODE_MODULES + n;
    assert (a + NODE_MODULES + m)[|a|] == "node_modules";
    forall k | |b| < k < |s|
      ensures s[k] != "node_modules"
    {
      assert s[k] == n[k - |b| - 1] && n[k - |b| - 1] in n;
    }
  }

  /** A nested path is not one at the top. */
  lemma NotAtTop(rel: Path, name: Name, n: Name)
    requires "node_modules" !in n
    ensures SRC + n != SRC + Below(rel, name)
  {
    assert (SRC + n)[1..] == n && (SRC + Below(rel, name))[1..] == Below(rel, name);
    assert Below(rel, name)[|rel|] == "node_modules";
  }

  /** A nested copy comes from the package around it, through its manifest. */
  lemma NestedComesFrom(tree: Tree, c: Copy, dest: Path, rel: Path, name: Name)
    requires c.source in tree && tree[c.source].manifest.Some? && "node_modules" !in name
    requires forall n | n in tree[c.source].manifest.value :: "node_modules" !in n
    requires DependsOn(tree, c, Placed(dest, Below(rel, name)))
    ensures c == Placed(dest, rel) && name in tree[c.source].manifest.value
  {
    var n :| n in tree[c.source].manifest.value && Dependency(tree, c, n) == Some(Placed(dest, Below(rel, name)));
    assert SRC + Below(rel, name) == (SRC + rel) + NODE_MODULES + name;
    assert dest + Below(rel, name) == (dest + rel) + NODE_MODULES + name;
    NotAtTop(rel, name, n);
    if c.source + NODE_MODULES + n in tree {
      LastSplit(c.source, n, SRC + rel, name);
      LastSplit(c.target, n, dest + rel, name);
    }
  }

  /** What a shipped copy that is no root came from. */
  lemma ComesFrom(tree: Tree, roots: seq<(Name, Path)>, copies: seq<Copy>, c: Copy) returns (before: Copy)
    requires Shipped(tree, roots, copies) && c in copies
    requires forall r | r in roots :: RootCopy(r) != c
    ensures before in copies && DependsOn(tree, before, c)
  {
    hide Reaches, DependsOn, Mirrors;
    var k :| 0 <= k < |roots| && Reaches(tree, RootCopy(roots[k]), c);
    assert roots[k] in roots;
    before := LastLink(tree, RootCopy(roots[k]), c);
    assert Wanted(tree, roots, |roots|, before);
  }

  /**
   A package nested in another is shipped in its place exactly when the one around it is shipped
   there and lists it.
   */
  lemma NestedIsShipped(tree: Tree, roots: seq<(Name, Path)>, copies: seq<Copy>, dest: Path, rel: Path, name: Name)
    requires Shipped(tree, roots, copies) && PlainNames(tree, roots) && "node_modules" !in name
    requires SRC + Below(rel, name) in tree
    ensures Placed(dest, Below(rel, name)) in copies
       <==> Placed(dest, rel) in copies && Lists(tree, rel, name)
  {
    var nested := Placed(dest, Below(rel, name));
    if nested in copies {
      forall r | r in roots
        ensures RootCopy(r) != nested
      {
        NotAtTop(rel, name, r.0);
      }
      var before := ComesFrom(tree, roots, copies, nested);
      hide Wanted, Mirrors, Dependency;
      NestedComesFrom(tree, before, dest, rel, name);
    }
    if Placed(dest, rel) in copies && Lists(tree, rel, name) {
      DependencyIsShipped(tree, roots, copies, dest, rel, name);
    }
  }

  /** A shipped path that holds node_modules ends with a name below some package. */
  lemma {:induction false} LastName(rel: Path) returns (outer: Path, name: Name)
    requires "node_modules" in rel
    ensures rel == Below(outer, name) && "node_modules" !in name
  {
    var last := |rel| - 1;
    if rel[last] == "node_modules" {
      outer, name := rel[..last], [];
      assert rel == Below(outer, name);
    } else {
      assert rel == rel[..last] + [rel[last]];
      outer, name := LastName(rel[..last]);
      name := name + [rel[last]];
      assert rel == Below(outer, name);
    }
  }

  /** Every package around a shipped one is shipped. */
  lemma {:induction false} EnclosingIsShipped(
      tree: Tree, roots: seq<(Name, Path)>, copies: seq<Copy>, dest: Path, rel: Path, i: nat)
    requires Shipped(tree, roots, copies) && PlainNames(tree, roots)
    requires Placed(dest, rel) in copies && i < |rel| && rel[i] == "node_modules"
    ensures Placed(dest, rel[..i]) in copies
    decreases |rel|
  {
    hide Wanted, Mirrors;
    var outer, name := LastName(rel);
    NestedIsShipped(tree, roots, copies, dest, outer, name);
    if i < |outer| {
      EnclosingIsShipped(tree, roots, copies, dest, outer, i);
      assert outer[..i] == rel[..i];
    } else {
      forall k | |outer| < k < |rel|
        ensures rel[k] != "node_modules"
      {
        assert rel[k] == name[k - |outer| - 1] && name[k - |outer| - 1] in name;
      }
      assert rel[..|outer|] == outer;
    }
  }

  /** The path below node_modules of the package in which something with this name is nested. */
  function Around(at: Path, name: Name): Path {
    if |at| > |name| then at[..|at| - |name| - 1] else []
  }

  lemma {:induction false} FoundAround(tree: Tree, rel: Path, k: nat, name: Name)
    requires k <= |rel| && "node_modules" !in name
    ensures var found := TreeLookup(tree, rel, k, name);
            found.Some? ==>
              && SRC + found.value in tree
              && (found.value != name ==>
                    var around := Around(found.value, name);
                    && 0 < |around| <= k && around == rel[..|around|] && found.value == Below(around, name))
  {
    if k > 0 {
      FoundAround(tree, rel, k - 1, name);
      BelowLength(rel[..k], name);
      assert Below(rel[..k], name)[..k] == rel[..k];
    }
  }

  /** No package lies in another but in its node_modules. */
  ghost predicate Separate(tree: Tree) {
    forall p: Path, i | SRC + p in tree && 0 < i < |p| && SRC + p[..i] in tree :: p[i] == "node_modules"
  }

  /**
   A shipped package finds what it finds in the dependency tree exactly when Node finds nothing
   there; or finds it hoisted, and the package is on the server's side or the dependency is itself
   a root of the helper; or finds it nested in a shipped package, perhaps itself, that lists it.
   In a tree where packages lie in one another's node_modules only, that one is always shipped, so
   the tree and the roots decide.
   */
  lemma ShippedTreeResolves(
      tree: Tree, roots: seq<(Name, Path)>, copies: seq<Copy>, dest: Path, rel: Path, name: Name)
    requires Shipped(tree, roots, copies) && PlainNames(tree, roots) && IsRoot(dest)
    requires Placed(dest, rel) in copies && rel != [] && rel[|rel| - 1] != "node_modules" && Lists(tree, rel, name)
    ensures var found := TreeLookup(tree, rel, |rel|, name);
            ShippedLookup(copies, dest, rel, |rel|, name) == found <==>
              || found.None?
              || if found.value == name then dest == DEST || (name, HELPER) in roots
                 else Lists(tree, Around(found.value, name), name) && Placed(dest, Around(found.value, name)) in copies
    ensures Separate(tree) ==>
      var found := TreeLookup(tree, rel, |rel|, name);
      ShippedLookup(copies, dest, rel, |rel|, name) == found <==>
        || found.None?
        || if found.value == name then dest == DEST || (name, HELPER) in roots
           else Lists(tree, Around(found.value, name), name)
  {
    hide Wanted, Mirrors;
    var found := TreeLookup(tree, rel, |rel|, name);
    assert rel[..|rel|] == rel;
    LookupsAgree(tree, copies, dest, rel, |rel|, name);
    FoundAround(tree, rel, |rel|, name);
    if found.None? {
    } else if found.value == name {
      HoistedIsShipped(tree, roots, copies, dest, rel, name);
    } else {
      var around := Around(found.value, name);
      NestedIsShipped(tree, roots, copies, dest, around, name);
      if Separate(tree) && Lists(tree, around, name) && |around| < |rel| {
        assert SRC + rel[..|around|] in tree;
        EnclosingIsShipped(tree, roots, copies, dest, rel, |around|);
      }
    }
  }

  lemma HoistedIsShipped(tree: Tree, roots: seq<(Name, Path)>, copies: seq<Copy>, dest: Path, rel: Path, name: Name)
    requires Shipped(tree, roots, copies) && IsRoot(dest) && "node_modules" !in name
    requires Placed(dest, rel) in copies && rel != [] && rel[|rel| - 1] != "node_modules" && Lists(tree, rel, name)
    requires TreeLookup(tree, rel, |rel|, name) == Some(name)
    ensures Placed(dest, name) in copies <==> dest == DEST || (name, HELPER) in roots
  {
    hide Wanted, Mirrors;
    assert rel[..|rel|] == rel;
    FoundAt(tree, rel, |rel|, name);
    DependencyIsShipped(tree, roots, copies, dest, rel, name);
    TopOfHelper(tree, roots, copies, name);
  }

  // `a` nests `b` and `c` and lists both; `b` needs that `c`, and another `c` is hoisted.
  const LISTED: Tree := map[
    A := Package(Some([["b"], ["c"]])), B := Package(Some([["c"]])),
    NESTED_C := Package(Some([])), HOISTED_C := Package(Some([]))]

  lemma ListedTree()
    ensures Lists(LISTED, ["a"], ["c"]) && SRC + Below(["a"], ["c"]) in LISTED
  {
    assert SRC + Below(["a"], ["c"]) == NESTED_C;
    assert |A| == 2 && |B| == 4 && A[1] == "a" && HOISTED_C[1] == "c";
  }

  /** There the nested `c` is shipped in its place; where `a` does not list it, it is not (`SiblingDependencyIsMissed`). */
  lemma ListedSiblingIsShipped(copies: seq<Copy>)
    requires Shipped(LISTED, [(["a"], DEST)], copies)
    ensures Placed(DEST, Below(["a"], ["c"])) in copies
  {
    var roots := [(["a"], DEST)];
    ListedTree();
    hide Mirrors, LISTED, DependsOn, Reaches;
    WantedIsClosed(LISTED, roots);
    assert RootCopy(roots[0]) == Placed(DEST, ["a"]);
    hide Wanted;
    DependencyIsShipped(LISTED, roots, copies, DEST, ["a"], ["c"]);
  }

  // A helper package whose dependency is hoisted and not a root of its own.
  const H: Path := SRC + ["h"]
  const D: Path := SRC + ["d"]
  const HELPED: Tree := map[H := Package(Some([["d"]])), D := Package(Some([]))]

  /** Its dependency is copied to the server's side, where the helper cannot find it. */
  lemma HelperMissesHoisted(copies: seq<Copy>)
    requires Shipped(HELPED, [(["h"], HELPER)], copies)
    ensures Copy(D, DEST + ["d"]) in copies
    ensures TreeLookup(HELPED, ["h"], 1, ["d"]) == Some(["d"])
    ensures ShippedLookup(copies, HELPER, ["h"], 1, ["d"]).None?
  {
    var roots := [(["h"], HELPER)];
    HelpedTree();
    HelpedCopies(copies);
    hide *;
    DependencyIsShipped(HELPED, roots, copies, HELPER, ["h"], ["d"]);
    HelpedLookup(copies);
  }

  lemma HelpedTree()
    ensures SRC + Below(["h"], ["d"]) !in HELPED && SRC + ["d"] == D && D in HELPED
    ensures SRC + ["h"] in HELPED && HELPED[SRC + ["h"]].manifest == Some([["d"]])
    ensures TreeLookup(HELPED, ["h"], 1, ["d"]) == Some(["d"])
  {
    assert ["h"][..1] == ["h"] && |SRC + Below(["h"], ["d"])| == 4;
    assert H[1] == "h" && D[1] == "d";
  }

  lemma HelpedCopies(copies: seq<Copy>)
    requires Shipped(HELPED, [(["h"], HELPER)], copies)
    ensures Copy(SRC + ["h"], HELPER + ["h"]) in copies
  {
    var roots := [(["h"], HELPER)];
    hide Wanted, Mirrors;
    WantedIsClosed(HELPED, roots);
    assert RootCopy(roots[0]) == Copy(SRC + ["h"], HELPER + ["h"]);
  }

  lemma HelpedLookup(copies: seq<Copy>)
    requires Shipped(HELPED, [(["h"], HELPER)], copies)
    requires SRC + Below(["h"], ["d"]) !in HELPED
    ensures ShippedLookup(copies, HELPER, ["h"], 1, ["d"]).None?
  {
    assert ["h"][..1] == ["h"] && "d" != "h";
    hide Wanted, Mirrors, HELPED, Below, IsTarget;
    TopOfHelper(HELPED, [(["h"], HELPER)], copies, ["d"]);
    TargetHasSource(HELPED, copies, HELPER, ["d"]);
    TargetHasSource(HELPED, copies, HELPER, Below(["h"], ["d"]));
  }
}
