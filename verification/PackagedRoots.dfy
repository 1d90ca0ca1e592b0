/**
 The packages the copy script starts from, and where they end up
 (scripts/copy-native-modules.ts:53-116).
 */
module PackagedRoots {
  import opened Results
  import opened NativeModules
  import opened ShippedModules

  /** `names.filter(name => name.startsWith(prefix))`, each below its scope, for the helper. */
  function Scoped(scope: string, prefix: string, names: seq<string>): seq<(Name, Path)> {
    if names == [] then []
    else (if prefix <= names[0] then [([scope, names[0]], HELPER)] else []) + Scoped(scope, prefix, names[1..])
  }

  lemma {:induction false} ScopedMembers(scope: string, prefix: string, names: seq<string>, r: (Name, Path))
    ensures r in Scoped(scope, prefix, names)
       <==> r.1 == HELPER && |r.0| == 2 && r.0[0] == scope && r.0[1] in names && prefix <= r.0[1]
  {
    if names != [] {
      ScopedMembers(scope, prefix, names[1..], r);
      assert names == [names[0]] + names[1..];
      if |r.0| == 2 { assert r.0 == [r.0[0], r.0[1]]; }
    }
  }

  const SERVER_ROOTS: seq<(Name, Path)> :=
    [(["trash"], DEST), (["pdfjs-dist"], DEST), (["@napi-rs", "canvas"], DEST)]
  const HELPER_ROOTS: seq<(Name, Path)> :=
    [(["@trycua", "cua-driver"], HELPER), (["@ubjs", "core"], HELPER), (["@ubjs", "node"], HELPER)]

  /** The calls of the script, given what the two scopes hold. */
  function ScriptRoots(trycua: seq<string>, ubjs: seq<string>): seq<(Name, Path)> {
    SERVER_ROOTS + HELPER_ROOTS + Scoped("@trycua", "cua-driver-", trycua) + Scoped("@ubjs", "node-", ubjs)
  }

  /** The packages that belong to the helper: its driver with the platform's binaries, and the bindings. */
  predicate IsHelperPackage(trycua: seq<string>, ubjs: seq<string>, name: Name) {
    || name == ["@trycua", "cua-driver"]
    || name == ["@ubjs", "core"]
    || name == ["@ubjs", "node"]
    || (|name| == 2 && name[0] == "@trycua" && name[1] in trycua && "cua-driver-" <= name[1])
    || (|name| == 2 && name[0] == "@ubjs" && name[1] in ubjs && "node-" <= name[1])
  }

  lemma RootNames(trycua: seq<string>, ubjs: seq<string>, name: Name)
    ensures (name, HELPER) in ScriptRoots(trycua, ubjs) <==> IsHelperPackage(trycua, ubjs, name)
    ensures (name, DEST) in ScriptRoots(trycua, ubjs)
       <==> name == ["trash"] || name == ["pdfjs-dist"] || name == ["@napi-rs", "canvas"]
  {
    DifferentRoots();
    ScopedMembers("@trycua", "cua-driver-", trycua, (name, HELPER));
    ScopedMembers("@ubjs", "node-", ubjs, (name, HELPER));
    ScopedMembers("@trycua", "cua-driver-", trycua, (name, DEST));
    ScopedMembers("@ubjs", "node-", ubjs, (name, DEST));
    hide Scoped, DEST, HELPER;
  }

  lemma DifferentRoots()
    ensures DEST != HELPER
  {
    assert DEST[0] != HELPER[0];
  }

  /**
   On success the top of the helper's modules holds exactly the helper's packages, and the packages
   with resources of their own are at the top of the server's.
   */
  lemma PackagesArePlaced(tree: Tree, trycua: seq<string>, ubjs: seq<string>, copies: seq<Copy>, name: Name)
    requires Shipped(tree, ScriptRoots(trycua, ubjs), copies) && "node_modules" !in name
    ensures Copy(["node_modules"] + name, ["cua-helper-dist", "node_modules"] + name) in copies
       <==> IsHelperPackage(trycua, ubjs, name)
    ensures name == ["trash"] || name == ["pdfjs-dist"] || name == ["@napi-rs", "canvas"] ==>
              Copy(["node_modules"] + name, ["server-dist", "node_modules"] + name) in copies
  {
    RootNames(trycua, ubjs, name);
    hide ScriptRoots, IsHelperPackage, Wanted, Mirrors;
    TopOfHelper(tree, ScriptRoots(trycua, ubjs), copies, name);
    if (name, DEST) in ScriptRoots(trycua, ubjs) {
      WantedIsClosed(tree, ScriptRoots(trycua, ubjs));
      RootIsShipped(tree, ScriptRoots(trycua, ubjs), copies, (name, DEST));
    }
  }

  lemma RootIsShipped(tree: Tree, roots: seq<(Name, Path)>, copies: seq<Copy>, root: (Name, Path))
    requires Shipped(tree, roots, copies) && root in roots
    ensures RootCopy(root) in copies
  {
    hide Reaches, Mirrors;
    var k :| 0 <= k < |roots| && roots[k] == root;
    ReachesItself(tree, RootCopy(root));
    assert Wanted(tree, roots, |roots|, RootCopy(root));
  }

  /**
   A package shipped with the helper finds a hoisted dependency it lists exactly when that is one
   of the helper's packages; any other goes to the server's modules.
   */
  lemma HoistedForHelper(
      tree: Tree, trycua: seq<string>, ubjs: seq<string>, copies: seq<Copy>, rel: Path, name: Name)
    requires var roots := ScriptRoots(trycua, ubjs); Shipped(tree, roots, copies) && PlainNames(tree, roots)
    requires Copy(["node_modules"] + rel, ["cua-helper-dist", "node_modules"] + rel) in copies
    requires rel != [] && rel[|rel| - 1] != "node_modules" && Lists(tree, rel, name)
    requires TreeLookup(tree, rel, |rel|, name) == Some(name)
    ensures ShippedLookup(copies, ["cua-helper-dist", "node_modules"], rel, |rel|, name) == Some(name)
       <==> IsHelperPackage(trycua, ubjs, name)
    ensures Copy(["node_modules"] + name, ["server-dist", "node_modules"] + name) in copies
  {
    var roots := ScriptRoots(trycua, ubjs);
    DifferentRoots();
    RootNames(trycua, ubjs, name);
    PlainName(tree, roots, rel, name);
    assert Placed(HELPER, rel) in copies;
    assert ["cua-helper-dist", "node_modules"] == HELPER && ["server-dist", "node_modules"] == DEST;
    hide *;
    HelperFindsRoots(tree, roots, copies, rel, name);
    HoistedToServer(tree, roots, copies, rel, name);
  }

  lemma HelperFindsRoots(tree: Tree, roots: seq<(Name, Path)>, copies: seq<Copy>, rel: Path, name: Name)
    requires Shipped(tree, roots, copies) && PlainNames(tree, roots)
    requires Placed(HELPER, rel) in copies && rel != [] && rel[|rel| - 1] != "node_modules" && Lists(tree, rel, name)
    requires TreeLookup(tree, rel, |rel|, name) == Some(name)
    ensures ShippedLookup(copies, HELPER, rel, |rel|, name) == Some(name) <==> (name, HELPER) in roots
  {
    DifferentRoots();
    assert IsRoot(HELPER);
    hide *;
    ShippedTreeResolves(tree, roots, copies, HELPER, rel, name);
  }

  lemma PlainName(tree: Tree, roots: seq<(Name, Path)>, rel: Path, name: Name)
    requires PlainNames(tree, roots) && Lists(tree, rel, name)
    ensures "node_modules" !in name
  {
  }

  lemma HoistedToServer(tree: Tree, roots: seq<(Name, Path)>, copies: seq<Copy>, rel: Path, name: Name)
    requires Shipped(tree, roots, copies)
    requires Placed(HELPER, rel) in copies && rel != [] && rel[|rel| - 1] != "node_modules" && Lists(tree, rel, name)
    requires TreeLookup(tree, rel, |rel|, name) == Some(name) && "node_modules" !in name
    ensures Copy(SRC + name, DEST + name) in copies
  {
    hide Wanted, Mirrors;
    assert rel[..|rel|] == rel;
    FoundAt(tree, rel, |rel|, name);
    assert SRC + Below(rel, name) !in tree by { NotNested(tree, rel, name); }
    DependencyIsShipped(tree, roots, copies, HELPER, rel, name);
  }

  /** What is found hoisted is not nested in the package itself. */
  lemma NotNested(tree: Tree, rel: Path, name: Name)
    requires TreeLookup(tree, rel, |rel|, name) == Some(name) && rel != [] && rel[|rel| - 1] != "node_modules"
    ensures SRC + Below(rel, name) !in tree
  {
    assert rel[..|rel|] == rel;
    assert |Below(rel, name)| != |name|;
  }
}
