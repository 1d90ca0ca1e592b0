/**
 The files the updater works on: a map from path to content that nobody else writes to. Any call
 may fail, which is a nondeterministic choice, so what is proved holds whatever fails; in a
 reliable environment none does.
 */
module LocalFiles {
  import opened Results
  import opened Sequences

  type Path = string
  type Files = map<Path, seq<Byte>>
  // SHA-256, which nothing here depends on.
  type Hash = seq<Byte> -> string

  /** A released file as a manifest describes it. */
  datatype Artifact = Artifact(name: string, size: nat, sha256: string)

  predicate Fits(bytes: seq<Byte>, artifact: Artifact, hash: Hash) {
    |bytes| == artifact.size && hash(bytes) == artifact.sha256
  }

  predicate Matches(files: Files, path: Path, artifact: Artifact, hash: Hash) {
    path in files && Fits(files[path], artifact, hash)
  }

  /** Outside `paths` nothing changed. */
  ghost predicate Untouched(before: Files, after: Files, paths: set<Path>) {
    forall p :: p !in paths ==> (p in before <==> p in after) && (p in before && p in after ==> before[p] == after[p])
  }

  /** A path is as it was, gone, or holds a verified artifact. */
  ghost predicate Safe(before: Files, after: Files, path: Path, artifact: Artifact, hash: Hash) {
    || path !in after
    || (path in before && before[path] == after[path])
    || Matches(after, path, artifact, hash)
  }

  datatype Creation = Created | Exists | Refused

  class FileSystem {
    var files: Files
    const reliable: bool

    constructor (files: Files, reliable: bool)
      ensures this.files == files && this.reliable == reliable
    {
      this.files := files;
      this.reliable := reliable;
    }

    /** `fs.rm(path, { force: true })` */
    method Remove(path: Path) returns (ok: bool)
      modifies this
      ensures files == if ok then old(files) - {path} else old(files)
      ensures reliable ==> ok
    {
      var fails := Fault(reliable);
      ok := !fails;
      if ok { files := files - {path}; }
    }

    method Rename(from: Path, to: Path) returns (ok: bool)
      modifies this
      ensures ok ==> from in old(files) && files == (old(files) - {from})[to := old(files)[from]]
      ensures !ok ==> files == old(files)
      ensures reliable && from in old(files) ==> ok
    {
      var fails := Fault(reliable);
      ok := !fails && from in files;
      if ok { files := (files - {from})[to := files[from]]; }
    }

    /** `fs.open(path, "wx")`: refuses to open a file that exists. */
    method CreateExclusive(path: Path) returns (r: Creation)
      modifies this
      ensures r.Exists? <==> path in old(files)
      ensures files == if r.Created? then old(files)[path := []] else old(files)
      ensures reliable && path !in old(files) ==> r.Created?
    {
      if path in files { return Exists; }
      var fails := Fault(reliable);
      if fails { return Refused; }
      files := files[path := []];
      r := Created;
    }

    /** Appends through an open handle; a failed write may leave part of the bytes. */
    method Append(path: Path, bytes: seq<Byte>) returns (ok: bool)
      requires path in files
      modifies this
      ensures files.Keys == old(files).Keys && files == old(files)[path := files[path]]
      ensures ok ==> files[path] == old(files)[path] + bytes
      ensures reliable ==> ok
    {
      var fails := Fault(reliable);
      ok := !fails;
      var written := |bytes|;
      if !ok { written :| 0 <= written <= |bytes|; }
      files := files[path := files[path] + bytes[..written]];
    }

    /** `fs.writeFile(path, bytes, { flag: "wx" })` */
    method WriteNew(path: Path, bytes: seq<Byte>) returns (ok: bool)
      modifies this
      ensures Untouched(old(files), files, {path})
      ensures path in old(files) ==> !ok && files == old(files)
      ensures ok ==> path in files && files[path] == bytes
      ensures reliable && path !in old(files) ==> ok
    {
      var created := CreateExclusive(path);
      if !created.Created? { return false; }
      ok := Append(path, bytes);
    }

    /** `verifyDesktopArtifact`: a file that cannot be read is reported as not matching. */
    method Verify(path: Path, artifact: Artifact, hash: Hash) returns (ok: bool, unreadable: bool)
      ensures ok <==> !unreadable && Matches(files, path, artifact, hash)
      ensures ok <==> !unreadable && path in files && |files[path]| == artifact.size && hash(files[path]) == artifact.sha256
      ensures reliable ==> !unreadable
    {
      unreadable := Fault(reliable);
      ok := !unreadable && Matches(files, path, artifact, hash);
    }
  }
}
