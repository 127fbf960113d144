// The recursive file loader of DescriptorPool: BuildFile loads a file's imports from the
// fallback database before the file itself, with a list of pending files to stop cycles
// and a set of names known to be bad.
module FileLoader {

  // A file in the database: its imports, and whether everything else about it builds.
  datatype Proto = Proto(deps: seq<string>, builds: bool)
  type Database = map<string, Proto>

  ghost predicate NoRepeat(p: seq<string>) {
    forall i, j :: 0 <= i < j < |p| ==> p[i] != p[j]
  }

  // Present, imports nothing twice, and otherwise valid.
  ghost predicate Sound(db: Database, f: string) {
    f in db && db[f].builds && NoRepeat(db[f].deps)
  }

  // The same, written out.
  ghost predicate Acceptable(db: Database, f: string) {
    f in db && db[f].builds &&
    forall i, j :: 0 <= i < |db[f].deps| && 0 <= j < |db[f].deps| && db[f].deps[i] == db[f].deps[j] ==> i == j
  }

  predicate SelfImport(db: Database, f: string) {
    f in db && f in db[f].deps
  }

  // ---- Import paths ----

  predicate Imports(db: Database, f: string, g: string) {
    f in db && g in db[f].deps
  }

  predicate Step(db: Database, p: seq<string>, i: int)
    requires 0 <= i < |p| - 1
  {
    Imports(db, p[i], p[i + 1])
  }

  predicate Moves(p: seq<string>, i: int)
    requires 0 <= i < |p| - 1
  {
    p[i] != p[i + 1]
  }

  // A chain of imports.
  ghost predicate Chain(db: Database, p: seq<string>) {
    p != [] && forall i :: 0 <= i < |p| - 1 ==> Step(db, p, i)
  }

  // A chain that never steps from a file to itself.
  ghost predicate Path(db: Database, p: seq<string>) {
    Chain(db, p) && forall i :: 0 <= i < |p| - 1 ==> Moves(p, i)
  }

  // It ends in a sound file and never comes back to one it has left.
  ghost predicate Clean(db: Database, p: seq<string>)
    requires p != []
  {
    Sound(db, p[|p| - 1]) && NoRepeat(p)
  }

  ghost predicate Loadable(db: Database, f: string) {
    forall p :: Path(db, p) && p[0] == f ==> Clean(db, p)
  }

  // What the recursive-import check means to enforce: the same for every chain, so that not
  // even a file importing itself is accepted.
  ghost predicate StrictlyLoadable(db: Database, f: string) {
    forall p :: Chain(db, p) && p[0] == f ==> Clean(db, p)
  }

  ghost predicate NoSelfImport(db: Database, f: string) {
    forall p :: Path(db, p) && p[0] == f ==> !SelfImport(db, p[|p| - 1])
  }

  lemma PathTail(db: Database, p: seq<string>)
    requires Path(db, p) && |p| > 1
    ensures Path(db, p[1..]) && p[0] in db && p[1] in db[p[0]].deps && p[0] != p[1]
  {
    assert Step(db, p, 0) && Moves(p, 0);
    forall i | 0 <= i < |p| - 2 ensures Step(db, p[1..], i) && Moves(p[1..], i) {
      assert Step(db, p, i + 1) && Moves(p, i + 1);
    }
  }

  lemma PathCons(db: Database, f: string, p: seq<string>)
    requires Path(db, p) && Imports(db, f, p[0]) && f != p[0]
    ensures Path(db, [f] + p)
  {
    var q := [f] + p;
    forall i | 0 <= i < |q| - 1 ensures Step(db, q, i) && Moves(q, i) {
      if i > 0 { assert Step(db, p, i - 1) && Moves(p, i - 1); }
    }
  }

  lemma PathSnoc(db: Database, p: seq<string>, g: string)
    requires Path(db, p) && Imports(db, p[|p| - 1], g) && p[|p| - 1] != g
    ensures Path(db, p + [g])
  {
    var q := p + [g];
    forall i | 0 <= i < |q| - 1 ensures Step(db, q, i) && Moves(q, i) {
      if i < |p| - 1 { assert Step(db, p, i) && Moves(p, i); }
    }
  }

  lemma PathDrop(db: Database, p: seq<string>, k: nat)
    requires Path(db, p) && k < |p|
    ensures Path(db, p[k..])
  {
    forall i | 0 <= i < |p[k..]| - 1 ensures Step(db, p[k..], i) && Moves(p[k..], i) {
      assert Step(db, p, k + i) && Moves(p, k + i);
    }
  }

  // A path from f through a loadable import does not come back to f: following it again
  // from its second file would repeat that one.
  lemma PathDoesNotReturn(db: Database, p: seq<string>, j: nat)
    requires Path(db, p) && 0 < j < |p| && Loadable(db, p[1])
    ensures p[j] != p[0]
  {
    if p[j] == p[0] {
      RoundTripRepeats(db, p, j);
    }
  }

  lemma RoundTripRepeats(db: Database, p: seq<string>, j: nat)
    requires Path(db, p) && 0 < j < |p| && p[j] == p[0]
    ensures var r := p[1..j + 1] + [p[1]]; Path(db, r) && r[0] == p[1] && !NoRepeat(r)
  {
    var q := p[1..j + 1];
    forall i | 0 <= i < |q| - 1 ensures Step(db, q, i) && Moves(q, i) {
      assert Step(db, p, i + 1) && Moves(p, i + 1);
    }
    assert Step(db, p, 0) && Moves(p, 0);
    PathSnoc(db, q, p[1]);
    var r := q + [p[1]];
    assert r[0] == r[j];
  }

  lemma PathThroughImportIsClean(db: Database, p: seq<string>)
    requires Path(db, p) && |p| > 1 && Loadable(db, p[1])
    ensures Clean(db, p)
  {
    PathTail(db, p);
    var q := p[1..];
    assert Clean(db, q);
    forall i, j | 0 <= i < j < |p| ensures p[i] != p[j] {
      if i > 0 {
        assert q[i - 1] == p[i] && q[j - 1] == p[j];
      } else {
        PathDoesNotReturn(db, p, j);
      }
    }
  }

  lemma TailOfCleanPath(db: Database, f: string, p: seq<string>)
    requires p != [] && Clean(db, [f] + p)
    ensures Clean(db, p)
  {
    var q := [f] + p;
    forall i, j | 0 <= i < j < |p| ensures p[i] != p[j] {
      assert q[i + 1] == p[i] && q[j + 1] == p[j];
    }
  }

  // A file is loadable exactly when it is sound and its other imports are loadable.
  lemma LoadableFromImports(db: Database, f: string)
    requires Sound(db, f) && forall d :: d in db[f].deps && d != f ==> Loadable(db, d)
    ensures Loadable(db, f)
  {
    forall p | Path(db, p) && p[0] == f ensures Clean(db, p) {
      if |p| > 1 {
        PathTail(db, p);
        PathThroughImportIsClean(db, p);
      }
    }
  }

  lemma ImportsAreLoadable(db: Database, f: string)
    requires Loadable(db, f)
    ensures Sound(db, f) && forall d :: d in db[f].deps && d != f ==> Loadable(db, d)
  {
    assert Path(db, [f]) && Clean(db, [f]);
    forall d | d in db[f].deps && d != f ensures Loadable(db, d) {
      forall p | Path(db, p) && p[0] == d ensures Clean(db, p) {
        PathCons(db, f, p);
        TailOfCleanPath(db, f, p);
      }
    }
  }

  lemma LoadableExactly(db: Database, f: string)
    ensures Loadable(db, f) <==> Sound(db, f) && forall d :: d in db[f].deps && d != f ==> Loadable(db, d)
  {
    if Loadable(db, f) {
      ImportsAreLoadable(db, f);
    } else if Sound(db, f) && forall d :: d in db[f].deps && d != f ==> Loadable(db, d) {
      LoadableFromImports(db, f);
    }
  }

  // A file met again while it is pending, other than through its own import of itself, is
  // on a cycle.
  lemma PendingAgainIsACycle(db: Database, pending: seq<string>, f: string)
    requires Path(db, pending + [f]) && f in pending
    ensures !Loadable(db, f)
  {
    var i :| 0 <= i < |pending| && pending[i] == f;
    var p := (pending + [f])[i..];
    PathDrop(db, pending + [f], i);
    assert p[0] == p[|p| - 1] == f && |p| > 1;
    assert !NoRepeat(p);
  }

  // ---- What the check was meant to enforce, and when the code does ----

  lemma EndDoesNotImportItself(db: Database, p: seq<string>)
    requires Path(db, p) && NoSelfImport(db, p[0])
    ensures !SelfImport(db, p[|p| - 1])
  {}

  lemma ChainInit(db: Database, q: seq<string>, g: string)
    requires q != [] && Chain(db, q + [g])
    ensures Chain(db, q) && Imports(db, q[|q| - 1], g)
  {
    var p := q + [g];
    assert Step(db, p, |q| - 1);
    forall i | 0 <= i < |q| - 1 ensures Step(db, q, i) {
      assert Step(db, p, i);
    }
  }

  lemma ChainStep(db: Database, q: seq<string>, g: string)
    requires Path(db, q) && NoSelfImport(db, q[0]) && Imports(db, q[|q| - 1], g)
    ensures Path(db, q + [g])
  {
    EndDoesNotImportItself(db, q);
    PathSnoc(db, q, g);
  }

  lemma {:induction false} ChainWithoutSelfImportIsPath(db: Database, p: seq<string>)
    requires Chain(db, p) && NoSelfImport(db, p[0])
    ensures Path(db, p)
    decreases |p|
  {
    if |p| > 1 {
      var q, g := p[..|p| - 1], p[|p| - 1];
      assert p == q + [g];
      ChainInit(db, q, g);
      ChainWithoutSelfImportIsPath(db, q);
      ChainStep(db, q, g);
    }
  }

  lemma SelfImportRepeats(db: Database, p: seq<string>)
    requires Path(db, p) && SelfImport(db, p[|p| - 1])
    ensures var q := p + [p[|p| - 1]]; Chain(db, q) && q[0] == p[0] && !NoRepeat(q)
  {
    var q := p + [p[|p| - 1]];
    forall i | 0 <= i < |q| - 1 ensures Step(db, q, i) {
      if i < |p| - 1 { assert Step(db, p, i); }
    }
    assert q[|p| - 1] == q[|p|];
  }

  // A loadable file is strictly loadable exactly when no file it reaches imports itself.
  lemma StrictExactly(db: Database, f: string)
    ensures StrictlyLoadable(db, f) <==> Loadable(db, f) && NoSelfImport(db, f)
  {
    if StrictlyLoadable(db, f) {
      forall p | Path(db, p) && p[0] == f ensures !SelfImport(db, p[|p| - 1]) {
        var g := p[|p| - 1];
        if SelfImport(db, g) { SelfImportRepeats(db, p); }
      }
    }
    if Loadable(db, f) && NoSelfImport(db, f) {
      forall p | Chain(db, p) && p[0] == f ensures Clean(db, p) {
        ChainWithoutSelfImportIsPath(db, p);
      }
    }
  }

  // A database whose only file imports itself: the code loads it, and marks it bad.
  lemma SelfImportIsLoadable()
    ensures var db := map["a" := Proto(["a"], true)];
            Loadable(db, "a") && !StrictlyLoadable(db, "a") && SelfImport(db, "a")
  {
    var db := map["a" := Proto(["a"], true)];
    LoadableFromImports(db, "a");
    var p := ["a", "a"];
    assert Step(db, p, 0);
    assert Chain(db, p) && p[0] == p[1] && !NoRepeat(p);
  }

  function Names(p: seq<string>): set<string> { set f | f in p }

  class Pool {
    const db: Database
    var files: set<string>
    var knownBadFiles: set<string>
    var pendingFiles: seq<string>

    // Only loadable files are loaded; a loaded file is known as bad exactly when it imports
    // itself, and a name known as bad that is not loaded is not loadable, unless it imports
    // itself and is still being built.
    ghost predicate Inv(pending: seq<string>)
      reads this
    {
      && (forall f :: f in files ==> Loadable(db, f) && (f in knownBadFiles <==> SelfImport(db, f)))
      && (forall f :: f in knownBadFiles && f !in files ==> !Loadable(db, f) || (f in pending && SelfImport(db, f)))
      && (forall f :: f in pending ==> f in db && f !in files)
      && NoRepeat(pending)
    }

    ghost predicate Valid()
      reads this
    {
      Inv(pendingFiles)
    }

    constructor (db: Database)
      ensures Valid() && this.db == db && files == {} && knownBadFiles == {} && pendingFiles == []
    {
      this.db := db;
      files, knownBadFiles, pendingFiles := {}, {}, [];
    }

    // How the next name is reached from the files being built.
    ghost predicate Reached(name: string)
      reads this
    {
      || pendingFiles == []
      || (pendingFiles[|pendingFiles| - 1] == name && SelfImport(db, name))
      || Path(db, pendingFiles + [name])
    }

    // Loads a name exactly when it is loadable and not itself being built.
    method TryFindFileInFallbackDatabase(name: string) returns (ok: bool)
      requires Valid() && Reached(name) && name !in files
      modifies this
      ensures Valid() && pendingFiles == old(pendingFiles)
      ensures old(files) <= files && old(knownBadFiles) <= knownBadFiles
      ensures ok <==> Loadable(db, name) && name !in pendingFiles
      ensures ok <==> name in files
      ensures !ok ==> name in knownBadFiles
      decreases |db.Keys - Names(pendingFiles)|, 1
    {
      if name in knownBadFiles {
        return false;
      }
      ok := name in db;
      if ok {
        ok := BuildFile(name);
      } else if Loadable(db, name) {
        ImportsAreLoadable(db, name);
      }
      if !ok {
        knownBadFiles := knownBadFiles + {name};
      }
    }

    // Builds a file from the database: its imports first, then the file itself.
    method BuildFile(name: string) returns (ok: bool)
      requires Valid() && Reached(name) && name in db && name !in files
      modifies this
      ensures Valid() && pendingFiles == old(pendingFiles)
      ensures old(files) <= files && old(knownBadFiles) <= knownBadFiles
      ensures ok <==> Loadable(db, name) && name !in pendingFiles
      ensures ok <==> name in files
      ensures name in pendingFiles ==> !Loadable(db, name) || SelfImport(db, name)
      decreases |db.Keys - Names(pendingFiles)|, 0
    {
      for i := 0 to |pendingFiles|
        invariant name !in pendingFiles[..i]
      {
        if pendingFiles[i] == name {
          if Path(db, pendingFiles + [name]) { PendingAgainIsACycle(db, pendingFiles, name); }
          return false;
        }
      }
      LoadImports(name);
      ok := CheckImports(name);
      LoadableExactly(db, name);
      if ok {
        files := files + {name};
      }
    }

    // The import list as BuildFile checks it: no name twice, and every file loaded by now.
    // The file being built is already in the table when this runs, so an import of itself
    // passes.
    method CheckImports(name: string) returns (ok: bool)
      requires name in db
      ensures ok <==> Sound(db, name) && forall d :: d in db[name].deps && d != name ==> d in files
    {
      var deps := db[name].deps;
      ok := db[name].builds;
      var seen: set<string> := {};
      for i := 0 to |deps|
        invariant seen == Names(deps[..i])
        invariant ok <==> db[name].builds && NoRepeat(deps[..i]) &&
                          forall d :: d in deps[..i] && d != name ==> d in files
      {
        var d := deps[i];
        assert deps[..i + 1] == deps[..i] + [d];
        if d in seen {
          ok := false;
        }
        seen := seen + {d};
        if d !in files && d != name {
          ok := false;
        }
      }
      assert deps[..|deps|] == deps;
    }

    // Tries every import that is not loaded yet, with the file itself pending.
    method LoadImports(name: string)
      requires Valid() && Reached(name) && name in db && name !in files && name !in pendingFiles
      modifies this
      ensures pendingFiles == old(pendingFiles) && Inv(pendingFiles + [name])
      ensures old(files) <= files && old(knownBadFiles) <= knownBadFiles
      ensures forall d :: d in db[name].deps && d != name ==> (d in files <==> Loadable(db, d))
      ensures SelfImport(db, name) ==> name in knownBadFiles
      decreases |db.Keys - Names(pendingFiles)|, 0, 0
    {
      ghost var was, now := pendingFiles, pendingFiles + [name];
      assert Inv(now) && Path(db, now);
      assert db.Keys - Names(now) == (db.Keys - Names(was)) - {name};
      pendingFiles := pendingFiles + [name];
      TryImports(name);
      pendingFiles := pendingFiles[..|pendingFiles| - 1];
      assert pendingFiles == was;
    }

    // The loop over the imports of the file at the end of the pending list.
    method TryImports(name: string)
      requires Valid() && Path(db, pendingFiles) && pendingFiles[|pendingFiles| - 1] == name && name in db
      modifies this
      ensures Valid() && pendingFiles == old(pendingFiles)
      ensures old(files) <= files && old(knownBadFiles) <= knownBadFiles
      ensures forall d :: d in db[name].deps && d != name && Loadable(db, d) ==> d in files
      ensures SelfImport(db, name) ==> name in knownBadFiles
      decreases |db.Keys - Names(pendingFiles)|, 3
    {
      var deps := db[name].deps;
      for i := 0 to |deps|
        invariant Valid() && pendingFiles == old(pendingFiles)
        invariant old(files) <= files && old(knownBadFiles) <= knownBadFiles
        invariant forall k :: 0 <= k < i && deps[k] != name && Loadable(db, deps[k]) ==> deps[k] in files
        invariant forall k :: 0 <= k < i && deps[k] == name ==> name in knownBadFiles
      {
        LoadImport(name, deps[i]);
      }
    }

    // One import of the file at the end of the pending list.
    method LoadImport(name: string, d: string)
      requires Valid() && Path(db, pendingFiles) && pendingFiles[|pendingFiles| - 1] == name && Imports(db, name, d)
      modifies this
      ensures Valid() && pendingFiles == old(pendingFiles)
      ensures old(files) <= files && old(knownBadFiles) <= knownBadFiles
      ensures d != name ==> (d in files <==> Loadable(db, d))
      ensures d == name ==> name in knownBadFiles
      decreases |db.Keys - Names(pendingFiles)|, 2
    {
      if d !in files {
        if d != name {
          PathSnoc(db, pendingFiles, d);
          if d in pendingFiles { PendingAgainIsACycle(db, pendingFiles, d); }
        }
        var _ := TryFindFileInFallbackDatabase(d);
      }
    }

    // The public query: loads the file if it can, and says whether it is loaded.
    method FindFileByName(name: string) returns (found: bool)
      requires Valid() && pendingFiles == []
      modifies this
      ensures Valid() && pendingFiles == [] && old(files) <= files
      ensures found <==> Loadable(db, name)
      ensures found <==> name in files
      ensures found && SelfImport(db, name) ==> name in knownBadFiles
      ensures (found <==> StrictlyLoadable(db, name)) <==> (found ==> NoSelfImport(db, name))
      ensures found ==> forall p :: Path(db, p) && p[0] == name ==> Acceptable(db, p[|p| - 1])
      ensures !Acceptable(db, name) ==> !found
    {
      if Loadable(db, name) { assert Path(db, [name]); }
      StrictExactly(db, name);
      if name in files {
        return true;
      }
      found := TryFindFileInFallbackDatabase(name);
    }

    // However the queries are ordered and repeated, remembering bad names never changes an
    // answer.
    method FindAll(names: seq<string>) returns (found: seq<bool>)
      requires Valid() && pendingFiles == []
      modifies this
      ensures Valid() && pendingFiles == []
      ensures |found| == |names| && forall i :: 0 <= i < |names| ==> (found[i] <==> Loadable(db, names[i]))
    {
      found := [];
      for i := 0 to |names|
        invariant Valid() && pendingFiles == []
        invariant |found| == i && forall k :: 0 <= k < i ==> (found[k] <==> Loadable(db, names[k]))
      {
        var r := FindFileByName(names[i]);
        found := found + [r];
      }
    }
  }
}
