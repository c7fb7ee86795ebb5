/** `collectPayloadFiles`: the recursive walk with its shared set of entered directories. */
module PayloadWalk {
  import opened Ordering
  import opened PortableFiles

  // ---- what the walk is meant to find ----

  ghost predicate InRootDirectory(fs: FileSystem, root: string, d: string) {
    d in fs && fs[d].Directory? && Within(root, d)
  }

  ghost predicate InRootFile(fs: FileSystem, root: string, f: string) {
    f in fs && fs[f].File? && Within(root, f)
  }

  ghost predicate Entry(fs: FileSystem, d: string, x: string) {
    d in fs && fs[d].Directory? && Real(x) in fs[d].entries
  }

  /** `trail` starts at `start` and descends through in-root directories only. */
  ghost predicate Trail(fs: FileSystem, root: string, start: string, trail: seq<string>) {
    && trail != [] && trail[0] == start
    && (forall i :: 0 <= i < |trail| - 1 ==> InRootDirectory(fs, root, trail[i]) && Entry(fs, trail[i], trail[i + 1]))
  }

  ghost predicate Reaches(fs: FileSystem, root: string, start: string, x: string) {
    exists trail: seq<string> :: Trail(fs, root, start, trail) && trail[|trail| - 1] == x
  }

  lemma ReachesItself(fs: FileSystem, root: string, start: string)
    ensures Reaches(fs, root, start, start)
  {
    assert Trail(fs, root, start, [start]);
  }

  lemma ReachesFurther(fs: FileSystem, root: string, start: string, d: string, x: string)
    requires InRootDirectory(fs, root, start) && Entry(fs, start, d) && Reaches(fs, root, d, x)
    ensures Reaches(fs, root, start, x)
  {
    var trail: seq<string> :| Trail(fs, root, d, trail) && trail[|trail| - 1] == x;
    var longer := [start] + trail;
    assert forall i :: 0 < i < |longer| ==> longer[i] == trail[i - 1];
    assert Trail(fs, root, start, longer);
  }

  class Walker {
    const fs: FileSystem
    const root: string
    /** The path directories entered so far, and the order they were read in. */
    var entered: set<string>
    ghost var readOrder: seq<string>
    /** Every file returned so far. */
    ghost var found: set<string>

    ghost predicate Valid()
      reads this
    {
      && PortableFiles.Sound(fs)
      && Distinct(readOrder) && (forall d :: d in entered <==> d in readOrder)
      && (forall d :: d in entered ==> InRootDirectory(fs, root, d))
    }

    /** Everything in-root behind a directory entry has been entered or found. */
    ghost predicate Handled(x: string)
      reads this
    {
      && (InRootDirectory(fs, root, x) ==> x in entered)
      && (InRootFile(fs, root, x) ==> x in found)
    }

    /** Every entered directory whose reading is over has all its entries handled. */
    ghost predicate Closed(busy: set<string>)
      reads this
    {
      forall d, x :: d in entered && d !in busy && Entry(fs, d, x) ==> Handled(x)
    }

    constructor (fs: FileSystem, root: string)
      requires PortableFiles.Sound(fs)
      ensures Valid() && entered == {} && found == {} && this.fs == fs && this.root == root
    {
      this.fs, this.root := fs, root;
      entered, readOrder, found := {}, [], {};
    }

    /** Walks what `target` leads to; `busy` are the directories whose reading is under way. */
    method Walk(target: Target, ghost busy: set<string>) returns (files: seq<string>)
      requires Valid() && Closed(busy) && (target.Real? ==> target.path in fs)
      modifies this
      ensures Valid() && Closed(busy)
      ensures old(entered) <= entered && old(readOrder) <= readOrder
      ensures forall f :: f in found <==> f in old(found) || f in files
      ensures target.Real? ==> Handled(target.path)
      ensures forall f :: f in files ==> InRootFile(fs, root, f) && target.Real? && Reaches(fs, root, target.path, f)
      ensures forall d :: d in entered && d !in old(entered) ==> target.Real? && Reaches(fs, root, target.path, d)
      decreases fs.Keys - entered, 1
    {
      if target.Nowhere? { return []; }
      var path := target.path;
      if !Within(root, path) { return []; }
      if fs[path].File? {
        found := found + {path};
        ReachesItself(fs, root, path);
        return [path];
      }
      if path in entered { return []; }
      entered := entered + {path};
      readOrder := readOrder + [path];
      ReachesItself(fs, root, path);
      files := WalkEntries(path, busy);
    }

    /** The entries of a directory just entered, in the order they are read. */
    method WalkEntries(path: string, ghost busy: set<string>) returns (files: seq<string>)
      requires Valid() && path in entered && Closed(busy + {path})
      modifies this
      ensures Valid() && Closed(busy)
      ensures old(entered) <= entered && old(readOrder) <= readOrder
      ensures forall f :: f in found <==> f in old(found) || f in files
      ensures forall f :: f in files ==> InRootFile(fs, root, f) && Reaches(fs, root, path, f)
      ensures forall d :: d in entered && d !in old(entered) ==> Reaches(fs, root, path, d)
      decreases fs.Keys - entered, 2
    {
      var entries := fs[path].entries;
      files := [];
      for i := 0 to |entries|
        invariant Valid() && Closed(busy + {path})
        invariant old(entered) <= entered && old(readOrder) <= readOrder
        invariant forall f :: f in found <==> f in old(found) || f in files
        invariant forall j :: 0 <= j < i && entries[j].Real? ==> Handled(entries[j].path)
        invariant forall f :: f in files ==> InRootFile(fs, root, f) && Reaches(fs, root, path, f)
        invariant forall d :: d in entered && d !in old(entered) ==> Reaches(fs, root, path, d)
      {
        assert entries[i] in entries;
        ghost var before := entered;
        var more := Walk(entries[i], busy + {path});
        forall d | d in entered && d !in before ensures Reaches(fs, root, path, d) {
          ReachesFurther(fs, root, path, entries[i].path, d);
        }
        forall f | f in more ensures Reaches(fs, root, path, f) { ReachesFurther(fs, root, path, entries[i].path, f); }
        files := files + more;
      }
      forall x | Entry(fs, path, x) ensures Handled(x) {
        var j :| 0 <= j < |entries| && entries[j] == Real(x);
      }
    }
  }

  // ---- the whole walk ----

  /** Once nothing is under way, every in-root directory a trail passes has been entered. */
  lemma {:induction false} TrailEntered(w: Walker, start: string, trail: seq<string>)
    requires w.Valid() && w.Closed({}) && w.Handled(start)
    requires Trail(w.fs, w.root, start, trail)
    ensures w.Handled(trail[|trail| - 1])
  {
    var n := |trail| - 1;
    if n > 0 {
      assert forall i :: 0 <= i < n ==> trail[..n][i] == trail[i];
      TrailEntered(w, start, trail[..n]);
      assert InRootDirectory(w.fs, w.root, trail[n - 1]) && Entry(w.fs, trail[n - 1], trail[n - 1 + 1]);
    }
  }

  /** What is at the requested path: nothing at all, or something that leads somewhere. */
  datatype Start = Absent | At(target: Target)

  datatype Result = AbsentPath | Files(files: seq<string>)

  /** `collectPayloadFiles`: an absent path is an error; otherwise the walk returns, as a set, exactly
      the in-root real files reachable through in-root directories. `dirs` are the directories in the
      order they are read: the reachable in-root ones, each once. */
  method CollectPayloadFiles(fs: FileSystem, root: string, start: Start) returns (r: Result, ghost dirs: seq<string>)
    requires PortableFiles.Sound(fs) && (start.At? && start.target.Real? ==> start.target.path in fs)
    ensures r.AbsentPath? <==> start.Absent?
    ensures r.Files? ==> forall f :: f in r.files <==>
      start.target.Real? && InRootFile(fs, root, f) && Reaches(fs, root, start.target.path, f)
    ensures Distinct(dirs)
    ensures r.Files? ==> forall d :: d in dirs <==>
      start.target.Real? && InRootDirectory(fs, root, d) && Reaches(fs, root, start.target.path, d)
  {
    if start.Absent? { return AbsentPath, []; }
    var walker := new Walker(fs, root);
    var files := walker.Walk(start.target, {});
    dirs := walker.readOrder;
    forall x | start.target.Real? && Reaches(fs, root, start.target.path, x) ensures walker.Handled(x) {
      var trail: seq<string> :| Trail(fs, root, start.target.path, trail) && trail[|trail| - 1] == x;
      TrailEntered(walker, start.target.path, trail);
    }
    r := Files(files);
  }
}
