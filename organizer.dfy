/**
 `organize_file` and `organize`, as functions from the filesystem before to the
 filesystem after and what happened. The `Janitor` class performs the same steps
 in place; the lemmas here state what those steps achieve.
 */
module Organizer {
  import opened Text
  import opened Timestamp
  import opened Config
  import opened Classifier
  import opened Collision
  import opened FileTree

  /** What the world supplies to one `organize_file` call: the clock reading the
      collision resolver takes, the time a created folder is stamped with, the
      reply typed at the prompt, and whether the move fails. */
  datatype Env = Env(clock: Instant, now: int, reply: string, moveRefused: bool)

  /** How one `organize_file` call ends. `Raised` is an exception that escapes it
      (the folder could not be made); a failed move is caught and logged. */
  datatype FileOutcome =
    | IgnoredName
    | SourceMissing
    | NoSuffix
    | Raised(error: OsError)
    | Declined
    | SourceVanished
    | Moved(target: Path)
    | MoveFailed(error: OsError)

  /** How one `organize` call ends. */
  datatype RunOutcome =
    | RootMissing
    | RootNotADirectory
    | NothingToOrganize
    | Finished
    | Aborted(at: Path, error: OsError)

  predicate Distinct<T(==)>(s: seq<T>)
  {
    forall i, j :: 0 <= i < j < |s| ==> s[i] != s[j]
  }

  /** `root / folder_name` for a file of this name. */
  function CategoryDir(c: Config, root: Path, name: string): Path
  {
    root + [DestinationFolder(c, Suffix(name))]
  }

  /** The destination `organize_file` settles on: the category folder and the same
      name, or the resolver's renamed path when that is taken. */
  function Destination(c: Config, root: Path, t: Tree, name: string, clock: Instant): Path
  {
    var dest := CategoryDir(c, root, name) + [name];
    if Exists(t, dest) then ResolveCollision(dest, clock) else dest
  }

  /** The three guards `organize_file` passes before it touches anything. */
  predicate PassesGuards(c: Config, t: Tree, src: Path)
  {
    Name(src) !in IgnoredFiles(c) && Exists(t, src) && Suffix(Name(src)) != ""
  }

  /** `organize_file(src)`. The source is never a directory: `organize` passes only
      regular files and the watcher only non-directory events. */
  function OrganizeFileSpec(c: Config, root: Path, interactive: bool, t: Tree, src: Path, env: Env): (Tree, FileOutcome)
    requires !IsDir(t, src)
  {
    var name := Name(src);
    if name in IgnoredFiles(c) then (t, IgnoredName)
    else if !Exists(t, src) then (t, SourceMissing)
    else if Suffix(name) == "" then (t, NoSuffix)
    else
      var (t1, made) := MkdirSpec(t, CategoryDir(c, root, name), env.now);
      if made.Failed? then (t1, Raised(made.error))
      else
        var dest := Destination(c, root, t1, name, env.clock);
        if interactive && !Affirmative(env.reply) then (t1, Declined)
        else if !Exists(t1, src) then (t1, SourceVanished)
        else
          var (t2, moved) := MoveSpec(t1, src, dest, env.moveRefused);
          if moved.Failed? then (t2, MoveFailed(moved.error))
          else (t2, Moved(MoveTarget(t1, src, dest)))
  }

  /** The ignored names, a missing source and a name without suffix leave the
      filesystem exactly as it was. */
  lemma GuardsChangeNothing(c: Config, root: Path, interactive: bool, t: Tree, src: Path, env: Env)
    requires !IsDir(t, src)
    requires !PassesGuards(c, t, src)
    ensures OrganizeFileSpec(c, root, interactive, t, src, env).0 == t
    ensures OrganizeFileSpec(c, root, interactive, t, src, env).1 in {IgnoredName, SourceMissing, NoSuffix}
  {
  }

  /** The folder is created before the prompt and the move, so once the guards pass
      and the folder could be made, it exists afterwards whatever the reply or the
      move's fate. The folder cannot be made exactly when the root is not a
      directory or something other than a directory already has its name. */
  lemma CategoryDirExistsAfterwards(c: Config, root: Path, interactive: bool, t: Tree, src: Path, env: Env)
    requires WellFormed(t) && !IsDir(t, src)
    requires PassesGuards(c, t, src)
    ensures var r := OrganizeFileSpec(c, root, interactive, t, src, env);
      var dir := CategoryDir(c, root, Name(src));
      && (r.1.Raised? <==> !IsDir(t, root) || (dir in t && t[dir].kind != Directory))
      && (!r.1.Raised? ==> IsDir(r.0, dir))
  {
    var dir := CategoryDir(c, root, Name(src));
    var r := OrganizeFileSpec(c, root, interactive, t, src, env);
    var m := MkdirSpec(t, dir, env.now);
    assert Parent(dir) == root;
    assert dir in t ==> IsDir(t, root);
    assert r.1.Raised? <==> m.1.Failed?;
    if m.1.Ok? {
      assert IsDir(m.0, dir);
      if r.1.Moved? {
        var dest := Destination(c, root, m.0, Name(src), env.clock);
        assert src in m.0 && m.0[src].kind != Directory;
        assert r.0 == MoveSpec(m.0, src, dest, env.moveRefused).0;
        MoveEffect(m.0, src, dest, env.moveRefused);
        assert dir != src;
        assert |MoveTarget(m.0, src, dest)| > |dir|;
      } else {
        assert r.0 == m.0;
      }
    }
  }

  /** After a move the source is gone, its entry sits at the destination chosen from
      the filesystem as it was (inside that destination, if it is a directory), and
      the source never names its own destination. */
  lemma MovedFileIsAtDestination(c: Config, root: Path, interactive: bool, t: Tree, src: Path, env: Env)
    requires !IsDir(t, src)
    requires OrganizeFileSpec(c, root, interactive, t, src, env).1.Moved?
    ensures var r := OrganizeFileSpec(c, root, interactive, t, src, env);
      var dest := Destination(c, root, t, Name(src), env.clock);
      && r.1.target == MoveTarget(t, src, dest)
      && r.1.target != src
      && src !in r.0
      && r.1.target in r.0 && r.0[r.1.target] == t[src]
  {
    var r := OrganizeFileSpec(c, root, interactive, t, src, env);
    var name := Name(src);
    var dir := CategoryDir(c, root, name);
    var m := MkdirSpec(t, dir, env.now);
    var t1 := m.0;
    var dest0 := dir + [name];
    assert Exists(t1, dest0) == Exists(t, dest0);
    var dest := Destination(c, root, t1, name, env.clock);
    assert dest == Destination(c, root, t, name, env.clock);
    assert IsDir(t1, dest) == IsDir(t, dest) by {
      if Exists(t, dest0) {
        ResolveCollisionShape(dest0, env.clock);
      }
      assert dest != dir;
    }
    var target := MoveTarget(t1, src, dest);
    assert target != src by {
      if !IsDir(t1, dest) {
        if Exists(t, dest0) {
          ResolveCollisionShape(dest0, env.clock);
          assert |Name(dest)| != |name|;
        }
      }
    }
    var mv := MoveSpec(t1, src, dest, env.moveRefused);
    assert r == (mv.0, Moved(target));
    MoveEffect(t1, src, dest, env.moveRefused);
  }

  /** Organizing a path a second time, after the first call moved it, does nothing. */
  lemma SecondCallDoesNothing(c: Config, root: Path, interactive: bool, t: Tree, src: Path, env: Env, again: Env)
    requires !IsDir(t, src)
    requires OrganizeFileSpec(c, root, interactive, t, src, env).1.Moved?
    ensures var t' := OrganizeFileSpec(c, root, interactive, t, src, env).0;
      !IsDir(t', src) && OrganizeFileSpec(c, root, interactive, t', src, again) == (t', SourceMissing)
  {
    MovedFileIsAtDestination(c, root, interactive, t, src, env);
  }

  /** An entry other than the source and the move target keeps its entry. */
  lemma OrganizeFileKeepsOthers(c: Config, root: Path, interactive: bool, t: Tree, src: Path, env: Env)
    requires !IsDir(t, src)
    ensures var r := OrganizeFileSpec(c, root, interactive, t, src, env);
      forall q :: q in t && q != src && (r.1.Moved? ==> q != r.1.target) ==> q in r.0 && r.0[q] == t[q]
  {
    var r := OrganizeFileSpec(c, root, interactive, t, src, env);
    if PassesGuards(c, t, src) {
      var name := Name(src);
      var m := MkdirSpec(t, CategoryDir(c, root, name), env.now);
      if m.1.Ok? && !(interactive && !Affirmative(env.reply)) && Exists(m.0, src) {
        var dest := Destination(c, root, m.0, name, env.clock);
        var mv := MoveSpec(m.0, src, dest, env.moveRefused);
        MoveEffect(m.0, src, dest, env.moveRefused);
        assert r.0 == mv.0;
        assert mv.1.Ok? ==> r.1 == Moved(MoveTarget(m.0, src, dest));
      } else {
        assert r.0 == m.0;
      }
    } else {
      assert r.0 == t;
    }
  }

  /** The only paths that appear are the category folder, as a directory, and the
      move target. */
  lemma OrganizeFileAddsOnly(c: Config, root: Path, interactive: bool, t: Tree, src: Path, env: Env)
    requires !IsDir(t, src)
    ensures var r := OrganizeFileSpec(c, root, interactive, t, src, env);
      forall q :: q in r.0 && q !in t ==>
        (q == CategoryDir(c, root, Name(src)) && r.0[q].kind == Directory) || (r.1.Moved? && q == r.1.target)
  {
    var r := OrganizeFileSpec(c, root, interactive, t, src, env);
    if PassesGuards(c, t, src) {
      var name := Name(src);
      var dir := CategoryDir(c, root, name);
      var m := MkdirSpec(t, dir, env.now);
      assert forall q :: q in m.0 && q !in t ==> q == dir && m.0[q].kind == Directory;
      if m.1.Ok? && !(interactive && !Affirmative(env.reply)) && Exists(m.0, src) {
        var dest := Destination(c, root, m.0, name, env.clock);
        var mv := MoveSpec(m.0, src, dest, env.moveRefused);
        MoveEffect(m.0, src, dest, env.moveRefused);
        assert r.0 == mv.0;
        assert mv.1.Ok? ==> r.1 == Moved(MoveTarget(m.0, src, dest));
        assert mv.1.Failed? ==> mv.0 == m.0;
      } else {
        assert r.0 == m.0;
      }
    } else {
      assert r.0 == t;
    }
  }

  /** A source that was not moved keeps its entry. */
  lemma OrganizeFileKeepsUnmoved(c: Config, root: Path, interactive: bool, t: Tree, src: Path, env: Env)
    requires !IsDir(t, src)
    ensures var r := OrganizeFileSpec(c, root, interactive, t, src, env);
      src in t && !r.1.Moved? ==> src in r.0 && r.0[src] == t[src]
  {
    var r := OrganizeFileSpec(c, root, interactive, t, src, env);
    if PassesGuards(c, t, src) {
      var name := Name(src);
      var m := MkdirSpec(t, CategoryDir(c, root, name), env.now);
      assert src in t ==> src in m.0 && m.0[src] == t[src];
      if m.1.Ok? && !(interactive && !Affirmative(env.reply)) && Exists(m.0, src) {
        var dest := Destination(c, root, m.0, name, env.clock);
        var mv := MoveSpec(m.0, src, dest, env.moveRefused);
        MoveEffect(m.0, src, dest, env.moveRefused);
        assert r.0 == mv.0;
        assert mv.1.Ok? ==> r.1.Moved?;
        assert mv.1.Failed? ==> mv.0 == m.0;
      } else {
        assert r.0 == m.0;
      }
    } else {
      assert r.0 == t;
    }
  }

  /** Nothing changes but the source, the category folder (only by being created)
      and, after a move, the target. */
  lemma OrganizeFileFrame(c: Config, root: Path, interactive: bool, t: Tree, src: Path, env: Env)
    requires !IsDir(t, src)
    ensures var r := OrganizeFileSpec(c, root, interactive, t, src, env);
      && (forall q :: q in t && q != src && (r.1.Moved? ==> q != r.1.target) ==> q in r.0 && r.0[q] == t[q])
      && (forall q :: q in r.0 && q !in t ==>
            (q == CategoryDir(c, root, Name(src)) && r.0[q].kind == Directory) || (r.1.Moved? && q == r.1.target))
      && (src in t && !r.1.Moved? ==> src in r.0 && r.0[src] == t[src])
  {
    OrganizeFileKeepsOthers(c, root, interactive, t, src, env);
    OrganizeFileAddsOnly(c, root, interactive, t, src, env);
    OrganizeFileKeepsUnmoved(c, root, interactive, t, src, env);
  }

  /** With the guards passed, the folder makeable, consent given (or not asked for)
      and the move not refused, the file is moved, unless its destination is a
      directory that already holds an entry of that name. */
  lemma OrganizeFileMoves(c: Config, root: Path, interactive: bool, t: Tree, src: Path, env: Env)
    requires WellFormed(t) && !IsDir(t, src)
    requires PassesGuards(c, t, src) && IsDir(t, root)
    requires var dir := CategoryDir(c, root, Name(src)); dir in t ==> t[dir].kind == Directory
    requires !interactive || Affirmative(env.reply)
    requires !env.moveRefused
    requires var dest := Destination(c, root, t, Name(src), env.clock);
      IsDir(t, dest) ==> dest + [Name(src)] !in t
    ensures OrganizeFileSpec(c, root, interactive, t, src, env).1.Moved?
  {
    var name := Name(src);
    var dir := CategoryDir(c, root, name);
    CategoryDirExistsAfterwards(c, root, interactive, t, src, env);
    var (t1, made) := MkdirSpec(t, dir, env.now);
    var dest0 := dir + [name];
    assert Exists(t1, dest0) == Exists(t, dest0);
    var dest := Destination(c, root, t1, name, env.clock);
    if Exists(t, dest0) {
      ResolveCollisionShape(dest0, env.clock);
    }
    assert Parent(dest) == dir;
    assert dest != dir;
    assert IsDir(t1, dir);
    if IsDir(t1, dest) {
      assert dest + [name] !in t1;
    }
  }

  /** When the user declines, only the category folder may have appeared. */
  lemma DeclinedKeepsSource(c: Config, root: Path, t: Tree, src: Path, env: Env)
    requires !IsDir(t, src)
    requires PassesGuards(c, t, src) && !Affirmative(env.reply)
    ensures var r := OrganizeFileSpec(c, root, true, t, src, env);
      && (r.1.Declined? || r.1.Raised?)
      && src in r.0 && r.0[src] == t[src]
      && r.0.Keys <= t.Keys + {CategoryDir(c, root, Name(src))}
  {
    var dir := CategoryDir(c, root, Name(src));
    var m := MkdirSpec(t, dir, env.now);
    DeclinedStopsAfterMkdir(c, root, t, src, env);
    assert src in t;
    assert m.0.Keys <= t.Keys + {dir};
  }

  /** A declined call ends right after `mkdir`: its tree is the one `mkdir` left. */
  lemma DeclinedStopsAfterMkdir(c: Config, root: Path, t: Tree, src: Path, env: Env)
    requires !IsDir(t, src)
    requires PassesGuards(c, t, src) && !Affirmative(env.reply)
    ensures var r := OrganizeFileSpec(c, root, true, t, src, env);
      var m := MkdirSpec(t, CategoryDir(c, root, Name(src)), env.now);
      && r.0 == m.0
      && (if m.1.Ok? then r.1 == Declined else r.1 == Raised(m.1.error))
  {
  }

  /** One organize step keeps every entry of the tree inside a directory. */
  lemma OrganizeFileKeepsWellFormed(c: Config, root: Path, interactive: bool, t: Tree, src: Path, env: Env)
    requires WellFormed(t) && !IsDir(t, src)
    ensures WellFormed(OrganizeFileSpec(c, root, interactive, t, src, env).0)
  {
    var t' := OrganizeFileSpec(c, root, interactive, t, src, env).0;
    if PassesGuards(c, t, src) {
      var name := Name(src);
      var m := MkdirSpec(t, CategoryDir(c, root, name), env.now);
      assert WellFormed(m.0) by {
        MkdirKeepsWellFormed(t, CategoryDir(c, root, name), env.now);
      }
      if m.1.Ok? && !(interactive && !Affirmative(env.reply)) && Exists(m.0, src) {
        var dest := Destination(c, root, m.0, name, env.clock);
        var mv := MoveSpec(m.0, src, dest, env.moveRefused);
        assert t' == mv.0;
        MoveKeepsWellFormed(m.0, src, dest, env.moveRefused);
      } else {
        assert t' == m.0;
      }
    } else {
      assert t' == t;
    }
  }

  /** Where a move can land: at least two levels below the root. */
  lemma TargetIsDeep(c: Config, root: Path, interactive: bool, t: Tree, src: Path, env: Env)
    requires !IsDir(t, src)
    requires OrganizeFileSpec(c, root, interactive, t, src, env).1.Moved?
    ensures var o := OrganizeFileSpec(c, root, interactive, t, src, env).1;
      |o.target| >= |root| + 2 && o.target[..|root| + 1] == CategoryDir(c, root, Name(src))
  {
    var name := Name(src);
    var dir := CategoryDir(c, root, name);
    var (t1, made) := MkdirSpec(t, dir, env.now);
    var dest0 := dir + [name];
    if Exists(t1, dest0) {
      ResolveCollisionShape(dest0, env.clock);
    }
    var dest := Destination(c, root, t1, name, env.clock);
    assert |dest| == |root| + 2 && dest[..|root| + 1] == dir;
  }

  /** Apart from src, every entry directly in the root keeps its entry from t
      to t', and what appears there is only a directory. */
  ghost predicate KeepsRootEntries(root: Path, t: Tree, t': Tree, src: Path)
  {
    forall q :: IsChild(root, q) && q != src ==>
      (q in t ==> q in t' && t'[q] == t[q]) && (q in t' ==> q in t || t'[q].kind == Directory)
  }

  /** Apart from the source, an entry directly in the root is never replaced or
      removed; what may appear there is only a new category folder. */
  lemma OrganizeFileKeepsRootEntries(c: Config, root: Path, interactive: bool, t: Tree, src: Path, env: Env)
    requires !IsDir(t, src)
    ensures KeepsRootEntries(root, t, OrganizeFileSpec(c, root, interactive, t, src, env).0, src)
  {
    var (t', o) := OrganizeFileSpec(c, root, interactive, t, src, env);
    OrganizeFileFrame(c, root, interactive, t, src, env);
    if o.Moved? {
      TargetIsDeep(c, root, interactive, t, src, env);
    }
  }

  /** No directory sits two levels below the root, i.e. inside a category folder. */
  ghost predicate NoSubfolders(t: Tree, root: Path)
  {
    forall q :: q in t && |q| == |root| + 2 && q[..|root|] == root ==> t[q].kind != Directory
  }

  lemma OrganizeFileKeepsNoSubfolders(c: Config, root: Path, interactive: bool, t: Tree, src: Path, env: Env)
    requires !IsDir(t, src) && NoSubfolders(t, root)
    ensures NoSubfolders(OrganizeFileSpec(c, root, interactive, t, src, env).0, root)
  {
    var (t', o) := OrganizeFileSpec(c, root, interactive, t, src, env);
    OrganizeFileFrame(c, root, interactive, t, src, env);
    if o.Moved? {
      MovedFileIsAtDestination(c, root, interactive, t, src, env);
    }
  }

  // ---------------------------------------------------------------------------
  // organize

  /** The regular files of `root` whose names are not ignored, in listing order
      (the list comprehension over `iterdir()`). */
  function EligibleFiles(c: Config, t: Tree, root: Path, listing: seq<string>): (files: seq<Path>)
    ensures forall f :: f in files ==> IsChild(root, f) && IsFile(t, f) && Name(f) !in IgnoredFiles(c)
    ensures forall f :: f in files ==> Name(f) in listing
    ensures Distinct(listing) ==> Distinct(files)
  {
    if listing == [] then []
    else
      var n := listing[|listing| - 1];
      var f := root + [n];
      var rest := EligibleFiles(c, t, root, listing[..|listing| - 1]);
      assert forall g :: g in rest ==> Name(g) in listing;
      if IsFile(t, f) && n !in IgnoredFiles(c) then rest + [f] else rest
  }

  /** `listing` is what `iterdir()` yields for root: each entry's name, once. */
  ghost predicate ListsChildren(t: Tree, root: Path, listing: seq<string>)
  {
    Distinct(listing) && forall n :: n in listing <==> root + [n] in t
  }

  /** With a true listing, the files organized are exactly the regular files directly
      in the root whose names are not ignored, each once. */
  lemma {:induction false} EligibleFilesExactly(c: Config, t: Tree, root: Path, listing: seq<string>)
    requires ListsChildren(t, root, listing)
    ensures Distinct(EligibleFiles(c, t, root, listing))
    ensures forall f :: f in EligibleFiles(c, t, root, listing) <==>
      IsChild(root, f) && IsFile(t, f) && Name(f) !in IgnoredFiles(c)
  {
    forall f | IsChild(root, f) && IsFile(t, f) && Name(f) !in IgnoredFiles(c)
      ensures f in EligibleFiles(c, t, root, listing)
    {
      assert f == root + [Name(f)];
      EligibleFilesHas(c, t, root, listing, Name(f));
    }
  }

  lemma {:induction false} EligibleFilesHas(c: Config, t: Tree, root: Path, listing: seq<string>, n: string)
    requires n in listing && IsFile(t, root + [n]) && n !in IgnoredFiles(c)
    ensures root + [n] in EligibleFiles(c, t, root, listing)
  {
    if listing[|listing| - 1] != n {
      assert n in listing[..|listing| - 1] by {
        var i :| 0 <= i < |listing| && listing[i] == n;
        assert listing[..|listing| - 1][i] == n;
      }
      EligibleFilesHas(c, t, root, listing[..|listing| - 1], n);
    }
  }

  /** The loop of `organize`: each file in turn, until one raises. */
  function OrganizeEach(c: Config, root: Path, interactive: bool, t: Tree, files: seq<Path>, env: Path -> Env): (r: (Tree, RunOutcome))
    requires forall f :: f in files ==> IsChild(root, f) && IsFile(t, f)
    requires Distinct(files)
    ensures r.1.Finished? || r.1.Aborted?
    decreases |files|
  {
    if files == [] then (t, Finished)
    else
      var f0 := files[0];
      assert f0 in files;
      assert IsChild(root, f0) && IsFile(t, f0);
      assert f0 != [];
      var r := OrganizeFileSpec(c, root, interactive, t, f0, env(f0));
      if r.1.Raised? then (r.0, Aborted(f0, r.1.error))
      else
        OrganizeFileKeepsRootEntries(c, root, interactive, t, f0, env(f0));
        TailStillFiles(root, t, r.0, files);
        OrganizeEach(c, root, interactive, r.0, files[1..], env)
  }

  /** After a step on the first file that keeps the other entries of the root, the
      rest of the list still names files of the root, with the same entries. */
  lemma TailStillFiles(root: Path, t: Tree, t1: Tree, files: seq<Path>)
    requires files != [] && Distinct(files)
    requires forall f :: f in files ==> IsChild(root, f) && IsFile(t, f)
    requires KeepsRootEntries(root, t, t1, files[0])
    ensures Distinct(files[1..])
    ensures forall f :: f in files[1..] ==> IsChild(root, f) && IsFile(t1, f) && t1[f] == t[f]
  {
    assert forall f :: f in files[1..] ==> f in files && f != files[0];
  }

  /** `organize()`: nothing when the root is missing; an escaping error when it is
      not a directory; otherwise every eligible file, in listing order. */
  function OrganizeRun(c: Config, root: Path, interactive: bool, t: Tree, listing: seq<string>, env: Path -> Env): (Tree, RunOutcome)
    requires Distinct(listing)
  {
    if !Exists(t, root) then (t, RootMissing)
    else if !IsDir(t, root) then (t, RootNotADirectory)
    else
      var files := EligibleFiles(c, t, root, listing);
      if files == [] then (t, NothingToOrganize)
      else OrganizeEach(c, root, interactive, t, files, env)
  }

  /** A file `organize` can move: it has a suffix, its move is confirmed (or no
      confirmation is asked for) and not refused. */
  predicate Movable(interactive: bool, f: Path, e: Env)
  {
    Suffix(Name(f)) != "" && (!interactive || Affirmative(e.reply)) && !e.moveRefused
  }

  /** One step of the loop keeps the tree's shape: every entry in a directory, the
      root a directory, no subfolder in a category folder. */
  lemma StepKeepsShape(c: Config, root: Path, interactive: bool, t: Tree, f: Path, e: Env)
    requires WellFormed(t) && IsDir(t, root) && NoSubfolders(t, root)
    requires IsChild(root, f) && IsFile(t, f)
    ensures var t' := OrganizeFileSpec(c, root, interactive, t, f, e).0;
      WellFormed(t') && IsDir(t', root) && NoSubfolders(t', root)
  {
    OrganizeFileKeepsWellFormed(c, root, interactive, t, f, e);
    OrganizeFileKeepsNoSubfolders(c, root, interactive, t, f, e);
    OrganizeFileFrame(c, root, interactive, t, f, e);
    var o := OrganizeFileSpec(c, root, interactive, t, f, e).1;
    if o.Moved? {
      TargetIsDeep(c, root, interactive, t, f, e);
    }
  }

  /** A file of the root that cannot be moved stays where it is, as it was. */
  lemma StepKeepsUnmovable(c: Config, root: Path, interactive: bool, t: Tree, f: Path, e: Env)
    requires IsChild(root, f) && IsFile(t, f) && !Movable(interactive, f, e)
    ensures var t' := OrganizeFileSpec(c, root, interactive, t, f, e).0;
      f in t' && t'[f] == t[f]
  {
    OrganizeFileFrame(c, root, interactive, t, f, e);
  }

  /** With no subfolders in category folders, the destination is never a directory. */
  lemma DestinationIsNotADirectory(c: Config, root: Path, t: Tree, name: string, clock: Instant)
    requires NoSubfolders(t, root)
    ensures !IsDir(t, Destination(c, root, t, name, clock))
  {
    var dest0 := CategoryDir(c, root, name) + [name];
    if Exists(t, dest0) {
      ResolveCollisionShape(dest0, clock);
    }
    var dest := Destination(c, root, t, name, clock);
    assert |dest| == |root| + 2 && dest[..|root|] == root;
  }

  /** A step that does not raise found the category folder a directory or absent. */
  lemma CategoryDirUsable(c: Config, root: Path, interactive: bool, t: Tree, f: Path, e: Env)
    requires WellFormed(t) && !IsDir(t, f) && PassesGuards(c, t, f)
    requires !OrganizeFileSpec(c, root, interactive, t, f, e).1.Raised?
    ensures IsDir(t, root)
    ensures var dir := CategoryDir(c, root, Name(f)); dir in t ==> t[dir].kind == Directory
  {
    CategoryDirExistsAfterwards(c, root, interactive, t, f, e);
  }

  /** A movable file of the root leaves its place, unless the step raised. */
  lemma StepMovesMovable(c: Config, root: Path, interactive: bool, t: Tree, f: Path, e: Env)
    requires WellFormed(t) && IsDir(t, root) && NoSubfolders(t, root)
    requires IsChild(root, f) && IsFile(t, f) && Name(f) !in IgnoredFiles(c)
    requires Movable(interactive, f, e)
    requires !OrganizeFileSpec(c, root, interactive, t, f, e).1.Raised?
    ensures !IsFile(OrganizeFileSpec(c, root, interactive, t, f, e).0, f)
  {
    CategoryDirUsable(c, root, interactive, t, f, e);
    DestinationIsNotADirectory(c, root, t, Name(f), e.clock);
    OrganizeFileMoves(c, root, interactive, t, f, e);
    MovedFileIsAtDestination(c, root, interactive, t, f, e);
  }

  /** A failed or declined move does not stop the loop: when it runs to the end,
      every movable file has left its place in the root and every other file is
      untouched. Category folders must hold no subfolders, so that no
      move is into a directory. */
  lemma {:induction false} OrganizeEachMovesEveryMovable(c: Config, root: Path, interactive: bool, t: Tree, files: seq<Path>, env: Path -> Env)
    requires WellFormed(t) && IsDir(t, root) && NoSubfolders(t, root)
    requires forall f :: f in files ==> IsChild(root, f) && IsFile(t, f) && Name(f) !in IgnoredFiles(c)
    requires Distinct(files)
    requires OrganizeEach(c, root, interactive, t, files, env).1.Finished?
    ensures var t' := OrganizeEach(c, root, interactive, t, files, env).0;
      forall f :: f in files ==>
        (Movable(interactive, f, env(f)) ==> !IsFile(t', f)) &&
        (!Movable(interactive, f, env(f)) ==> f in t' && t'[f] == t[f])
    decreases |files|
  {
    if files != [] {
      var f0 := files[0];
      assert f0 in files;
      var t' := OrganizeEach(c, root, interactive, t, files, env).0;
      OrganizeFileKeepsRootEntries(c, root, interactive, t, f0, env(f0));
      var r := OrganizeFileSpec(c, root, interactive, t, f0, env(f0));
      var t1 := r.0;
      TailStillFiles(root, t, t1, files);
      var rest := files[1..];
      assert !r.1.Raised?;
      assert OrganizeEach(c, root, interactive, t, files, env) == OrganizeEach(c, root, interactive, t1, rest, env);
      assert f0 !in rest;
      assert (Movable(interactive, f0, env(f0)) ==> !IsFile(t', f0)) &&
        (!Movable(interactive, f0, env(f0)) ==> f0 in t' && t'[f0] == t[f0]) by {
        OrganizeEachKeepsChildren(c, root, interactive, t1, rest, env);
        if Movable(interactive, f0, env(f0)) {
          StepKeepsShape(c, root, interactive, t, f0, env(f0));
          StepMovesMovable(c, root, interactive, t, f0, env(f0));
        } else {
          StepKeepsUnmovable(c, root, interactive, t, f0, env(f0));
        }
      }
      assert forall f :: f in rest ==>
        (Movable(interactive, f, env(f)) ==> !IsFile(t', f)) &&
        (!Movable(interactive, f, env(f)) ==> f in t' && t'[f] == t[f]) by {
        StepKeepsShape(c, root, interactive, t, f0, env(f0));
        assert forall f :: f in rest ==> f in files;
        OrganizeEachMovesEveryMovable(c, root, interactive, t1, rest, env);
      }
      forall f | f in files
        ensures (Movable(interactive, f, env(f)) ==> !IsFile(t', f)) &&
          (!Movable(interactive, f, env(f)) ==> f in t' && t'[f] == t[f])
      {
        if f != f0 {
          assert f in rest;
        }
      }
    }
  }

  /** The loop never replaces or removes an entry of the root it is not processing,
      and what it creates there is only a directory. */
  lemma {:induction false} OrganizeEachKeepsChildren(c: Config, root: Path, interactive: bool, t: Tree, files: seq<Path>, env: Path -> Env)
    requires forall f :: f in files ==> IsChild(root, f) && IsFile(t, f)
    requires Distinct(files)
    ensures var t' := OrganizeEach(c, root, interactive, t, files, env).0;
      forall q :: IsChild(root, q) && q !in files ==>
        (q in t ==> q in t' && t'[q] == t[q]) && (q in t' ==> q in t || t'[q].kind == Directory)
    decreases |files|
  {
    if files != [] {
      var f0 := files[0];
      assert f0 in files;
      OrganizeFileKeepsRootEntries(c, root, interactive, t, f0, env(f0));
      var r := OrganizeFileSpec(c, root, interactive, t, f0, env(f0));
      TailStillFiles(root, t, r.0, files);
      if !r.1.Raised? {
        OrganizeEachKeepsChildren(c, root, interactive, r.0, files[1..], env);
        assert forall q :: q !in files ==> q !in files[1..] && q != f0;
      }
    }
  }

  /** Whatever `organize` does stays inside the root. */
  lemma {:induction false} OrganizeEachStaysInRoot(c: Config, root: Path, interactive: bool, t: Tree, files: seq<Path>, env: Path -> Env)
    requires forall f :: f in files ==> IsChild(root, f) && IsFile(t, f)
    requires Distinct(files)
    ensures var t' := OrganizeEach(c, root, interactive, t, files, env).0;
      forall q :: !(|q| > |root| && q[..|root|] == root) ==>
        (q in t <==> q in t') && (q in t ==> t'[q] == t[q])
    decreases |files|
  {
    if files != [] {
      var f0 := files[0];
      assert f0 in files;
      OrganizeFileKeepsRootEntries(c, root, interactive, t, f0, env(f0));
      TailStillFiles(root, t, OrganizeFileSpec(c, root, interactive, t, f0, env(f0)).0, files);
      var r := OrganizeFileSpec(c, root, interactive, t, f0, env(f0));
      OrganizeFileFrame(c, root, interactive, t, f0, env(f0));
      if r.1.Moved? {
        TargetIsDeep(c, root, interactive, t, f0, env(f0));
      }
      if !r.1.Raised? {
        OrganizeEachStaysInRoot(c, root, interactive, r.0, files[1..], env);
      }
    }
  }

  /** No category folder a file of the list needs is taken by something that is not
      a directory. */
  ghost predicate FoldersFree(c: Config, root: Path, t: Tree, files: seq<Path>)
  {
    forall f :: f in files ==>
      (CategoryDir(c, root, Name(f)) in t ==> t[CategoryDir(c, root, Name(f))].kind == Directory)
  }

  /** A step with the root a directory and its category folder free does not raise,
      and leaves the root a directory. */
  lemma StepDoesNotRaise(c: Config, root: Path, interactive: bool, t: Tree, f: Path, e: Env)
    requires WellFormed(t) && IsDir(t, root) && IsChild(root, f) && IsFile(t, f)
    requires var dir := CategoryDir(c, root, Name(f)); dir in t ==> t[dir].kind == Directory
    ensures var r := OrganizeFileSpec(c, root, interactive, t, f, e);
      !r.1.Raised? && IsDir(r.0, root) && WellFormed(r.0)
  {
    var r := OrganizeFileSpec(c, root, interactive, t, f, e);
    if PassesGuards(c, t, f) {
      CategoryDirExistsAfterwards(c, root, interactive, t, f, e);
    } else {
      GuardsChangeNothing(c, root, interactive, t, f, e);
    }
    OrganizeFileKeepsWellFormed(c, root, interactive, t, f, e);
    if root != [] {
      if r.1.Moved? {
        TargetIsDeep(c, root, interactive, t, f, e);
      }
      OrganizeFileFrame(c, root, interactive, t, f, e);
    }
  }

  /** A failed move does not stop `organize`: with the root a directory and the
      category folders free, the run reaches the end of the list, whatever the
      replies and whichever moves fail. */
  lemma {:induction false} OrganizeEachFinishesWhenFoldersFree(c: Config, root: Path, interactive: bool, t: Tree,
                                                               files: seq<Path>, env: Path -> Env)
    requires WellFormed(t) && IsDir(t, root)
    requires forall f :: f in files ==> IsChild(root, f) && IsFile(t, f)
    requires Distinct(files)
    requires FoldersFree(c, root, t, files)
    ensures OrganizeEach(c, root, interactive, t, files, env).1.Finished?
    decreases |files|
  {
    if files != [] {
      var f0 := files[0];
      var rest := files[1..];
      assert f0 in files;
      var r := OrganizeFileSpec(c, root, interactive, t, f0, env(f0));
      StepDoesNotRaise(c, root, interactive, t, f0, env(f0));
      OrganizeFileKeepsRootEntries(c, root, interactive, t, f0, env(f0));
      TailStillFiles(root, t, r.0, files);
      assert OrganizeEach(c, root, interactive, t, files, env) == OrganizeEach(c, root, interactive, r.0, rest, env);
      assert FoldersFree(c, root, r.0, rest) by {
        forall f | f in rest
          ensures CategoryDir(c, root, Name(f)) in r.0 ==> r.0[CategoryDir(c, root, Name(f))].kind == Directory
        {
          assert f in files;
          var d := CategoryDir(c, root, Name(f));
          assert IsChild(root, d);
          assert d in t ==> d != f0;
        }
      }
      OrganizeEachFinishesWhenFoldersFree(c, root, interactive, r.0, rest, env);
    }
  }

  /** `organize()` over a true listing of a directory root, run to the end: every
      movable regular file of the root (name not ignored) has left it, every
      other one is as it was, and every other entry of the root is kept. */
  lemma OrganizeRunMovesEveryMovable(c: Config, root: Path, interactive: bool, t: Tree, listing: seq<string>, env: Path -> Env)
    requires WellFormed(t) && NoSubfolders(t, root) && ListsChildren(t, root, listing)
    requires OrganizeRun(c, root, interactive, t, listing, env).1.Finished?
    ensures var t' := OrganizeRun(c, root, interactive, t, listing, env).0;
      && (forall f :: IsChild(root, f) && IsFile(t, f) && Name(f) !in IgnoredFiles(c) ==>
            (Movable(interactive, f, env(f)) ==> !IsFile(t', f)) &&
            (!Movable(interactive, f, env(f)) ==> f in t' && t'[f] == t[f]))
      && (forall q :: IsChild(root, q) && q in t && !(IsFile(t, q) && Name(q) !in IgnoredFiles(c)) ==>
            q in t' && t'[q] == t[q])
  {
    var files := EligibleFiles(c, t, root, listing);
    EligibleFilesExactly(c, t, root, listing);
    OrganizeEachMovesEveryMovable(c, root, interactive, t, files, env);
    OrganizeEachKeepsChildren(c, root, interactive, t, files, env);
  }

  /** When the root is a directory, `organize()` reports nothing to do exactly
      when it holds no regular file with a name that is not ignored, and then
      changes nothing. */
  lemma NothingToOrganizeExactly(c: Config, root: Path, interactive: bool, t: Tree, listing: seq<string>, env: Path -> Env)
    requires ListsChildren(t, root, listing) && IsDir(t, root)
    ensures var (t', o) := OrganizeRun(c, root, interactive, t, listing, env);
      && (o.NothingToOrganize? <==> forall f :: IsChild(root, f) && IsFile(t, f) ==> Name(f) in IgnoredFiles(c))
      && (o.NothingToOrganize? ==> t' == t)
  {
    var files := EligibleFiles(c, t, root, listing);
    EligibleFilesExactly(c, t, root, listing);
    if files != [] {
      assert files[0] in files;
    }
  }

  /** A missing root changes nothing. */
  lemma MissingRootChangesNothing(c: Config, root: Path, interactive: bool, t: Tree, listing: seq<string>, env: Path -> Env)
    requires Distinct(listing) && !Exists(t, root)
    ensures OrganizeRun(c, root, interactive, t, listing, env) == (t, RootMissing)
  {
  }
}
