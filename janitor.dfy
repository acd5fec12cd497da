/**
 `SmartFileJanitor`: the object that owns a root directory and performs the
 organize and retention operations on the filesystem in place. Each method is
 proved to leave the filesystem as the corresponding function of the Organizer
 and Retention modules says.
 */
module Janitor {
  import opened Text
  import opened Config
  import opened Classifier
  import opened Collision
  import opened FileTree
  import opened Organizer
  import opened Retention

  class Janitor {
    const root: Path
    const interactive: bool
    const config: Config
    const fs: FileSystem

    constructor (root: Path, interactive: bool, config: Config, fs: FileSystem)
      ensures this.root == root && this.interactive == interactive
      ensures this.config == config && this.fs == fs
    {
      this.root := root;
      this.interactive := interactive;
      this.config := config;
      this.fs := fs;
    }

    /** `_get_destination_folder`: the table is searched in order. */
    method GetDestinationFolder(extension: string) returns (folder: string)
      ensures folder == DestinationFolder(config, extension)
    {
      var e := Lower(extension);
      var table := config.extensionMap;
      var k := 0;
      while k < |table|
        invariant 0 <= k <= |table|
        invariant FirstMatch(table, e, config.othersFolder) == FirstMatch(table[k..], e, config.othersFolder)
      {
        assert table[k..][1..] == table[k + 1..];
        if e in table[k].1 {
          return table[k].0;
        }
        k := k + 1;
      }
      return config.othersFolder;
    }

    /** `organize_file(src)`. */
    method OrganizeFile(src: Path, env: Env) returns (o: FileOutcome)
      requires fs.Valid() && !IsDir(fs.entries, src)
      modifies fs
      ensures fs.Valid()
      ensures (fs.entries, o) == OrganizeFileSpec(config, root, interactive, old(fs.entries), src, env)
    {
      var name := Name(src);
      if name in IgnoredFiles(config) {
        return IgnoredName;
      }
      if !Exists(fs.entries, src) {
        return SourceMissing;
      }
      var extension := Suffix(name);
      if extension == "" {
        return NoSuffix;
      }
      var folderName := GetDestinationFolder(extension);
      var destDir := root + [folderName];
      var made := fs.Mkdir(destDir, env.now);
      if made.Failed? {
        return Raised(made.error);
      }
      var destPath := destDir + [name];
      if Exists(fs.entries, destPath) {
        destPath := ResolveCollision(destPath, env.clock);
      }
      if interactive {
        var response := Lower(Strip(env.reply));
        if response != "y" {
          return Declined;
        }
      }
      if Exists(fs.entries, src) {
        assert src != destDir;
        var target := MoveTarget(fs.entries, src, destPath);
        var moved := fs.Move(src, destPath, env.moveRefused);
        if moved.Failed? {
          return MoveFailed(moved.error);
        }
        return Moved(target);
      }
      return SourceVanished;
    }

    /** `organize()`: collect the eligible files of the root in listing order, then
        organize each; an exception from one of them ends the run. */
    method Organize(listing: seq<string>, env: Path -> Env) returns (o: RunOutcome)
      requires fs.Valid() && Distinct(listing)
      modifies fs
      ensures fs.Valid()
      ensures (fs.entries, o) == OrganizeRun(config, root, interactive, old(fs.entries), listing, env)
    {
      if !Exists(fs.entries, root) {
        return RootMissing;
      }
      if !IsDir(fs.entries, root) {
        return RootNotADirectory;
      }
      var files: seq<Path> := [];
      var i := 0;
      while i < |listing|
        invariant 0 <= i <= |listing|
        invariant files == EligibleFiles(config, fs.entries, root, listing[..i])
      {
        assert listing[..i + 1][..i] == listing[..i];
        var f := root + [listing[i]];
        if IsFile(fs.entries, f) && listing[i] !in IgnoredFiles(config) {
          files := files + [f];
        }
        i := i + 1;
      }
      assert listing[..i] == listing;
      if files == [] {
        return NothingToOrganize;
      }
      ghost var t0 := fs.entries;
      var j := 0;
      while j < |files|
        invariant 0 <= j <= |files|
        invariant fs.Valid()
        invariant forall f :: f in files[j..] ==> IsChild(root, f) && IsFile(fs.entries, f)
        invariant Distinct(files[j..])
        invariant OrganizeEach(config, root, interactive, t0, files, env)
               == OrganizeEach(config, root, interactive, fs.entries, files[j..], env)
      {
        var f := files[j];
        assert f in files[j..];
        ghost var before := fs.entries;
        OrganizeFileKeepsRootEntries(config, root, interactive, before, f, env(f));
        var r := OrganizeFile(f, env(f));
        if r.Raised? {
          return RunOutcome.Aborted(f, r.error);
        }
        TailStillFiles(root, before, fs.entries, files[j..]);
        assert files[j..][1..] == files[j + 1..];
        j := j + 1;
      }
      return Finished;
    }

    /** The files of one folder of `cleanup_old_files`: those listed when the
        folder is read, each in turn. */
    method SweepFolder(folder: Path, cutoff: int, answers: Path -> string, refused: Path -> bool)
      requires fs.Valid()
      modifies fs
      ensures fs.Valid()
      ensures fs.entries == old(fs.entries) - Doomed(old(fs.entries), folder, cutoff, interactive, answers, refused)
    {
      ghost var t0 := fs.entries;
      ghost var doomed := Doomed(t0, folder, cutoff, interactive, answers, refused);
      var remaining := set p | p in fs.entries && IsChild(folder, p);
      assert fs.entries == t0 - (doomed - remaining) by {
        assert doomed - remaining == {};
      }
      while remaining != {}
        invariant fs.Valid()
        invariant forall q :: q in remaining ==> IsChild(folder, q)
        invariant fs.entries == t0 - (doomed - remaining)
        decreases |remaining|
      {
        var p :| p in remaining;
        ghost var before := fs.entries;
        SweepStepFacts(t0, doomed, remaining, p, folder, cutoff, interactive, answers, refused);
        if IsFile(fs.entries, p) && fs.entries[p].mtime < cutoff {
          if interactive && Lower(Strip(answers(p))) != "y" {
            // declined: the file stays
            SkipOne(t0, doomed, remaining, p);
          } else {
            var s := fs.Unlink(p, refused(p));
            if s.Failed? {
              SkipOne(t0, doomed, remaining, p);
            } else {
              RemoveOneMore(t0, doomed, remaining, p);
            }
          }
        } else {
          SkipOne(t0, doomed, remaining, p);
        }
        remaining := remaining - {p};
      }
      assert doomed - remaining == doomed;
    }

    /** `cleanup_old_files()`: the configured folders in order; a missing one is
        skipped, one that is not a directory ends the sweep with an exception. */
    method CleanupOldFiles(clock: seq<int>, answers: Path -> string, refused: Path -> bool) returns (o: SweepOutcome)
      requires fs.Valid() && |clock| == |config.retentionPolicies|
      modifies fs
      ensures fs.Valid()
      ensures (fs.entries, o) == SweepSpec(root, interactive, old(fs.entries), config.retentionPolicies, clock, answers, refused)
    {
      var policies := config.retentionPolicies;
      var i := 0;
      while i < |policies|
        invariant 0 <= i <= |policies|
        invariant fs.Valid()
        invariant SweepSpec(root, interactive, old(fs.entries), policies, clock, answers, refused)
               == SweepSpec(root, interactive, fs.entries, policies[i..], clock[i..], answers, refused)
      {
        assert policies[i..][1..] == policies[i + 1..];
        assert clock[i..][1..] == clock[i + 1..];
        ghost var before := fs.entries;
        var folderName := policies[i].0;
        var folder := root + [folderName];
        var cutoff := clock[i] - policies[i].1 * SecondsPerDay;
        assert cutoff == Cutoff(clock[i], policies[i].1);
        ghost var step := SweepFolderSpec(before, folder, cutoff, interactive, answers, refused);
        if Exists(fs.entries, folder) {
          if !IsDir(fs.entries, folder) {
            return SweepOutcome.Aborted(folderName, NotADirectory);
          }
          SweepFolder(folder, cutoff, answers, refused);
          assert fs.entries == step.0;
        }
        assert SweepSpec(root, interactive, before, policies[i..], clock[i..], answers, refused)
            == SweepSpec(root, interactive, step.0, policies[i + 1..], clock[i + 1..], answers, refused);
        i := i + 1;
      }
      return Completed;
    }
  }

  /** What the sweep of a folder sees of a file it has not yet visited: its entry
      is the one it had when the folder was listed, and whether it is doomed is
      decided by that entry. */
  lemma SweepStepFacts(t0: Tree, doomed: set<Path>, remaining: set<Path>, p: Path, folder: Path, cutoff: int,
                       interactive: bool, answers: Path -> string, refused: Path -> bool)
    requires doomed == Doomed(t0, folder, cutoff, interactive, answers, refused)
    requires p in remaining && IsChild(folder, p)
    ensures var t := t0 - (doomed - remaining);
      && (p in t <==> p in t0) && (p in t ==> t[p] == t0[p])
      && (p in doomed <==>
            (IsFile(t, p) && t[p].mtime < cutoff && !(interactive && Lower(Strip(answers(p))) != "y") && !refused(p)))
  {
  }

  /** After p is deleted, one more doomed file is gone. */
  lemma RemoveOneMore(t0: Tree, doomed: set<Path>, remaining: set<Path>, p: Path)
    requires p in remaining && p in doomed && p in t0
    ensures (t0 - (doomed - remaining)) - {p} == t0 - (doomed - (remaining - {p}))
  {
  }

  /** A file kept is one that was never doomed. */
  lemma SkipOne(t0: Tree, doomed: set<Path>, remaining: set<Path>, p: Path)
    requires p in remaining && p !in doomed
    ensures t0 - (doomed - remaining) == t0 - (doomed - (remaining - {p}))
  {
    assert doomed - remaining == doomed - (remaining - {p});
  }
}
