/**
 `cleanup_old_files`: the retention sweep. For each configured folder, every regular
 file directly inside it whose modification time lies before the cutoff is
 deleted, after a confirmation when the janitor is interactive.
 */
module Retention {
  import opened Text
  import opened FileTree

  /** How a sweep ends. `Aborted` is an exception escaping the sweep: listing a
      configured path that exists but is not a directory. */
  datatype SweepOutcome = Completed | Aborted(folder: string, error: OsError)

  const SecondsPerDay := 86400

  /** The oldest modification time a file may have and survive. */
  function Cutoff(now: int, days: int): int
  {
    now - days * SecondsPerDay
  }

  /** A regular file directly inside folder, last modified before cutoff. */
  predicate Expired(t: Tree, folder: Path, cutoff: int, p: Path)
  {
    IsChild(folder, p) && IsFile(t, p) && t[p].mtime < cutoff
  }

  /** An expired file the sweep deletes: confirmed (or no confirmation asked for)
      and its unlink not refused. */
  predicate Deletes(t: Tree, folder: Path, cutoff: int, interactive: bool,
                    answers: Path -> string, refused: Path -> bool, p: Path)
  {
    Expired(t, folder, cutoff, p) && (!interactive || Affirmative(answers(p))) && !refused(p)
  }

  function Doomed(t: Tree, folder: Path, cutoff: int, interactive: bool,
                  answers: Path -> string, refused: Path -> bool): set<Path>
  {
    set p | p in t && Deletes(t, folder, cutoff, interactive, answers, refused, p)
  }

  /** One folder of the sweep: skipped when missing, an escaping error when it is
      not a directory, otherwise its doomed files are gone. */
  function SweepFolderSpec(t: Tree, folder: Path, cutoff: int, interactive: bool,
                           answers: Path -> string, refused: Path -> bool): (Tree, Status)
  {
    if !Exists(t, folder) then (t, Ok)
    else if !IsDir(t, folder) then (t, Failed(NotADirectory))
    else (t - Doomed(t, folder, cutoff, interactive, answers, refused), Ok)
  }

  /** The sweep over the policies in order: `clock[i]` is the time read for the
      i-th policy and `answers` the reply typed for each file. */
  function SweepSpec(root: Path, interactive: bool, t: Tree, policies: seq<(string, int)>, clock: seq<int>,
                     answers: Path -> string, refused: Path -> bool): (Tree, SweepOutcome)
    requires |clock| == |policies|
    decreases |policies|
  {
    if policies == [] then (t, Completed)
    else
      var r := SweepFolderSpec(t, root + [policies[0].0], Cutoff(clock[0], policies[0].1), interactive, answers, refused);
      if r.1.Failed? then (r.0, Aborted(policies[0].0, r.1.error))
      else SweepSpec(root, interactive, r.0, policies[1..], clock[1..], answers, refused)
  }

  /** The folder step deletes exactly the doomed files and keeps every other entry
      as it was. */
  lemma SweepFolderExactly(t: Tree, folder: Path, cutoff: int, interactive: bool,
                           answers: Path -> string, refused: Path -> bool)
    requires WellFormed(t)
    ensures var (t', s) := SweepFolderSpec(t, folder, cutoff, interactive, answers, refused);
      && (s.Failed? <==> Exists(t, folder) && !IsDir(t, folder))
      && (s.Failed? ==> s.error == NotADirectory)
      && (forall p :: p in t' <==> p in t && !(s.Ok? && Deletes(t, folder, cutoff, interactive, answers, refused, p)))
      && (forall p :: p in t' ==> t'[p] == t[p])
  {
    var (t', s) := SweepFolderSpec(t, folder, cutoff, interactive, answers, refused);
    if !Exists(t, folder) {
      forall p | p in t
        ensures !Deletes(t, folder, cutoff, interactive, answers, refused, p)
      {
        assert IsChild(folder, p) ==> Parent(p) == folder;
      }
    }
  }

  /** Only regular files are deleted, so every remaining entry still lives in a directory. */
  lemma SweepFolderKeepsWellFormed(t: Tree, folder: Path, cutoff: int, interactive: bool,
                                   answers: Path -> string, refused: Path -> bool)
    requires WellFormed(t)
    ensures WellFormed(SweepFolderSpec(t, folder, cutoff, interactive, answers, refused).0)
  {
    var t' := SweepFolderSpec(t, folder, cutoff, interactive, answers, refused).0;
    forall p | p in t'
      ensures IsDir(t', Parent(p))
    {
      assert IsDir(t, Parent(p));
      if Parent(p) != [] {
        assert Parent(p) in t';
      }
    }
  }

  /** What the sweep deletes, it deletes from inside the folder: an entry that is
      not a child of it stays. */
  lemma SweepFolderStaysInFolder(t: Tree, folder: Path, cutoff: int, interactive: bool,
                                 answers: Path -> string, refused: Path -> bool, q: Path)
    requires q in t && !IsChild(folder, q)
    ensures var t' := SweepFolderSpec(t, folder, cutoff, interactive, answers, refused).0;
      q in t' && t'[q] == t[q]
  {
  }

  /** A sweep never adds or changes an entry; it only deletes. */
  lemma {:induction false} SweepOnlyDeletes(root: Path, interactive: bool, t: Tree, policies: seq<(string, int)>,
                                            clock: seq<int>, answers: Path -> string, refused: Path -> bool)
    requires |clock| == |policies|
    ensures var t' := SweepSpec(root, interactive, t, policies, clock, answers, refused).0;
      forall p :: p in t' ==> p in t && t'[p] == t[p]
    decreases |policies|
  {
    if policies != [] {
      var t1 := SweepFolderSpec(t, root + [policies[0].0], Cutoff(clock[0], policies[0].1), interactive, answers, refused).0;
      SweepOnlyDeletes(root, interactive, t1, policies[1..], clock[1..], answers, refused);
    }
  }

  /** Every file the sweep deletes is a regular file directly inside one of the
      configured folders, last modified before that policy's cutoff, confirmed
      when confirmation is asked for, and its unlink not refused. In particular no
      file newer than the cutoff is ever deleted. */
  lemma {:induction false} SweepDeletesOnlyDoomed(root: Path, interactive: bool, t: Tree, policies: seq<(string, int)>,
                                                  clock: seq<int>, answers: Path -> string, refused: Path -> bool)
    requires |clock| == |policies|
    ensures var t' := SweepSpec(root, interactive, t, policies, clock, answers, refused).0;
      forall p :: p in t && p !in t' ==>
        exists i :: 0 <= i < |policies| &&
          Deletes(t, root + [policies[i].0], Cutoff(clock[i], policies[i].1), interactive, answers, refused, p)
    decreases |policies|
  {
    if policies != [] {
      var folder := root + [policies[0].0];
      var cutoff := Cutoff(clock[0], policies[0].1);
      var r := SweepFolderSpec(t, folder, cutoff, interactive, answers, refused);
      var t1 := r.0;
      if r.1.Ok? {
        var t' := SweepSpec(root, interactive, t1, policies[1..], clock[1..], answers, refused).0;
        SweepDeletesOnlyDoomed(root, interactive, t1, policies[1..], clock[1..], answers, refused);
        forall p | p in t && p !in t'
          ensures exists i :: (0 <= i < |policies| &&
            Deletes(t, root + [policies[i].0], Cutoff(clock[i], policies[i].1), interactive, answers, refused, p))
        {
          if p in t1 {
            var i :| 0 <= i < |policies[1..]| &&
              Deletes(t1, root + [policies[1..][i].0], Cutoff(clock[1..][i], policies[1..][i].1), interactive, answers, refused, p);
            assert t1[p] == t[p];
            assert Deletes(t, root + [policies[i + 1].0], Cutoff(clock[i + 1], policies[i + 1].1), interactive, answers, refused, p);
          } else {
            assert Deletes(t, folder, cutoff, interactive, answers, refused, p);
          }
        }
      }
    }
  }

  /** The configured folders are never deleted, so whether each exists and
      whether it is a directory is the same before and after a folder step. */
  lemma SweepFolderKeepsFolders(t: Tree, folder: Path, cutoff: int, interactive: bool,
                                answers: Path -> string, refused: Path -> bool, root: Path)
    requires |folder| == |root| + 1
    ensures var t' := SweepFolderSpec(t, folder, cutoff, interactive, answers, refused).0;
      forall g :: |g| == |root| + 1 ==> (Exists(t', g) <==> Exists(t, g)) && (IsDir(t', g) <==> IsDir(t, g))
  {
  }

  /** The first policy whose path exists but is not a directory. */
  predicate FirstNonDirectory(root: Path, t: Tree, policies: seq<(string, int)>, k: int)
  {
    && 0 <= k < |policies|
    && Exists(t, root + [policies[k].0]) && !IsDir(t, root + [policies[k].0])
    && forall j :: 0 <= j < k ==> !(Exists(t, root + [policies[j].0]) && !IsDir(t, root + [policies[j].0]))
  }

  /** The sweep is aborted exactly by the first configured path that exists but is
      not a directory, with NotADirectory; it completes when there is none. */
  lemma {:induction false} SweepAbortsAtFirstNonDirectory(root: Path, interactive: bool, t: Tree, policies: seq<(string, int)>,
                                                          clock: seq<int>, answers: Path -> string, refused: Path -> bool)
    requires |clock| == |policies|
    ensures var o := SweepSpec(root, interactive, t, policies, clock, answers, refused).1;
      && (o.Completed? <==> forall j :: 0 <= j < |policies| ==> !(Exists(t, root + [policies[j].0]) && !IsDir(t, root + [policies[j].0])))
      && (o.Aborted? ==> o.error == NotADirectory && exists k :: FirstNonDirectory(root, t, policies, k) && o.folder == policies[k].0)
    decreases |policies|
  {
    if policies != [] {
      var folder := root + [policies[0].0];
      var cutoff := Cutoff(clock[0], policies[0].1);
      var r := SweepFolderSpec(t, folder, cutoff, interactive, answers, refused);
      if r.1.Failed? {
        assert FirstNonDirectory(root, t, policies, 0);
      } else {
        var t1 := r.0;
        SweepFolderKeepsFolders(t, folder, cutoff, interactive, answers, refused, root);
        SweepAbortsAtFirstNonDirectory(root, interactive, t1, policies[1..], clock[1..], answers, refused);
        var o := SweepSpec(root, interactive, t1, policies[1..], clock[1..], answers, refused).1;
        assert forall j :: 1 <= j < |policies| ==> policies[1..][j - 1] == policies[j];
        if o.Aborted? {
          var k :| FirstNonDirectory(root, t1, policies[1..], k) && o.folder == policies[1..][k].0;
          assert FirstNonDirectory(root, t, policies, k + 1);
        }
      }
    }
  }

  /** When the sweep completes, no file it was asked to delete survives: each
      regular file directly inside a configured folder, older than that policy's
      cutoff, confirmed and not refused, is gone. */
  lemma {:induction false} SweepDeletesEveryDoomed(root: Path, interactive: bool, t: Tree, policies: seq<(string, int)>,
                                                   clock: seq<int>, answers: Path -> string, refused: Path -> bool)
    requires WellFormed(t) && |clock| == |policies|
    requires SweepSpec(root, interactive, t, policies, clock, answers, refused).1.Completed?
    ensures var t' := SweepSpec(root, interactive, t, policies, clock, answers, refused).0;
      forall i, p ::
        (0 <= i < |policies| && Deletes(t, root + [policies[i].0], Cutoff(clock[i], policies[i].1), interactive, answers, refused, p))
        ==> p !in t'
    decreases |policies|
  {
    if policies != [] {
      var folder := root + [policies[0].0];
      var cutoff := Cutoff(clock[0], policies[0].1);
      SweepFolderExactly(t, folder, cutoff, interactive, answers, refused);
      SweepFolderKeepsWellFormed(t, folder, cutoff, interactive, answers, refused);
      var r := SweepFolderSpec(t, folder, cutoff, interactive, answers, refused);
      var t1 := r.0;
      var t' := SweepSpec(root, interactive, t1, policies[1..], clock[1..], answers, refused).0;
      SweepDeletesEveryDoomed(root, interactive, t1, policies[1..], clock[1..], answers, refused);
      SweepOnlyDeletes(root, interactive, t1, policies[1..], clock[1..], answers, refused);
      forall i, p | (0 <= i < |policies| &&
          Deletes(t, root + [policies[i].0], Cutoff(clock[i], policies[i].1), interactive, answers, refused, p))
        ensures p !in t'
      {
        if i == 0 {
          assert p !in t1;
        } else if p in t1 {
          assert policies[1..][i - 1] == policies[i] && clock[1..][i - 1] == clock[i];
          assert Deletes(t1, root + [policies[1..][i - 1].0], Cutoff(clock[1..][i - 1], policies[1..][i - 1].1),
                         interactive, answers, refused, p);
        }
      }
    }
  }

  /** Every step of a sweep keeps each entry inside a directory. */
  lemma {:induction false} SweepKeepsWellFormed(root: Path, interactive: bool, t: Tree, policies: seq<(string, int)>,
                                                clock: seq<int>, answers: Path -> string, refused: Path -> bool)
    requires WellFormed(t) && |clock| == |policies|
    ensures WellFormed(SweepSpec(root, interactive, t, policies, clock, answers, refused).0)
    decreases |policies|
  {
    if policies != [] {
      var folder := root + [policies[0].0];
      var cutoff := Cutoff(clock[0], policies[0].1);
      SweepFolderKeepsWellFormed(t, folder, cutoff, interactive, answers, refused);
      var t1 := SweepFolderSpec(t, folder, cutoff, interactive, answers, refused).0;
      SweepKeepsWellFormed(root, interactive, t1, policies[1..], clock[1..], answers, refused);
    }
  }

  /** No configured folder disappears or changes kind during a sweep. */
  lemma {:induction false} SweepKeepsFolders(root: Path, interactive: bool, t: Tree, policies: seq<(string, int)>,
                                             clock: seq<int>, answers: Path -> string, refused: Path -> bool)
    requires |clock| == |policies|
    ensures var t' := SweepSpec(root, interactive, t, policies, clock, answers, refused).0;
      forall g :: |g| == |root| + 1 ==> (Exists(t', g) <==> Exists(t, g)) && (IsDir(t', g) <==> IsDir(t, g))
    decreases |policies|
  {
    if policies != [] {
      var folder := root + [policies[0].0];
      var cutoff := Cutoff(clock[0], policies[0].1);
      SweepFolderKeepsFolders(t, folder, cutoff, interactive, answers, refused, root);
      var t1 := SweepFolderSpec(t, folder, cutoff, interactive, answers, refused).0;
      SweepKeepsFolders(root, interactive, t1, policies[1..], clock[1..], answers, refused);
    }
  }

  /** Sweeping again with the same clock readings, replies and failures changes
      nothing and ends the same way. */
  lemma {:induction false} SweepIsIdempotent(root: Path, interactive: bool, t: Tree, policies: seq<(string, int)>,
                                             clock: seq<int>, answers: Path -> string, refused: Path -> bool)
    requires |clock| == |policies|
    ensures var r := SweepSpec(root, interactive, t, policies, clock, answers, refused);
      SweepSpec(root, interactive, r.0, policies, clock, answers, refused) == r
    decreases |policies|
  {
    if policies != [] {
      var folder := root + [policies[0].0];
      var cutoff := Cutoff(clock[0], policies[0].1);
      var r0 := SweepFolderSpec(t, folder, cutoff, interactive, answers, refused);
      if r0.1.Ok? {
        var t1 := r0.0;
        var r := SweepSpec(root, interactive, t1, policies[1..], clock[1..], answers, refused);
        var t' := r.0;
        SweepIsIdempotent(root, interactive, t1, policies[1..], clock[1..], answers, refused);
        SweepOnlyDeletes(root, interactive, t1, policies[1..], clock[1..], answers, refused);
        SweepKeepsFolders(root, interactive, t1, policies[1..], clock[1..], answers, refused);
        SweepFolderKeepsFolders(t, folder, cutoff, interactive, answers, refused, root);
        if IsDir(t, folder) && Exists(t, folder) {
          assert forall p :: p in t' ==> !Deletes(t', folder, cutoff, interactive, answers, refused, p);
          assert Doomed(t', folder, cutoff, interactive, answers, refused) == {};
          assert t' - {} == t';
        }
        assert SweepFolderSpec(t', folder, cutoff, interactive, answers, refused) == (t', Ok);
      }
    }
  }

  /** The policy folders are named once each, as the keys of a dictionary are. */
  predicate DistinctFolders(policies: seq<(string, int)>)
  {
    forall i, j :: 0 <= i < j < |policies| ==> policies[i].0 != policies[j].0
  }

  /** The threshold of the sweep: an entry directly in policy folder i whose
      modification time is not before `clock[i] - days * 86400` survives the
      sweep unchanged, whatever the replies and however the sweep ends. */
  lemma SweepKeepsRecentFiles(root: Path, interactive: bool, t: Tree, policies: seq<(string, int)>, clock: seq<int>,
                              answers: Path -> string, refused: Path -> bool, i: int, p: Path)
    requires |clock| == |policies| && DistinctFolders(policies)
    requires 0 <= i < |policies| && IsChild(root + [policies[i].0], p) && p in t
    requires t[p].mtime >= clock[i] - policies[i].1 * SecondsPerDay
    ensures var t' := SweepSpec(root, interactive, t, policies, clock, answers, refused).0;
      p in t' && t'[p] == t[p]
  {
    SweepDeletesOnlyDoomed(root, interactive, t, policies, clock, answers, refused);
    SweepOnlyDeletes(root, interactive, t, policies, clock, answers, refused);
    forall k | 0 <= k < |policies|
      ensures !Deletes(t, root + [policies[k].0], Cutoff(clock[k], policies[k].1), interactive, answers, refused, p)
    {
      if k != i {
        assert policies[k].0 != policies[i].0;
        assert p[..|root| + 1][|root|] == policies[i].0;
        assert !IsChild(root + [policies[k].0], p) by {
          assert (root + [policies[k].0])[|root|] == policies[k].0;
        }
      }
    }
  }
}
