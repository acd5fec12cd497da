/**
 Concrete scenarios under the built-in configuration: a document filed
 into its category, a name collision resolved by the clock, an expired document
 swept, and a declined move.
 */
module Scenarios {
  import opened Text
  import opened Timestamp
  import opened Config
  import opened Classifier
  import opened Collision
  import opened FileTree
  import opened Organizer
  import opened Retention

  /** A root to organize: a directory whose category folders hold no subfolders. */
  ghost predicate Organizable(t: Tree, root: Path)
  {
    WellFormed(t) && IsDir(t, root) && NoSubfolders(t, root)
  }

  /** The built-in table files each listed extension, in any case, under its folder. */
  lemma DefaultClassification()
    ensures DestinationFolder(Defaults, ".pdf") == "Documents"
    ensures DestinationFolder(Defaults, ".PDF") == "Documents"
    ensures DestinationFolder(Defaults, ".Jpeg") == "Images"
    ensures DestinationFolder(Defaults, ".zip") == "Others"
  {
    LowerKeepsLowerCase(".pdf");
    LowerKeepsLowerCase(".zip");
    assert Lower(".PDF") == ".pdf";
    assert Lower(".Jpeg") == ".jpeg";
  }

  lemma ReportPdfSplits()
    ensures Suffix("report.pdf") == ".pdf" && Stem("report.pdf") == "report"
    ensures DestinationFolder(Defaults, Suffix("report.pdf")) == "Documents"
  {
    assert "report.pdf" == "report" + ".pdf";
    SuffixOfJoin("report", ".pdf");
    DefaultClassification();
  }

  lemma ATxtSplits()
    ensures Suffix("a.txt") == ".txt" && Stem("a.txt") == "a"
    ensures DestinationFolder(Defaults, Suffix("a.txt")) == "Documents"
  {
    assert "a.txt" == "a" + ".txt";
    SuffixOfJoin("a", ".txt");
    LowerKeepsLowerCase(".txt");
  }

  /** `report.pdf` in the root passes the guards and belongs in `Documents`. */
  lemma ReportPassesGuards(t: Tree, root: Path)
    requires Exists(t, root + ["report.pdf"])
    ensures PassesGuards(Defaults, t, root + ["report.pdf"])
    ensures CategoryDir(Defaults, root, Name(root + ["report.pdf"])) == root + ["Documents"]
  {
    assert Name(root + ["report.pdf"]) == "report.pdf";
    ReportPdfSplits();
  }

  /** `report.pdf` in the root, with no `Documents/report.pdf` yet, ends up as
      `Documents/report.pdf` and leaves the root. */
  lemma ReportIsFiled(t: Tree, root: Path, env: Env)
    requires Organizable(t, root)
    requires IsFile(t, root + ["report.pdf"])
    requires root + ["Documents"] in t ==> t[root + ["Documents"]].kind == Directory
    requires root + ["Documents", "report.pdf"] !in t
    requires !env.moveRefused
    ensures var r := OrganizeFileSpec(Defaults, root, false, t, root + ["report.pdf"], env);
      && r.1 == Moved(root + ["Documents", "report.pdf"])
      && root + ["report.pdf"] !in r.0
      && root + ["Documents", "report.pdf"] in r.0
      && r.0[root + ["Documents", "report.pdf"]] == t[root + ["report.pdf"]]
  {
    var src := root + ["report.pdf"];
    var dest := root + ["Documents", "report.pdf"];
    ReportPassesGuards(t, root);
    assert Destination(Defaults, root, t, Name(src), env.clock) == dest by {
      assert Name(src) == "report.pdf";
      assert root + ["Documents"] + ["report.pdf"] == dest;
    }
    assert !IsDir(t, dest);
    OrganizeFileMoves(Defaults, root, false, t, src, env);
    MovedFileIsAtDestination(Defaults, root, false, t, src, env);
  }

  /** Where `a.txt` goes when `Documents/a.txt` is taken: `Documents/a_<token>.txt`. */
  lemma ATxtCollidingDestination(t: Tree, root: Path, clock: Instant)
    requires root + ["Documents", "a.txt"] in t
    ensures Destination(Defaults, root, t, "a.txt", clock) == root + ["Documents", "a_" + Format(clock) + ".txt"]
  {
    var dir := root + ["Documents"];
    ATxtSplits();
    assert CategoryDir(Defaults, root, "a.txt") == dir;
    assert dir + ["a.txt"] == root + ["Documents", "a.txt"];
    assert Parent(dir + ["a.txt"]) == dir && Name(dir + ["a.txt"]) == "a.txt";
    assert StampedName("a.txt", clock) == "a_" + Format(clock) + ".txt";
    assert dir + ["a_" + Format(clock) + ".txt"] == root + ["Documents", "a_" + Format(clock) + ".txt"];
  }

  /** `a.txt` in the root passes the guards and belongs in `Documents`. */
  lemma ATxtPassesGuards(t: Tree, root: Path)
    requires Exists(t, root + ["a.txt"])
    ensures PassesGuards(Defaults, t, root + ["a.txt"])
    ensures CategoryDir(Defaults, root, Name(root + ["a.txt"])) == root + ["Documents"]
  {
    assert Name(root + ["a.txt"]) == "a.txt";
    ATxtSplits();
  }

  /** A colliding `a.txt` is moved. */
  lemma CollidingATxtMoves(t: Tree, root: Path, env: Env)
    requires Organizable(t, root)
    requires IsFile(t, root + ["a.txt"]) && root + ["Documents", "a.txt"] in t
    requires !env.moveRefused
    ensures OrganizeFileSpec(Defaults, root, false, t, root + ["a.txt"], env).1.Moved?
  {
    var src := root + ["a.txt"];
    assert IsDir(t, root + ["Documents"]) by {
      assert Parent(root + ["Documents", "a.txt"]) == root + ["Documents"];
    }
    ATxtPassesGuards(t, root);
    DestinationIsNotADirectory(Defaults, root, t, Name(src), env.clock);
    OrganizeFileMoves(Defaults, root, false, t, src, env);
  }

  /** `a.txt` arrives while `Documents/a.txt` exists: it is filed as
      `Documents/a_<token>.txt`, the token naming the second of the move, and the
      earlier file is kept. */
  lemma CollisionIsRenamed(t: Tree, root: Path, env: Env)
    requires Organizable(t, root)
    requires IsFile(t, root + ["a.txt"]) && root + ["Documents", "a.txt"] in t
    requires !env.moveRefused
    ensures var r := OrganizeFileSpec(Defaults, root, false, t, root + ["a.txt"], env);
      && r.1 == Moved(root + ["Documents", "a_" + Format(env.clock) + ".txt"])
      && root + ["Documents", "a.txt"] in r.0
      && r.0[root + ["Documents", "a.txt"]] == t[root + ["Documents", "a.txt"]]
      && root + ["a.txt"] !in r.0
  {
    var src := root + ["a.txt"];
    var dest := root + ["Documents", "a_" + Format(env.clock) + ".txt"];
    assert Name(src) == "a.txt";
    CollidingATxtMoves(t, root, env);
    ATxtCollidingDestination(t, root, env.clock);
    assert !IsDir(t, dest) by {
      DestinationIsNotADirectory(Defaults, root, t, "a.txt", env.clock);
    }
    assert MoveTarget(t, src, dest) == dest;
    MovedFileIsAtDestination(Defaults, root, false, t, src, env);
    assert root + ["Documents", "a.txt"] != dest by {
      assert Name(root + ["Documents", "a.txt"]) != Name(dest);
    }
    OrganizeFileFrame(Defaults, root, false, t, src, env);
  }

  /** The resolver does not check that the renamed path is free: a second `a.txt`
      arriving in the same second replaces the first renamed one. */
  lemma SameSecondCollisionReplaces(t: Tree, root: Path, env: Env)
    requires Organizable(t, root)
    requires IsFile(t, root + ["a.txt"]) && root + ["Documents", "a.txt"] in t
    requires IsFile(t, root + ["Documents", "a_" + Format(env.clock) + ".txt"])
    requires !env.moveRefused
    ensures var r := OrganizeFileSpec(Defaults, root, false, t, root + ["a.txt"], env);
      root + ["Documents", "a_" + Format(env.clock) + ".txt"] in r.0 &&
      r.0[root + ["Documents", "a_" + Format(env.clock) + ".txt"]] == t[root + ["a.txt"]]
  {
    CollisionIsRenamed(t, root, env);
    MovedFileIsAtDestination(Defaults, root, false, t, root + ["a.txt"], env);
  }

  /** Forty days after its last change, `Documents/old.pdf` is swept under a
      thirty-day policy. */
  lemma ExpiredDocumentIsSwept(t: Tree, root: Path, now: int, answers: Path -> string, refused: Path -> bool)
    requires WellFormed(t) && IsDir(t, root + ["Documents"])
    requires IsFile(t, root + ["Documents", "old.pdf"])
    requires t[root + ["Documents", "old.pdf"]].mtime == now - 40 * SecondsPerDay
    requires !refused(root + ["Documents", "old.pdf"])
    ensures var r := SweepSpec(root, false, t, [("Documents", 30)], [now], answers, refused);
      r.1 == Completed && root + ["Documents", "old.pdf"] !in r.0
  {
    var p := root + ["Documents", "old.pdf"];
    var policies := [("Documents", 30)];
    assert root + [policies[0].0] == root + ["Documents"];
    assert IsChild(root + ["Documents"], p);
    assert Deletes(t, root + [policies[0].0], Cutoff([now][0], policies[0].1), false, answers, refused, p);
    SweepAbortsAtFirstNonDirectory(root, false, t, policies, [now], answers, refused);
    SweepDeletesEveryDoomed(root, false, t, policies, [now], answers, refused);
  }

  /** The reply `n` does not confirm. */
  lemma NoIsNotAffirmative()
    ensures !Affirmative("n")
  {
    assert Strip("n") == "n";
    LowerKeepsLowerCase("n");
  }

  /** Declining the prompt leaves the file where it was. */
  lemma DeclinedMoveKeepsFile(t: Tree, root: Path, env: Env)
    requires IsChild(root, root + ["report.pdf"]) && IsFile(t, root + ["report.pdf"])
    requires env.reply == "n"
    ensures var r := OrganizeFileSpec(Defaults, root, true, t, root + ["report.pdf"], env);
      (r.1 == Declined || r.1.Raised?) && r.0[root + ["report.pdf"]] == t[root + ["report.pdf"]]
  {
    ReportPassesGuards(t, root);
    NoIsNotAffirmative();
    DeclinedKeepsSource(Defaults, root, t, root + ["report.pdf"], env);
  }
}
