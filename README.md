# SmartFileJanitor, modelled in Dafny

SmartFileJanitor tidies one directory, the root. `organize` takes every regular
file directly inside the root and moves it into a category folder, chosen from the
file's extension. If the intended name is already taken, it inserts a
`YYYYMMDD_HHMMSS` timestamp between the name's stem and its suffix, as in
`report_20240131_235959.pdf`. It can ask for confirmation first.
`cleanup_old_files` deletes the files in the configured category folders whose
modification time is older than the folder's retention period.

The model covers the core of `core.py`, `SmartFileJanitor`:

- `_get_destination_folder`: the first-match lookup of an extension in the
  ordered extension table.
- `_resolve_collision`: the timestamped alternative name.
- `organize_file`: three guards, then `mkdir`, collision handling, the prompt and
  `shutil.move`.
- `organize`: the second definition, which is the one in effect.
- `cleanup_old_files`: the retention sweep.

Modules:

- `FileTree`: the filesystem as a map from paths (sequences of names) to entries,
  each with a kind and an integer modification time. `FileTree.FileSystem` is a
  class holding that map. Its methods `Mkdir`, `Move` and `Unlink` change it in
  place, as `Path.mkdir(exist_ok=True)`, `shutil.move` and `Path.unlink` do. The
  module also defines pathlib's `name`, `parent`, `suffix` and `stem`.
- `Text`: `str.lower` and `str.strip`, plus `Affirmative`, the `== 'y'` test
  applied to a reply.
- `Timestamp`: `strftime("%Y%m%d_%H%M%S")` on a date-time record, with the
  parse that inverts it.
- `Config`: the built-in configuration of `config.py`.
- `Classifier`: `_get_destination_folder` as a function.
- `Collision`: `_resolve_collision` as a function.
- `Organizer`: `organize_file` and `organize` as functions on trees.
- `Retention`: `cleanup_old_files` as a function on trees.
- `Janitor`: the class `Janitor.Janitor`. Its methods carry out the same
  operations step by step on a `FileSystem`, with the source's loops. Each method
  is proved to leave the filesystem, and return the outcome, that the matching
  function prescribes.
- `Scenarios`: concrete scenarios under the built-in configuration.

How outside inputs are modelled:

- What the outside world supplies becomes a parameter. For `organize_file` this
  is an `Organizer.Env`, which holds:
  - the clock reading used by the resolver;
  - the time `mkdir` stamps on a new folder;
  - the reply typed at the prompt;
  - whether the environment refuses the move.
- `organize` takes the order in which `iterdir` lists the root, and one `Env` per
  file.
- `cleanup_old_files` takes:
  - one `time.time()` reading per policy;
  - the reply for each file;
  - whether each unlink is refused.

Outcomes and errors:

- Each outcome is a datatype value. It names the branch the source took, or the
  exception that escaped.
- An error from `mkdir` is not caught in `organize_file`. It ends the whole
  `organize` run (`Organizer.RunOutcome.Aborted`). A failed move is caught and
  logged (`MoveFailed`), and the run goes on.
- In the sweep, `iterdir` on a policy folder that is not a directory raises. That
  ends the sweep (`Retention.SweepOutcome.Aborted`). A refused unlink is caught.

Two points where the code does less than a reader might expect. The model
follows the code in both:

- `organize_file` creates the category folder with `mkdir(exist_ok=True)`. That
  call still raises when the category path holds a file, and nothing in
  `organize_file` or `organize` catches the error. The same holds in the sweep:
  `iterdir` raises on a policy path that is a file.
- The docstring of `_resolve_collision` (core.py:71) promises "a new, unique
  path". The code never looks at the filesystem. So a second collision within
  the same clock second produces the earlier renamed path again, and the new
  file replaces that earlier one (`Scenarios.SameSecondCollisionReplaces`).

## Model

| member | source | states |
|---|---|---|
| Text.Lower | core.py:57 | `str.lower` on ASCII letters; no ensures, its properties are `Text.LowerIgnoresCase`, `Text.LowerHasNoUpper` and `Text.LowerKeepsLowerCase` |
| Text.Strip | core.py:119 | `str.strip` as `TrimRight(TrimLeft(s))`; no ensures, its properties are stated by `Text.TrimLeft`, `Text.TrimRight` and `Text.StripTrimsBothEnds` |
| Text.Affirmative | core.py:119-120 | the reply test `strip().lower() == 'y'`; no ensures, characterised by `Text.AffirmativeExactly` |
| Text.LowerIgnoresCase | core.py:57 | two strings that differ only in the case of ASCII letters lower-case to the same string |
| Text.LowerHasNoUpper | core.py:57 | a lower-cased string holds no capital letter |
| Text.LowerKeepsLowerCase | core.py:57 | lower-casing a string without capitals leaves it unchanged |
| Text.IsSpace | core.py:119 | the ASCII whitespace that `str.strip()` removes: tab to carriage return, 0x1C to 0x1F and space; a definition without ensures, used by `Text.TrimLeft`, `Text.TrimRight` and `Text.StripTrimsBothEnds` |
| Text.TrimLeft | core.py:119 | the result is a suffix of the input, does not start with whitespace, and everything cut off is whitespace |
| Text.TrimRight | core.py:119 | the result is a prefix of the input, does not end with whitespace, and everything cut off is whitespace |
| Text.AffirmativeExactly | core.py:119-120 | a reply confirms exactly when, stripped, it is `y` or `Y` |
| Text.StripTrimsBothEnds | core.py:119 | a stripped reply is empty or has no whitespace at either end |
| Timestamp.Format | core.py:73 | `strftime("%Y%m%d_%H%M%S")`; no ensures, its properties are `Timestamp.FormatIsToken`, `Timestamp.ParseFormat` and `Timestamp.FormatInjective` |
| Timestamp.ZeroPad | core.py:73 | a zero-padded field has exactly the field width and only decimal digits |
| Timestamp.ZeroPadValue | core.py:73 | the digits of a zero-padded field denote the number padded |
| Timestamp.FormatIsToken | core.py:73 | the formatted clock is fifteen characters: eight digits, an underscore, six digits |
| Timestamp.ParseFormat | core.py:73 | parsing the formatted token gives back the date and time it was made from |
| Timestamp.FormatInjective | core.py:73 | two clock readings give the same token exactly when they are the same local date and time, to the second |
| Classifier.FirstMatch | core.py:58-61 | the first-match search of the table; no ensures, characterised by `Classifier.FirstMatchIsFirstHit` and `Classifier.HitOrNoHit` |
| Classifier.DestinationFolder | core.py:57-61 | the lookup of the lower-cased extension in the configured table; no ensures, characterised by `Classifier.DestinationFolderExactly`, `Classifier.DestinationIsConfigured` and `Classifier.DestinationIgnoresCase` |
| Classifier.FirstMatchIsFirstHit | core.py:58-61 | the lookup returns the folder of the first table row whose list holds the extension, and the fallback when no row does |
| Classifier.HitOrNoHit | core.py:58-61 | either no row holds the extension or a first such row exists, so the lookup always answers |
| Classifier.DestinationIsConfigured | core.py:57-61 | the folder returned is the fallback folder or a folder named in the table |
| Classifier.DestinationFolderExactly | core.py:57-61 | the configured lookup returns the first row whose list holds the lower-cased extension, otherwise the fallback folder |
| Classifier.DestinationIgnoresCase | core.py:57 | extensions that differ only in letter case are sent to the same folder |
| Classifier.CapitalEntryNeverMatches | core.py:57-59 | a configured entry with a capital letter never equals a lower-cased extension |
| Classifier.LowerCaseEntries | core.py:59 | the entries kept are exactly the configured entries without capitals |
| Classifier.WithoutCapitalEntries | core.py:58-59 | the same table, row by row, with the entries that hold capitals removed |
| Classifier.CapitalEntriesAreInert | core.py:57-59 | removing every entry that holds capitals changes no lookup result |
| Config.Defaults | config.py:10-17 | the built-in configuration used when config.json is missing: the extension table in its order, no retention policies, "Others" and "triage.log"; a definition without ensures, used by `Scenarios.DefaultClassification` |
| Config.IgnoredFiles | core.py:90 | the ignored names, the log file name and the three source files; a definition without ensures, used by `Organizer.GuardsChangeNothing` and `Organizer.EligibleFilesExactly` |
| FileTree.Name | core.py:92 | `Path.name`, the last component; a definition without ensures |
| FileTree.Parent | core.py:77 | `Path.parent`, all but the last component; a definition without ensures |
| FileTree.Exists | core.py:95 | `Path.exists`: the root of the tree or a path with an entry; a definition without ensures, used by the guards and the collision test (`Organizer.GuardsChangeNothing`, `Organizer.OrganizeFileMoves`) |
| FileTree.IsDir | core.py:106 | a path that is the root of the tree or a `Directory` entry, what `mkdir(exist_ok=True)` accepts; a definition without ensures, used by `FileTree.MkdirSpec` and `FileTree.WellFormed` |
| FileTree.IsFile | core.py:172 | `Path.is_file`: a path with a `RegularFile` entry; a definition without ensures, used by `Organizer.EligibleFilesExactly` and `Retention.Expired` |
| FileTree.Suffix | core.py:98 | `Path.suffix`; no ensures, characterised by `FileTree.SuffixExactly` and `FileTree.StemSuffixSplit` |
| FileTree.Stem | core.py:74 | `Path.stem`; no ensures, characterised by `FileTree.StemSuffixSplit` and `FileTree.SuffixOfJoin` |
| FileTree.LastIndexOf | core.py:98 | the index of the last occurrence of a character, or -1 when there is none |
| FileTree.StemSuffixSplit | core.py:74-75 | stem followed by suffix is the name; a suffix is empty or a dot and at least one more character, with no other dot, after a non-empty stem |
| FileTree.SuffixExactly | core.py:98-99 | a name has a suffix exactly when it has a dot that is neither its first nor its last character and is followed by no other dot |
| FileTree.SuffixOfJoin | core.py:74-76 | a suffix appended to a non-empty stem is split off again as that suffix, leaving that stem |
| FileTree.MkdirSpec | core.py:106 | making a folder keeps every entry and adds nothing but the folder |
| FileTree.MoveTarget | core.py:127 | where `shutil.move` puts the file: inside the destination when that is a directory, at it otherwise; a definition without ensures, used by `FileTree.MoveEffect` |
| FileTree.MoveSpec | core.py:127 | `shutil.move` of a non-directory; no ensures, its effect is stated by `FileTree.MoveEffect` and `FileTree.MoveKeepsWellFormed` |
| FileTree.UnlinkSpec | core.py:186 | `Path.unlink` of a regular file; no ensures, stated by `FileTree.UnlinkKeepsWellFormed` and `FileTree.FileSystem.Unlink`, and linked to `Retention.SweepFolderSpec` by `Janitor.Janitor.SweepFolder`, whose unlink loop is proved equal to it |
| FileTree.MoveEffect | core.py:127 | a successful move puts the source's entry at the target and removes the source; a failed one changes nothing; no other path changes |
| FileTree.MkdirKeepsWellFormed | core.py:106 | after `mkdir` every entry still lies in a directory |
| FileTree.MoveKeepsWellFormed | core.py:127 | after a move of a non-directory every entry still lies in a directory |
| FileTree.UnlinkKeepsWellFormed | core.py:186 | after deleting a file every entry still lies in a directory |
| FileTree.FileSystem.Mkdir | core.py:106 | the new tree and status are those `mkdir(exist_ok=True)` produces, and the tree stays well formed |
| FileTree.FileSystem.Move | core.py:127 | the new tree and status are those `shutil.move` produces, and the tree stays well formed |
| FileTree.FileSystem.Unlink | core.py:186 | the new tree and status are those `unlink` produces, and the tree stays well formed |
| Collision.StampedName | core.py:74-76 | the name `stem + "_" + token + suffix`; no ensures, characterised by `Collision.StampedNameSplits` |
| Collision.ResolveCollision | core.py:73-77 | the renamed path in the same directory; no ensures, characterised by `Collision.ResolveCollisionShape`, `Collision.ResolveCollisionMoves` and `Collision.SameSecondSamePath` |
| Collision.ResolveCollisionShape | core.py:73-77 | the renamed path keeps the parent; its name is the stem, `_`, a fifteen-character token and the suffix, sixteen characters longer than the original |
| Collision.ResolveCollisionMoves | core.py:111-114 | the renamed path differs from the path that collided |
| Collision.StampedNameSplits | core.py:74-76 | the renamed file keeps the original suffix, and its stem is the old stem, `_` and the token |
| Collision.SameSecondSamePath | core.py:73-77 | two collisions on one path give the same renamed path exactly when the local clock reads the same second for both |
| Organizer.CategoryDir | core.py:102-103 | the category folder `root / folder_name`; a definition without ensures, used by `Organizer.CategoryDirExistsAfterwards` and `Organizer.TargetIsDeep` |
| Organizer.Destination | core.py:108-114 | the category folder and the same name, or the resolver's path when that exists; no ensures, stated by `Organizer.MovedFileIsAtDestination` and `Organizer.DestinationIsNotADirectory` |
| Organizer.PassesGuards | core.py:90-100 | the three guards passed; a definition without ensures, used by `Organizer.GuardsChangeNothing` |
| Organizer.OrganizeFileSpec | core.py:85-130 | `organize_file` on a tree; no ensures, its properties are the `Organizer.OrganizeFile…` lemmas, `Organizer.GuardsChangeNothing`, `Organizer.CategoryDirExistsAfterwards`, `Organizer.MovedFileIsAtDestination` and `Organizer.DeclinedKeepsSource`, and `Janitor.Janitor.OrganizeFile` is proved equal to it |
| Organizer.OrganizeRun | core.py:132-151 | `organize` on a tree; no ensures, its properties are `Organizer.OrganizeRunMovesEveryMovable`, `Organizer.NothingToOrganizeExactly` and `Organizer.MissingRootChangesNothing`, and `Janitor.Janitor.Organize` is proved equal to it |
| Organizer.Movable | core.py:98-127 | a file with a suffix whose move is confirmed or not asked about, and not refused; a definition without ensures, used by `Organizer.OrganizeEachMovesEveryMovable` |
| Organizer.GuardsChangeNothing | core.py:90-100 | an ignored name, a missing source or a name without a suffix leaves the tree unchanged, with the matching outcome |
| Organizer.CategoryDirExistsAfterwards | core.py:102-106 | past the guards, the call raises exactly when the root is not a directory or the category path holds something else; otherwise the category folder exists afterwards, declined or not |
| Organizer.MovedFileIsAtDestination | core.py:108-128 | after a move the source is gone and its entry sits at the destination, which is the category folder and the same name, or the renamed path when that was taken |
| Organizer.SecondCallDoesNothing | core.py:95-96 | a second call on a moved file finds it missing and changes nothing |
| Organizer.OrganizeFileKeepsOthers | core.py:102-130 | every entry other than the source and the move target keeps its entry |
| Organizer.OrganizeFileAddsOnly | core.py:102-130 | the only paths that appear are the category folder, as a directory, and the move target |
| Organizer.OrganizeFileKeepsUnmoved | core.py:116-130 | a source that was not moved keeps its entry |
| Organizer.OrganizeFileFrame | core.py:102-130 | only the source, the category folder (only by being created) and the move target change; a source that was not moved is kept |
| Organizer.OrganizeFileMoves | core.py:102-128 | in a well-formed tree, past the guards, with the root a directory, the category path absent or a directory, the move confirmed or not asked about, not refused, and a destination that is either not a directory or does not already hold the file's name, the file is moved |
| Organizer.DeclinedKeepsSource | core.py:116-122 | a declined prompt leaves the source in place and adds at most the category folder |
| Organizer.DeclinedStopsAfterMkdir | core.py:106-122 | a declined prompt returns right after `mkdir`: the tree is the one `mkdir` left, and the outcome is `Declined`, or the `mkdir` error when that failed |
| Organizer.OrganizeFileKeepsWellFormed | core.py:102-130 | one `organize_file` call keeps every entry inside a directory |
| Organizer.TargetIsDeep | core.py:103-114 | a moved file lands inside the category folder, at least two levels below the root |
| Organizer.OrganizeFileKeepsRootEntries | core.py:102-130 | apart from the source, no entry directly in the root is changed, and the only ones added are directories |
| Organizer.OrganizeFileKeepsNoSubfolders | core.py:102-130 | a call adds no directory inside a category folder |
| Organizer.ListsChildren | core.py:144 | what a faithful `iterdir` of the root returns: every child name of the root, each once; a definition without ensures, required by `Organizer.EligibleFilesExactly` |
| Organizer.EligibleFiles | core.py:144 | the files collected are regular files directly in the root, listed and not ignored, and are distinct when the listing is |
| Organizer.EligibleFilesExactly | core.py:144 | over a true listing, a path is collected exactly when it is a regular file directly in the root whose name is not ignored |
| Organizer.EligibleFilesHas | core.py:144 | a listed regular file whose name is not ignored is collected |
| Organizer.OrganizeEach | core.py:150-151 | the loop either runs to the end or stops at an escaping exception; this ensures only names the outcome's shape, and what the loop does is stated by `Organizer.OrganizeEachFinishesWhenFoldersFree`, `Organizer.OrganizeEachMovesEveryMovable`, `Organizer.OrganizeEachKeepsChildren` and `Organizer.OrganizeEachStaysInRoot` |
| Organizer.StepDoesNotRaise | core.py:102-106 | with the root a directory and the category path free of anything that is not a directory, one call raises nothing and leaves the root a directory |
| Organizer.OrganizeEachFinishesWhenFoldersFree | core.py:124-151 | failed or declined moves never stop the loop: with every needed category path free, it reaches the end of the list |
| Organizer.StepKeepsShape | core.py:102-130 | one call keeps the tree well formed, the root a directory and the category folders free of subfolders |
| Organizer.StepKeepsUnmovable | core.py:116-130 | a file that is declined, refused or has no suffix stays as it was |
| Organizer.DestinationIsNotADirectory | core.py:108-114 | with no subfolders in the category folders, the chosen destination is never a directory |
| Organizer.CategoryDirUsable | core.py:102-106 | a call that did not raise found the root a directory and the category path absent or a directory |
| Organizer.StepMovesMovable | core.py:116-130 | a confirmed, unrefused file with a suffix leaves its place in the root |
| Organizer.OrganizeEachMovesEveryMovable | core.py:150-151 | a loop run to the end has moved every movable file of the list and left every other one as it was |
| Organizer.OrganizeEachKeepsChildren | core.py:150-151 | the loop leaves every other entry of the root as it was and adds only directories there |
| Organizer.OrganizeEachStaysInRoot | core.py:150-151 | nothing outside the root changes |
| Organizer.OrganizeRunMovesEveryMovable | core.py:132-151 | `organize` run to the end has moved every movable eligible file of the root, left the others, and kept every other entry of the root |
| Organizer.NothingToOrganizeExactly | core.py:144-148 | `organize` reports nothing to do exactly when every regular file of the root has an ignored name, and then changes nothing |
| Organizer.MissingRootChangesNothing | core.py:138-140 | `organize` on a missing root changes nothing |
| Retention.Cutoff | core.py:169 | the clock reading less the period in seconds; a definition without ensures, whose use as the survival threshold is stated by `Retention.SweepKeepsRecentFiles` |
| Retention.Expired | core.py:171-176 | a regular file directly in the folder, modified before the cutoff; a definition without ensures |
| Retention.Deletes | core.py:176-186 | an expired file whose deletion is confirmed or not asked about, and not refused; a definition without ensures |
| Retention.SweepFolderSpec | core.py:165-190 | one policy folder of the sweep on a tree; no ensures, characterised by `Retention.SweepFolderExactly` |
| Retention.SweepSpec | core.py:164-190 | `cleanup_old_files` on a tree; no ensures, its properties are the `Retention.Sweep…` lemmas, and `Janitor.Janitor.CleanupOldFiles` is proved equal to it |
| Retention.SweepFolderExactly | core.py:164-190 | a missing folder is skipped; a folder that is not a directory raises; otherwise exactly the expired, confirmed, unrefused regular files directly in it are deleted and nothing else changes |
| Retention.SweepFolderKeepsWellFormed | core.py:186 | sweeping a folder keeps every entry inside a directory |
| Retention.SweepFolderStaysInFolder | core.py:171-190 | an entry not directly in the folder is untouched |
| Retention.SweepFolderKeepsFolders | core.py:171-173 | no folder directly in the root appears, disappears or changes kind |
| Retention.SweepOnlyDeletes | core.py:164-190 | the sweep only removes entries; every surviving entry is unchanged |
| Retention.SweepDeletesOnlyDoomed | core.py:164-190 | every deleted path is an expired, confirmed, unrefused regular file directly in some policy folder |
| Retention.SweepAbortsAtFirstNonDirectory | core.py:164-171 | the sweep completes exactly when no policy path is a non-directory; otherwise it stops at the first one with `NotADirectory` |
| Retention.SweepDeletesEveryDoomed | core.py:164-190 | a completed sweep has deleted every expired, confirmed, unrefused regular file of every policy folder |
| Retention.SweepKeepsWellFormed | core.py:164-190 | the sweep keeps every entry inside a directory |
| Retention.SweepKeepsFolders | core.py:164-190 | the sweep creates, removes or retypes no folder directly in the root |
| Retention.SweepKeepsRecentFiles | core.py:164-176 | with the policy folders named once each, an entry directly in policy folder i whose modification time is not before `clock[i] - days * 86400` is still there afterwards, unchanged |
| Retention.SweepIsIdempotent | core.py:164-190 | sweeping again immediately, with the same clock readings and replies, changes nothing and gives the same outcome |
| Janitor.Janitor.constructor | core.py:25-34 | the janitor holds the given root, mode, configuration and filesystem |
| Janitor.Janitor.GetDestinationFolder | core.py:53-61 | the loop's answer is the first-match lookup of the lower-cased extension |
| Janitor.Janitor.OrganizeFile | core.py:85-130 | the filesystem and outcome afterwards are those `organize_file` prescribes, and the tree stays well formed |
| Janitor.Janitor.Organize | core.py:132-151 | the filesystem and outcome afterwards are those `organize` prescribes, and the tree stays well formed |
| Janitor.Janitor.SweepFolder | core.py:171-190 | exactly the doomed files of the folder are deleted |
| Janitor.Janitor.CleanupOldFiles | core.py:154-190 | the filesystem and outcome afterwards are those of the sweep over the configured policies |
| Scenarios.DefaultClassification | config.py:10-17 | under the built-in table `.pdf` and `.PDF` go to `Documents`, `.Jpeg` to `Images`, `.zip` to `Others` |
| Scenarios.ReportIsFiled | core.py:102-128 | `report.pdf` ends up as `Documents/report.pdf` and leaves the root |
| Scenarios.CollisionIsRenamed | core.py:108-128 | `a.txt` meeting an existing `Documents/a.txt` becomes `Documents/a_<token>.txt`, and the earlier file is kept |
| Scenarios.SameSecondCollisionReplaces | core.py:73-77 | a renamed file already present from the same local clock second is replaced by the new arrival |
| Scenarios.ExpiredDocumentIsSwept | core.py:169-186 | a forty-day-old `Documents/old.pdf` is deleted under a thirty-day policy |
| Scenarios.DeclinedMoveKeepsFile | core.py:116-122 | replying `n` keeps `report.pdf` where it was |

## Left out

- The GUI (`gui.py`), the command line and the watch loop (`main.py`) are not
  part of this model; they are user interface and concurrency.
- `JanitorHandler` (core.py:15-22) is not modelled. It forwards every creation
  event that is not a directory to `organize_file`, which is why
  `Janitor.Janitor.OrganizeFile` may require a source that is not a directory.
- The first `organize` (core.py:79-83) is replaced by the second definition in
  the class and never runs.
- Logging (core.py:37-51 and every log call) and the prompts' printed text are
  output only.
- Loading and saving `config.json` is file I/O. The model uses the built-in
  defaults of config.py:10-17. `Config.Config` can hold any other table.
- `str.lower` and `str.strip` are modelled for ASCII letters and ASCII
  whitespace only. Python also folds and strips other Unicode characters.
- `Timestamp` covers years 1000 to 9999. For these `%Y` gives four digits.
- `time.time()` is a float and `st_mtime` may have a fraction. The model uses
  integer seconds.
- `input()` raising `EOFError` is not modelled; a reply is always supplied.
- `SourceVanished`, the source disappearing between the guards and the move, is
  modelled as a branch. No step of one call can remove the source, so without
  concurrency that branch is never taken.
- Suffix and stem follow the long-standing pathlib rule: the last dot, not at
  either end of the name. Python 3.14 changed the rule for names ending in a
  dot; that change is not modelled.
- Folder names from the configuration are taken as single, ordinary path
  components. pathlib treats some names differently, and the model does not
  follow it there:
  - With `""` or `"."`, `root / name` is the root itself. `organize_file` would
    then find the destination equal to the source and rename the file in place,
    and the sweep would clean the root.
  - With `".."`, the path is the root's parent.
  - With a `/`, the path reaches deeper directories.

  The model uses the child `root + [name]` in every case.
- The clock reading is local wall-clock time, and `strftime` formats it as such.
  The model compares readings, not real instants. During a daylight-saving
  fall-back, two moments an hour apart give the same token and the same renamed
  path.
- Symbolic links and other special files are one `Special` kind. Links are not
  followed.
- Why `shutil.move` fails (cross-device copies, permissions) is not modelled;
  the environment either refuses the move or lets it through. The same holds
  for `unlink`, and for `iterdir` raising `PermissionError`.
- The order in which the sweep visits a folder's files is not modelled. The
  model takes them as a set, because the result does not depend on the order.
- Retention periods are integers rather than natural numbers, because a
  configuration file may hold a negative number. A negative period puts the
  cutoff after the clock reading. `Retention.SweepKeepsRecentFiles` states the
  threshold for any period.
- Organizer.OrganizeEachMovesEveryMovable: stated only when the category folders
  hold no subfolders. A subfolder with the file's name makes the destination
  exist, so the file is given the timestamped name. If that name is itself a
  directory, `shutil.move` moves the file into it. If the directory already
  holds the file's name, `shutil.move` raises (`DestinationExists` in the
  model), the handler at core.py:129 catches it, and the file stays in the root.
- Organizer.OrganizeRunMovesEveryMovable: stated under the same assumption, and
  for a listing that names every entry of the root exactly once.
- Janitor.Janitor.OrganizeFile: requires a source that is not a directory,
  because both callers pass only non-directories.
