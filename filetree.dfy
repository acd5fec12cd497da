/**
 The part of the filesystem the janitor sees: paths, their names and suffixes as
 `pathlib` computes them, the entries a tree of directories holds, and the three
 mutations the janitor performs (`Path.mkdir(exist_ok=True)`, `shutil.move`,
 `Path.unlink`), first as functions on a tree value, then as methods of a
 `FileSystem` object that updates its tree in place.
 */
module FileTree {

  /** A path as its components, from the top of the filesystem; `[]` is `/`. */
  type Path = seq<string>

  datatype Kind = RegularFile | Directory | Special

  /** What `stat()` reports: the kind and the modification time in whole seconds. */
  datatype Entry = Entry(kind: Kind, mtime: int)

  /** Every existing path except `/` mapped to its entry. */
  type Tree = map<Path, Entry>

  /** Why a system call failed. `Refused` stands for every cause the model does not
      distinguish (permissions, I/O errors, a device that goes away). */
  datatype OsError = FileExists | FileNotFound | NotADirectory | DestinationExists | Refused

  datatype Status = Ok | Failed(error: OsError)

  /** `Path.name`: the last component, or `""` for `/`. */
  function Name(p: Path): string
  {
    if p == [] then "" else p[|p| - 1]
  }

  /** `Path.parent`; the parent of `/` is `/`. */
  function Parent(p: Path): Path
  {
    if p == [] then [] else p[..|p| - 1]
  }

  /** p lies directly inside the directory d. */
  predicate IsChild(d: Path, p: Path)
  {
    |p| == |d| + 1 && p[..|d|] == d
  }

  /** The position of the last c in s, or -1 (`str.rfind`). */
  function LastIndexOf(s: string, c: char): (i: int)
    ensures -1 <= i < |s|
    ensures i >= 0 ==> s[i] == c
    ensures forall j :: i < j < |s| ==> s[j] != c
  {
    if s == [] then -1
    else if s[|s| - 1] == c then |s| - 1
    else
      var r := LastIndexOf(s[..|s| - 1], c);
      assert forall j :: r < j < |s| - 1 ==> s[..|s| - 1][j] == s[j];
      r
  }

  /** `PurePath.suffix`: from the last dot on, unless that dot is the first or the
      last character of the name. */
  function Suffix(name: string): string
  {
    var i := LastIndexOf(name, '.');
    if 0 < i < |name| - 1 then name[i..] else ""
  }

  /** `PurePath.stem`: the name without its suffix. */
  function Stem(name: string): string
  {
    var i := LastIndexOf(name, '.');
    if 0 < i < |name| - 1 then name[..i] else name
  }

  /** The name splits into stem and suffix; a suffix is a dot followed by at least
      one character and no further dot, and its stem is not empty. */
  lemma StemSuffixSplit(name: string)
    ensures Stem(name) + Suffix(name) == name
    ensures Suffix(name) == [] ||
      (|Suffix(name)| >= 2 && Suffix(name)[0] == '.' && '.' !in Suffix(name)[1..] && Stem(name) != [])
  {
  }

  /** A name has a suffix exactly when its last dot is neither its first nor its last character. */
  lemma SuffixExactly(name: string)
    ensures Suffix(name) != [] <==>
      exists i :: 0 < i < |name| - 1 && name[i] == '.' && '.' !in name[i + 1..]
  {
    var k := LastIndexOf(name, '.');
    if Suffix(name) == [] {
      forall i | 0 < i < |name| - 1 && name[i] == '.'
        ensures '.' in name[i + 1..]
      {
        assert k >= i;
        if k == i {
          assert false;
        }
        assert name[i + 1..][k - i - 1] == '.';
      }
    } else {
      assert name[k] == '.' && '.' !in name[k + 1..];
    }
  }

  /** A name made of a non-empty stem and a dot-led extension without further dots
      splits back into exactly those two. */
  lemma SuffixOfJoin(stem: string, ext: string)
    requires stem != [] && |ext| >= 2 && ext[0] == '.' && '.' !in ext[1..]
    ensures Suffix(stem + ext) == ext && Stem(stem + ext) == stem
  {
    var n := stem + ext;
    var i := LastIndexOf(n, '.');
    assert n[|stem|] == '.';
    forall j | |stem| < j < |n|
      ensures n[j] != '.'
    {
      assert n[j] == ext[1..][j - |stem| - 1];
    }
    assert i == |stem|;
    assert n[i..] == ext;
  }

  /** `Path.exists()`; `/` always exists. */
  predicate Exists(t: Tree, p: Path)
  {
    p == [] || p in t
  }

  /** `Path.is_dir()`. */
  predicate IsDir(t: Tree, p: Path)
  {
    p == [] || (p in t && t[p].kind == Directory)
  }

  /** `Path.is_file()`. */
  predicate IsFile(t: Tree, p: Path)
  {
    p in t && t[p].kind == RegularFile
  }

  /** Every entry lives in a directory. */
  ghost predicate WellFormed(t: Tree)
  {
    [] !in t && forall p {:trigger Parent(p)} :: p in t ==> IsDir(t, Parent(p))
  }

  /** `Path.mkdir(exist_ok=True)`: nothing to do when a directory is already there;
      an error when something else is, or when the parent is missing or is not a
      directory; otherwise a new empty directory stamped with `now`. */
  function MkdirSpec(t: Tree, p: Path, now: int): (r: (Tree, Status))
    ensures forall q :: q in t ==> q in r.0 && r.0[q] == t[q]
    ensures forall q :: q in r.0 ==> q in t || q == p
  {
    if Exists(t, p) then (t, if IsDir(t, p) then Ok else Failed(FileExists))
    else if !Exists(t, Parent(p)) then (t, Failed(FileNotFound))
    else if !IsDir(t, Parent(p)) then (t, Failed(NotADirectory))
    else (t[p := Entry(Directory, now)], Ok)
  }

  /** Where `shutil.move(src, dst)` puts src: inside dst when dst is a directory,
      at dst otherwise. */
  function MoveTarget(t: Tree, src: Path, dst: Path): Path
  {
    if IsDir(t, dst) then dst + [Name(src)] else dst
  }

  /** `shutil.move` of a file, a link or a special file (never a directory). Into a
      directory it refuses to replace an existing entry; onto a path that is not a
      directory it replaces whatever is there, as POSIX `rename` does. The entry
      keeps its modification time. `refused` is the environment's failure. */
  function MoveSpec(t: Tree, src: Path, dst: Path, refused: bool): (r: (Tree, Status))
    requires src in t && t[src].kind != Directory
  {
    var target := MoveTarget(t, src, dst);
    if refused then (t, Failed(Refused))
    else if IsDir(t, dst) && Exists(t, target) then (t, Failed(DestinationExists))
    else if !Exists(t, Parent(target)) then (t, Failed(FileNotFound))
    else if !IsDir(t, Parent(target)) then (t, Failed(NotADirectory))
    else ((t - {src})[target := t[src]], Ok)
  }

  /** `Path.unlink` of a regular file; `refused` is the environment's failure. */
  function UnlinkSpec(t: Tree, p: Path, refused: bool): (r: (Tree, Status))
    requires IsFile(t, p)
  {
    if refused then (t, Failed(Refused)) else (t - {p}, Ok)
  }

  /** A move that succeeds puts src's entry at the target and takes src away (unless
      it was moved onto itself); one that fails changes nothing; no other path changes. */
  lemma MoveEffect(t: Tree, src: Path, dst: Path, refused: bool)
    requires src in t && t[src].kind != Directory
    ensures var r := MoveSpec(t, src, dst, refused);
      var target := MoveTarget(t, src, dst);
      && (r.1.Failed? ==> r.0 == t)
      && (r.1.Ok? ==> target in r.0 && r.0[target] == t[src] && (target != src ==> src !in r.0))
      && (forall q :: q != src && q != target ==> (q in r.0 <==> q in t) && (q in t ==> r.0[q] == t[q]))
  {
  }

  lemma MkdirKeepsWellFormed(t: Tree, p: Path, now: int)
    requires WellFormed(t)
    ensures WellFormed(MkdirSpec(t, p, now).0)
  {
  }

  /** Moving a non-directory never leaves an entry outside a directory. */
  lemma MoveKeepsWellFormed(t: Tree, src: Path, dst: Path, refused: bool)
    requires WellFormed(t)
    requires src in t && t[src].kind != Directory
    ensures WellFormed(MoveSpec(t, src, dst, refused).0)
  {
    var (t', s) := MoveSpec(t, src, dst, refused);
    if s.Ok? {
      var target := MoveTarget(t, src, dst);
      MoveEffect(t, src, dst, refused);
      forall q | q in t'
        ensures IsDir(t', Parent(q))
      {
        var pq := Parent(q);
        if q == target {
          assert IsDir(t, pq);
          if pq != [] {
            assert pq != target;
            assert pq != src by {
              assert t[src].kind != Directory;
            }
          }
        } else {
          assert q in t;
          assert IsDir(t, pq);
          if pq != [] {
            assert pq != src;
            if pq == target {
              // a directory is never the target: into a directory the target is
              // fresh, onto a non-directory it is that non-directory
              assert false;
            }
          }
        }
      }
    }
  }

  lemma UnlinkKeepsWellFormed(t: Tree, p: Path, refused: bool)
    requires WellFormed(t) && IsFile(t, p)
    ensures WellFormed(UnlinkSpec(t, p, refused).0)
  {
  }

  /** The filesystem, updated in place by the janitor's system calls. */
  class FileSystem {
    var entries: Tree

    ghost predicate Valid()
      reads this
    {
      WellFormed(entries)
    }

    constructor (initial: Tree)
      requires WellFormed(initial)
      ensures Valid() && entries == initial
    {
      entries := initial;
    }

    method Mkdir(p: Path, now: int) returns (s: Status)
      requires Valid()
      modifies this
      ensures Valid()
      ensures (entries, s) == MkdirSpec(old(entries), p, now)
    {
      MkdirKeepsWellFormed(entries, p, now);
      var r := MkdirSpec(entries, p, now);
      entries, s := r.0, r.1;
    }

    method Move(src: Path, dst: Path, refused: bool) returns (s: Status)
      requires Valid()
      requires src in entries && entries[src].kind != Directory
      modifies this
      ensures Valid()
      ensures (entries, s) == MoveSpec(old(entries), src, dst, refused)
    {
      MoveKeepsWellFormed(entries, src, dst, refused);
      var r := MoveSpec(entries, src, dst, refused);
      entries, s := r.0, r.1;
    }

    method Unlink(p: Path, refused: bool) returns (s: Status)
      requires Valid() && IsFile(entries, p)
      modifies this
      ensures Valid()
      ensures (entries, s) == UnlinkSpec(old(entries), p, refused)
    {
      UnlinkKeepsWellFormed(entries, p, refused);
      var r := UnlinkSpec(entries, p, refused);
      entries, s := r.0, r.1;
    }
  }
}
