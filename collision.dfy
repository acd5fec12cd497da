/**
 `_resolve_collision`: the alternative destination used when the intended one
 already exists.
 */
module Collision {
  import opened Timestamp
  import opened FileTree

  /** The renamed file name: `stem + "_" + token + suffix`. */
  function StampedName(name: string, clock: Instant): string
  {
    Stem(name) + "_" + Format(clock) + Suffix(name)
  }

  /** The path in the same directory under the stamped name. Whether that path is
      free is not checked: the resolver never looks at the filesystem. */
  function ResolveCollision(dest: Path, clock: Instant): (r: Path)
    requires dest != []
  {
    Parent(dest) + [StampedName(Name(dest), clock)]
  }

  /** The resolved path stays in the destination's directory; its name has the
      original stem, an underscore, the fifteen-character clock token and the
      original suffix, in that order. */
  lemma ResolveCollisionShape(dest: Path, clock: Instant)
    requires dest != []
    ensures var r := ResolveCollision(dest, clock);
      var n := Name(r);
      && r != [] && Parent(r) == Parent(dest)
      && |n| == |Name(dest)| + 16
      && n[..|Stem(Name(dest))|] == Stem(Name(dest))
      && n[|Stem(Name(dest))|] == '_'
      && IsToken(n[|Stem(Name(dest))| + 1..|Stem(Name(dest))| + 16])
      && n[|Stem(Name(dest))| + 16..] == Suffix(Name(dest))
  {
    var name := Name(dest);
    var r := ResolveCollision(dest, clock);
    assert Parent(r) == Parent(dest);
    StemSuffixSplit(name);
    FormatIsToken(clock);
    var n := Name(r);
    var k := |Stem(name)|;
    assert n[k + 1..k + 16] == Format(clock);
  }

  /** The resolved path differs from the one that collided. */
  lemma ResolveCollisionMoves(dest: Path, clock: Instant)
    requires dest != []
    ensures ResolveCollision(dest, clock) != dest
  {
    ResolveCollisionShape(dest, clock);
  }

  /** When the name has a suffix, the renamed file splits back into the stamped stem
      and the same suffix, so it is classified as the original was. */
  lemma StampedNameSplits(name: string, clock: Instant)
    requires Suffix(name) != []
    ensures Suffix(StampedName(name, clock)) == Suffix(name)
    ensures Stem(StampedName(name, clock)) == Stem(name) + "_" + Format(clock)
  {
    StemSuffixSplit(name);
    FormatIsToken(clock);
    var tok := Format(clock);
    var head := Stem(name) + "_" + tok;
    var suf := Suffix(name);
    var n := StampedName(name, clock);
    assert n == head + suf;
    assert '.' !in tok by {
      forall i | 0 <= i < |tok| ensures tok[i] != '.' {
        if i < 8 { assert tok[..8][i] == tok[i]; }
        else if i > 8 { assert tok[9..][i - 9] == tok[i]; }
      }
    }
    var k := LastIndexOf(n, '.');
    assert n[|head|] == '.';
    assert n[|head| + 1..] == suf[1..];
    assert k == |head|;
    assert 0 < |Stem(name)| <= |head| - 16;
  }

  /** Two collisions on one name resolve to the same path exactly when they happen
      within the same second. */
  lemma SameSecondSamePath(dest: Path, a: Instant, b: Instant)
    requires dest != []
    ensures ResolveCollision(dest, a) == ResolveCollision(dest, b) <==> a == b
  {
    if ResolveCollision(dest, a) == ResolveCollision(dest, b) {
      var sa := StampedName(Name(dest), a);
      var sb := StampedName(Name(dest), b);
      assert sa == Name(ResolveCollision(dest, a));
      assert sb == Name(ResolveCollision(dest, b));
      var k := |Stem(Name(dest))| + 1;
      FormatIsToken(a);
      FormatIsToken(b);
      assert sa[k..k + 15] == Format(a);
      assert sb[k..k + 15] == Format(b);
      FormatInjective(a, b);
    }
  }
}
