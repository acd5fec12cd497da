/**
 `_get_destination_folder`: the category folder a file extension belongs to.
 */
module Classifier {
  import opened Text
  import opened Config

  /** The first folder, in table order, whose extension list holds `e`, or `fallback`. */
  function FirstMatch(table: seq<(string, seq<string>)>, e: string, fallback: string): string
  {
    if table == [] then fallback
    else if e in table[0].1 then table[0].0
    else FirstMatch(table[1..], e, fallback)
  }

  /** The argument is lower-cased; the configured entries are compared as written. */
  function DestinationFolder(c: Config, extension: string): string
  {
    FirstMatch(c.extensionMap, Lower(extension), c.othersFolder)
  }

  /** Position k of the table is the first one whose list holds e. */
  predicate FirstHit(table: seq<(string, seq<string>)>, e: string, k: int)
  {
    0 <= k < |table| && e in table[k].1 && forall j :: 0 <= j < k ==> e !in table[j].1
  }

  predicate NoHit(table: seq<(string, seq<string>)>, e: string)
  {
    forall i :: 0 <= i < |table| ==> e !in table[i].1
  }

  /** The lookup returns the folder of the first listing that holds `e`, and the
      fallback exactly when no listing holds it. */
  lemma {:induction false} FirstMatchIsFirstHit(table: seq<(string, seq<string>)>, e: string, fallback: string)
    ensures NoHit(table, e) ==> FirstMatch(table, e, fallback) == fallback
    ensures forall k :: FirstHit(table, e, k) ==> FirstMatch(table, e, fallback) == table[k].0
  {
    if table != [] {
      FirstMatchIsFirstHit(table[1..], e, fallback);
      forall k | FirstHit(table, e, k)
        ensures FirstMatch(table, e, fallback) == table[k].0
      {
        if k > 0 {
          assert FirstHit(table[1..], e, k - 1);
        }
      }
      if NoHit(table, e) {
        assert NoHit(table[1..], e) by {
          forall i | 0 <= i < |table| - 1 ensures e !in table[1..][i].1 {
            assert table[1..][i] == table[i + 1];
          }
        }
      }
    }
  }

  /** Either some listing holds `e` and a first one exists, or none does. */
  lemma {:induction false} HitOrNoHit(table: seq<(string, seq<string>)>, e: string)
    ensures NoHit(table, e) || exists k :: FirstHit(table, e, k)
  {
    if table != [] && e !in table[0].1 {
      HitOrNoHit(table[1..], e);
      if !NoHit(table[1..], e) {
        var k :| FirstHit(table[1..], e, k);
        assert FirstHit(table, e, k + 1);
      }
    } else if table != [] {
      assert FirstHit(table, e, 0);
    }
  }

  /** The classifier never fails: it names a configured category or the fallback folder. */
  lemma DestinationIsConfigured(c: Config, extension: string)
    ensures var r := DestinationFolder(c, extension);
      r == c.othersFolder || exists k :: 0 <= k < |c.extensionMap| && r == c.extensionMap[k].0
  {
    var e := Lower(extension);
    HitOrNoHit(c.extensionMap, e);
    FirstMatchIsFirstHit(c.extensionMap, e, c.othersFolder);
  }

  /** The classification of an extension, stated without the loop. */
  lemma DestinationFolderExactly(c: Config, extension: string)
    ensures NoHit(c.extensionMap, Lower(extension)) ==> DestinationFolder(c, extension) == c.othersFolder
    ensures forall k :: FirstHit(c.extensionMap, Lower(extension), k) ==>
      DestinationFolder(c, extension) == c.extensionMap[k].0
  {
    FirstMatchIsFirstHit(c.extensionMap, Lower(extension), c.othersFolder);
  }

  /** Any case variant of an extension is filed in the same folder. */
  lemma DestinationIgnoresCase(c: Config, x: string, y: string)
    requires SameUpToCase(x, y)
    ensures DestinationFolder(c, x) == DestinationFolder(c, y)
  {
    LowerIgnoresCase(x, y);
  }

  /** A configured entry containing a capital letter equals no lower-cased argument. */
  lemma CapitalEntryNeverMatches(entry: string, extension: string)
    requires HasUpper(entry)
    ensures Lower(extension) != entry
  {
    LowerHasNoUpper(extension);
  }

  /** An extension list with its entries that contain capital letters removed. */
  function LowerCaseEntries(entries: seq<string>): (r: seq<string>)
    ensures forall e :: e in r <==> e in entries && !HasUpper(e)
  {
    if entries == [] then []
    else if HasUpper(entries[0]) then LowerCaseEntries(entries[1..])
    else [entries[0]] + LowerCaseEntries(entries[1..])
  }

  /** The table with every capitalised entry removed from every folder's list. */
  function WithoutCapitalEntries(table: seq<(string, seq<string>)>): (r: seq<(string, seq<string>)>)
    ensures |r| == |table|
    ensures forall i :: 0 <= i < |table| ==> r[i] == (table[i].0, LowerCaseEntries(table[i].1))
  {
    if table == [] then []
    else [(table[0].0, LowerCaseEntries(table[0].1))] + WithoutCapitalEntries(table[1..])
  }

  /** Capitalised entries take no part in classification: dropping all of them
      leaves the folder of every extension unchanged. */
  lemma {:induction false} CapitalEntriesAreInert(table: seq<(string, seq<string>)>, extension: string, fallback: string)
    ensures FirstMatch(table, Lower(extension), fallback)
         == FirstMatch(WithoutCapitalEntries(table), Lower(extension), fallback)
  {
    if table != [] {
      LowerHasNoUpper(extension);
      CapitalEntriesAreInert(table[1..], extension, fallback);
      assert WithoutCapitalEntries(table)[1..] == WithoutCapitalEntries(table[1..]);
    }
  }
}
