/**
 * `getMemeIndices`: the ids of the meme records, derived from the names in the record
 * directory. The directory listing is an input; its order is whatever the file system gives.
 */
module MemeIndex {
  import opened Wrappers
  import opened Int32Arith
  import opened IntText
  import opened Sequences

  /** The extension a record file must have. */
  const RecordExtension: string := ".json"

  predicate EndsWith(s: string, suffix: string) {
    |suffix| <= |s| && s[|s| - |suffix|..] == suffix
  }

  /** The position of the last `.` in `s`, if there is one. */
  function LastDot(s: string): (r: Option<nat>)
    ensures r.Some? ==> r.value < |s| && s[r.value] == '.'
    ensures r.Some? ==> forall k :: r.value < k < |s| ==> s[k] != '.'
    ensures r.None? ==> forall k :: 0 <= k < |s| ==> s[k] != '.'
  {
    if |s| == 0 then None
    else if s[|s| - 1] == '.' then Some(|s| - 1)
    else LastDot(s[..|s| - 1])
  }

  /** Kotlin `File.nameWithoutExtension`: the name up to its last dot, or all of it when it has none. */
  function NameWithoutExtension(name: string): (r: string)
    ensures r <= name
    ensures |r| < |name| ==> name[|r|] == '.' && forall k :: |r| < k < |name| ==> name[k] != '.'
    ensures |r| == |name| ==> forall k :: 0 <= k < |name| ==> name[k] != '.'
  {
    match LastDot(name)
    case None => name
    case Some(i) => name[..i]
  }

  /** For a record file the stem is the name with its `.json` removed. */
  lemma RecordNameStem(name: string)
    requires EndsWith(name, RecordExtension)
    ensures NameWithoutExtension(name) == name[..|name| - |RecordExtension|]
  {
    var n := |name|;
    assert name[n - 5..] == ".json";
    assert name[n - 5] == '.';
    assert forall k :: n - 5 < k < n ==> name[k] == ".json"[k - (n - 5)] != '.';
    assert LastDot(name) == Some(n - 5);
  }

  /** The id one directory entry contributes: kept by the `.json` filter, then `toIntOrNull` of its stem. */
  function EntryId(name: string): (r: Option<Int32>)
    ensures r.Some? ==> EndsWith(name, RecordExtension)
    ensures r.Some? ==> ParseInt(name[..|name| - |RecordExtension|]) == r
  {
    if EndsWith(name, RecordExtension) then
      RecordNameStem(name);
      ParseInt(NameWithoutExtension(name))
    else None
  }

  /** The listed entries' ids in listing order, before sorting: one per entry that yields one. */
  function ListedIds(names: seq<string>): (r: seq<Int32>)
    ensures |r| <= |names|
  {
    if |names| == 0 then []
    else
      var rest := ListedIds(names[1..]);
      match EntryId(names[0])
      case Some(x) => [x] + rest
      case None => rest
  }

  /** An id is listed exactly when some entry name yields it. */
  lemma {:induction false} ListedIdsMembers(names: seq<string>)
    ensures forall x :: x in ListedIds(names) <==> exists i :: 0 <= i < |names| && EntryId(names[i]) == Some(x)
  {
    if |names| > 0 {
      ListedIdsMembers(names[1..]);
      assert forall i :: 1 <= i < |names| ==> names[i] == names[1..][i - 1];
    }
  }

  /**
   * `getMemeIndices()`: the ascending sequence of the ids the entries yield, one occurrence per
   * entry, so two names with the same value (`01.json`, `1.json`) give that id twice.
   */
  function MemeIndices(names: seq<string>): (r: seq<int>)
    ensures IsSorted(r)
    ensures multiset(r) == multiset(ListedIds(names))
  {
    SortAscending(ListedIds(names))
  }

  /** An id is in the index exactly when some listed entry yields it, and every id is an `Int`. */
  lemma MemeIndicesMembers(names: seq<string>)
    ensures forall x :: x in MemeIndices(names) <==> exists i :: 0 <= i < |names| && EntryId(names[i]) == Some(x)
    ensures forall k :: 0 <= k < |MemeIndices(names)| ==> MIN <= MemeIndices(names)[k] <= MAX
  {
    var r, listed := MemeIndices(names), ListedIds(names);
    ListedIdsMembers(names);
    forall x
      ensures x in r <==> x in listed
    {
      calc {
        x in r;
        x in multiset(r);
        x in multiset(listed);
        x in listed;
      }
    }
    forall k | 0 <= k < |r|
      ensures MIN <= r[k] <= MAX
    {
      assert r[k] in r;
    }
  }

  /** The ids of two listings put together are the ids of each, in the same order. */
  lemma {:induction false} ListedIdsAppend(a: seq<string>, b: seq<string>)
    ensures ListedIds(a + b) == ListedIds(a) + ListedIds(b)
  {
    if |a| == 0 {
      assert a + b == b;
    } else {
      assert (a + b)[1..] == a[1..] + b;
      ListedIdsAppend(a[1..], b);
    }
  }

  /** The ids of a listing do not depend on the order in which the file system lists it. */
  lemma {:induction false} ListedIdsPermutation(a: seq<string>, b: seq<string>)
    requires multiset(a) == multiset(b)
    ensures multiset(ListedIds(a)) == multiset(ListedIds(b))
  {
    if |a| == 0 {
      assert |multiset(b)| == 0;
      assert b == [];
    } else {
      var x := a[0];
      assert x in multiset(b);
      var j :| 0 <= j < |b| && b[j] == x;
      var rest := b[..j] + b[j + 1..];
      assert b == b[..j] + [x] + b[j + 1..];
      assert a == [x] + a[1..];
      ListedIdsAppend(b[..j] + [x], b[j + 1..]);
      ListedIdsAppend(b[..j], [x]);
      ListedIdsAppend(b[..j], b[j + 1..]);
      ListedIdsAppend([x], a[1..]);
      assert multiset(a[1..]) == multiset(a) - multiset{x};
      assert multiset(rest) == multiset(b) - multiset{x};
      ListedIdsPermutation(a[1..], rest);
    }
  }

  /** Listing the same directory entries in any order gives the same index. */
  lemma MemeIndicesIgnoreListingOrder(a: seq<string>, b: seq<string>)
    requires multiset(a) == multiset(b)
    ensures MemeIndices(a) == MemeIndices(b)
  {
    ListedIdsPermutation(a, b);
    SortedUnique(MemeIndices(a), MemeIndices(b));
  }

  /** A name made of a stem and `.json` yields exactly what `toIntOrNull` makes of the stem. */
  lemma EntryIdOfRecordName(stem: string)
    ensures EntryId(stem + RecordExtension) == ParseInt(stem)
  {
    var name := stem + RecordExtension;
    assert name[|name| - |RecordExtension|..] == RecordExtension;
    RecordNameStem(name);
    assert name[..|name| - |RecordExtension|] == stem;
  }

  /** The index is the ascending arrangement of the listed ids, whichever way it was obtained. */
  lemma MemeIndicesOfListed(names: seq<string>, ids: seq<int>)
    requires IsSorted(ids) && multiset(ids) == multiset(ListedIds(names))
    ensures MemeIndices(names) == ids
  {
    SortedUnique(MemeIndices(names), ids);
  }

  /** For `MemeIndicesKeepDuplicates`: `01.json` and `1.json` both yield id 1. */
  lemma DuplicateNamesEntries()
    ensures EntryId("01.json") == Some(1) && EntryId("1.json") == Some(1)
  {
    ParseIntExamples();
    EntryIdOfRecordName("01");
    assert "01" + RecordExtension == "01.json";
    EntryIdOfRecordName("1");
    assert "1" + RecordExtension == "1.json";
  }

  /** For `MemeIndicesKeepDuplicates`: the two names are listed as `[1, 1]`. */
  lemma DuplicateNamesListed()
    ensures ListedIds(["01.json", "1.json"]) == [1, 1]
  {
    DuplicateNamesEntries();
    assert ["01.json", "1.json"] == ["01.json"] + ["1.json"];
    ListedIdsAppend(["01.json"], ["1.json"]);
  }

  /** Names that denote the same value each contribute it: duplicates survive. */
  lemma MemeIndicesKeepDuplicates()
    ensures MemeIndices(["01.json", "1.json"]) == [1, 1]
  {
    DuplicateNamesListed();
    MemeIndicesOfListed(["01.json", "1.json"], [1, 1]);
  }

  /** For `MemeIndicesFilterAndSort`: what each of the four mixed names yields. */
  lemma MixedNamesEntries()
    ensures EntryId("5.json") == Some(5) && EntryId("notes.txt") == None
    ensures EntryId("-3.json") == Some(-3) && EntryId("1.2.json") == None
  {
    NumberNamesEntries();
    OtherNamesEntries();
  }

  /** For `MixedNamesEntries`: the two numeric record names. */
  lemma NumberNamesEntries()
    ensures EntryId("5.json") == Some(5) && EntryId("-3.json") == Some(-3)
  {
    ParseIntExamples();
    assert ParseInt("5") == Some(5) by { assert DigitsValue("5") == 5; }
    EntryIdOfRecordName("5");
    assert "5" + RecordExtension == "5.json";
    EntryIdOfRecordName("-3");
    assert "-3" + RecordExtension == "-3.json";
  }

  /** For `MixedNamesEntries`: the name without `.json` and the non-`Int` stem. */
  lemma OtherNamesEntries()
    ensures EntryId("notes.txt") == None && EntryId("1.2.json") == None
  {
    assert ParseInt("1.2") == None by { assert !IsDigit("1.2"[1]); }
    EntryIdOfRecordName("1.2");
    assert "1.2" + RecordExtension == "1.2.json";
    assert "notes.txt"[4..] != RecordExtension;
  }

  /** For `MixedNamesListed`: a one-entry listing yields that entry's id, if any. */
  lemma ListedIdsOne(name: string)
    ensures ListedIds([name]) == match EntryId(name) case Some(x) => [x] case None => []
  {
    assert [name][1..] == [];
  }

  /** For `MixedNamesListed`: a two-entry listing yields the ids of each entry in turn. */
  lemma ListedIdsPair(a: string, b: string)
    ensures ListedIds([a, b]) == ListedIds([a]) + ListedIds([b])
  {
    assert [a] + [b] == [a, b];
    ListedIdsAppend([a], [b]);
  }

  /** For `MemeIndicesFilterAndSort`: the mixed listing yields `[5, -3]` before sorting. */
  lemma MixedNamesListed()
    ensures ListedIds(["5.json", "notes.txt", "-3.json", "1.2.json"]) == [5, -3]
  {
    var names := ["5.json", "notes.txt", "-3.json", "1.2.json"];
    assert ListedIds(["5.json", "notes.txt"]) == [5] by {
      MixedNamesEntries();
      ListedIdsOne("5.json");
      ListedIdsOne("notes.txt");
      ListedIdsPair("5.json", "notes.txt");
    }
    assert ListedIds(["-3.json", "1.2.json"]) == [-3] by {
      MixedNamesEntries();
      ListedIdsOne("-3.json");
      ListedIdsOne("1.2.json");
      ListedIdsPair("-3.json", "1.2.json");
    }
    assert ["5.json", "notes.txt"] + ["-3.json", "1.2.json"] == names;
    ListedIdsAppend(["5.json", "notes.txt"], ["-3.json", "1.2.json"]);
  }

  /**
   * Negative ids survive, names without `.json` are dropped, and so is a stem that is not an
   * `Int` ("1.2" of `1.2.json`); the result is ascending whatever the listing order.
   */
  lemma MemeIndicesFilterAndSort()
    ensures MemeIndices(["5.json", "notes.txt", "-3.json", "1.2.json"]) == [-3, 5]
  {
    MixedNamesListed();
    assert multiset([5, -3]) == multiset([-3, 5]);
    MemeIndicesOfListed(["5.json", "notes.txt", "-3.json", "1.2.json"], [-3, 5]);
  }
}
