/**
 * `getMeme(id)` and `getMemes(range)`: reading one record file, decorating it with its
 * synthetic tag, and loading a list of ids best-effort.
 */
module MemeLoader {
  import opened Wrappers
  import opened Int32Arith
  import opened IntText
  import opened Entity
  import opened MemeIndex

  /**
   * What opening and decoding the record file of a given name yields: `None` when the file
   * is missing or its contents do not decode, i.e. whenever the read throws.
   */
  type Reader = string -> Option<Meme>

  /** The file `getMeme(id)` opens: the decimal text of the id followed by `.json`. */
  function RecordFileName(id: int): (name: string)
    ensures EndsWith(name, RecordExtension)
    ensures name[..|name| - |RecordExtension|] == IntToString(id)
  {
    var name := IntToString(id) + RecordExtension;
    assert name[|name| - |RecordExtension|..] == RecordExtension;
    name
  }

  /** The record file of an id is listed under that same id. */
  lemma RecordFileNameIndexed(id: Int32)
    ensures EntryId(RecordFileName(id)) == Some(id)
  {
    EntryIdOfRecordName(IntToString(id));
    ParseIntToString(id);
  }

  /**
   * A listed name need not be the file its id is read from: `01.json` is listed as id 1,
   * but loading id 1 opens `1.json`.
   */
  lemma ListedNameNotReadBack()
    ensures EntryId("01.json") == Some(1)
    ensures RecordFileName(1) == "1.json"
  {
    DuplicateNamesEntries();
    RecordFileNameOfOne();
  }

  /** For `ListedNameNotReadBack`: id 1 is read from `1.json`. */
  lemma RecordFileNameOfOne()
    ensures RecordFileName(1) == "1.json"
  {
    assert IntToString(1) == "1";
  }

  /** The tag `"$$id"` every loaded meme receives: a dollar sign followed by the id. */
  function SyntheticTag(id: int): (t: string)
    ensures |t| >= 2 && t[0] == '$' && t[1..] == IntToString(id)
  {
    "$" + IntToString(id)
  }

  /** Distinct ids receive distinct synthetic tags. */
  lemma SyntheticTagInjective(a: int, b: int)
    requires SyntheticTag(a) == SyntheticTag(b)
    ensures a == b
  {
    assert SyntheticTag(a)[1..] == SyntheticTag(b)[1..];
    IntToStringInjective(a, b);
  }

  /**
   * `getMeme(id)`: the decoded record of `id` with its synthetic tag added. The `id` field and
   * every other field stay as decoded; a failing read is `None`.
   */
  function GetMeme(read: Reader, id: int): (r: Option<Meme>)
    ensures r.Some? <==> read(RecordFileName(id)).Some?
    ensures r.Some? ==>
      var m := read(RecordFileName(id)).value;
      && r.value.tags == m.tags + {SyntheticTag(id)}
      && r.value.id == m.id && r.value.title == m.title && r.value.imageUrl == m.imageUrl
      && r.value.originalText == m.originalText && r.value.recognizedText == m.recognizedText
      && r.value.content == m.content && r.value.createdAt == m.createdAt
  {
    match read(RecordFileName(id))
    case None => None
    case Some(m) =>
      var r := WithTags(m, [SyntheticTag(id)]);
      assert r.tags == m.tags + {SyntheticTag(id)};
      Some(r)
  }

  /** Loading one id to a meme, or to `None` when its load throws. */
  type Loader = int -> Option<Meme>

  /** `getMeme` over the record files `read` gives. */
  function Load(read: Reader): Loader {
    id => GetMeme(read, id)
  }

  /**
   * What `getMemes(ids)` produces: the successful loads of `ids`, in the order of `ids`;
   * an id whose load fails contributes nothing.
   */
  function LoadedMemes(load: Loader, ids: seq<int>): (r: seq<Meme>)
    ensures |r| <= |ids|
  {
    if |ids| == 0 then []
    else
      var rest := LoadedMemes(load, ids[1..]);
      match load(ids[0])
      case Some(m) => [m] + rest
      case None => rest
  }

  /** A meme is among the loaded ones exactly when loading one of the ids yields it. */
  lemma {:induction false} LoadedMemesMembers(load: Loader, ids: seq<int>)
    ensures forall m :: m in LoadedMemes(load, ids) <==> exists i :: 0 <= i < |ids| && load(ids[i]) == Some(m)
  {
    if |ids| > 0 {
      LoadedMemesMembers(load, ids[1..]);
      assert forall i :: 1 <= i < |ids| ==> ids[i] == ids[1..][i - 1];
    }
  }

  /** Loading two id lists one after the other gives the two results in that order. */
  lemma {:induction false} LoadedMemesAppend(load: Loader, a: seq<int>, b: seq<int>)
    ensures LoadedMemes(load, a + b) == LoadedMemes(load, a) + LoadedMemes(load, b)
  {
    if |a| == 0 {
      assert a + b == b;
    } else {
      assert (a + b)[1..] == a[1..] + b;
      LoadedMemesAppend(load, a[1..], b);
    }
  }

  /** Loading a prefix of the ids, split at `a`, loads the two parts one after the other. */
  lemma LoadedMemesSplit(load: Loader, ids: seq<int>, a: nat, b: nat)
    requires a <= b <= |ids|
    ensures LoadedMemes(load, ids[..b]) == LoadedMemes(load, ids[..a]) + LoadedMemes(load, ids[a..b])
  {
    assert ids[..b] == ids[..a] + ids[a..b];
    LoadedMemesAppend(load, ids[..a], ids[a..b]);
  }

  /** Loading one more id appends its record, if it loads. */
  lemma LoadedMemesSnoc(load: Loader, ids: seq<int>, i: nat)
    requires i < |ids|
    ensures LoadedMemes(load, ids[..i + 1]) == LoadedMemes(load, ids[..i]) + OneLoaded(load, ids[i])
  {
    assert ids[..i + 1] == ids[..i] + [ids[i]];
    LoadedMemesAppend(load, ids[..i], [ids[i]]);
    assert [ids[i]][1..] == [];
  }

  /** The records loading a single id yields: its record, or nothing. */
  function OneLoaded(load: Loader, id: int): seq<Meme> {
    match load(id)
    case Some(m) => [m]
    case None => []
  }

  /** When no load fails, nothing is dropped: the i-th result is the load of the i-th id. */
  lemma {:induction false} LoadedMemesAllSucceed(load: Loader, ids: seq<int>)
    requires forall i :: 0 <= i < |ids| ==> load(ids[i]).Some?
    ensures |LoadedMemes(load, ids)| == |ids|
    ensures forall i :: 0 <= i < |ids| ==> LoadedMemes(load, ids)[i] == load(ids[i]).value
  {
    if |ids| > 0 {
      LoadedMemesAllSucceed(load, ids[1..]);
    }
  }

  /** Every meme `getMemes` yields carries the synthetic tag of an id it was asked for. */
  lemma LoadedMemesTagged(read: Reader, ids: seq<int>, m: Meme)
    requires m in LoadedMemes(Load(read), ids)
    ensures exists i :: 0 <= i < |ids| && SyntheticTag(ids[i]) in m.tags
  {
    LoadedMemesMembers(Load(read), ids);
    var i :| 0 <= i < |ids| && Load(read)(ids[i]) == Some(m);
    assert GetMeme(read, ids[i]) == Some(m);
  }

  /** `getMemes(range)`: load each id in turn, skipping those whose load throws. */
  method GetMemes(read: Reader, ids: seq<int>) returns (ms: seq<Meme>)
    ensures ms == LoadedMemes(Load(read), ids)
  {
    ms := [];
    for i := 0 to |ids|
      invariant ms == LoadedMemes(Load(read), ids[..i])
    {
      LoadedMemesSnoc(Load(read), ids, i);
      match GetMeme(read, ids[i]) {
        case Some(m) => ms := ms + [m];
        case None =>
      }
    }
    assert ids[..|ids|] == ids;
  }
}
