/** What a `FileLocation` reads from its storage: a snapshot standing for
    the storage adapter, the single-file lookup behind `getFile`, the
    content behind `readFile`/`putFile`, and the listing pipeline behind
    `listFiles` and `listFilesWithNamesStartingWith`. */
module Listing {
  import opened Errors
  import opened PhpStrings
  import opened Sequences
  import opened LocationPaths
  import opened FileInfo

  /** What the adapter reports for one path. */
  datatype Stat = FileStat(size: nat, timestamp: nat) | DirectoryStat

  /** A snapshot of the storage behind a location: the records its listing
      returns, in listing order; the entry stored under each name; and the
      content stored under each name, `None` where a read reports failure
      (PHP `false`). A name missing from `contents` cannot be read at all.
      A put under a name in `unwritable` is reported as failed. */
  datatype Store = Store(
    listing: seq<Record>,
    stats: map<string, Stat>,
    contents: map<string, Option<string>>,
    unwritable: set<string>)

  /** The `$withExtension` argument of `listFiles`: null, one string, an
      array of strings, or a value of any other type. */
  datatype ExtensionFilter = NoFilter | Single(ext: string) | Extensions(exts: seq<string>) | Invalid

  /** null becomes the empty list, a string a one-element list, an array
      is kept, anything else is rejected. */
  function NormaliseFilter(f: ExtensionFilter): (r: Result<seq<string>>)
    ensures r.Err? <==> f.Invalid?
    ensures r.Err? ==> r.error == InvalidExtensionFilter && r.error.Class() == InvalidArgumentException
    ensures f.NoFilter? ==> r == Ok([])
    ensures f.Single? ==> r == Ok([f.ext])
    ensures f.Extensions? ==> r == Ok(f.exts)
  {
    match f
    case NoFilter => Ok([])
    case Single(e) => Ok([e])
    case Extensions(es) => Ok(es)
    case Invalid => Err(InvalidExtensionFilter)
  }

  /** The `array_filter` callback of `listFiles`: a file entry whose
      extension is strictly one of `exts`, or any file entry when `exts`
      is empty. */
  predicate Kept(rec: Record, exts: seq<string>)
    ensures Kept(rec, exts) ==> rec.kind == Some("file")
    ensures Kept(rec, exts) && exts != [] ==> rec.extension.Some? && rec.extension.value in exts
  {
    && rec.kind == Some("file")
    && (exts == [] || (rec.extension.Some? && rec.extension.value in exts))
  }

  function KeptFor(exts: seq<string>): Record -> bool {
    (rec: Record) => Kept(rec, exts)
  }

  /** The listing records `listFiles` turns into handles, in listing order. */
  function Selected(listing: seq<Record>, exts: seq<string>): (r: seq<Record>)
    ensures |r| <= |listing|
    ensures forall rec :: rec in r ==> rec in listing && Kept(rec, exts)
  {
    Filtered(listing, KeptFor(exts))
  }

  /** `array_map` of the `File` constructor over records: every record is
      validated in order and the first rejection is the result. */
  function MapValidate(recs: seq<Record>): (r: Result<seq<Meta>>)
    ensures r.Ok? ==> |r.value| == |recs|
  {
    if recs == [] then Ok([])
    else
      match MapValidate(recs[..|recs| - 1])
      case Err(e) => Err(e)
      case Ok(ms) =>
        match Validate(recs[|recs| - 1])
        case Err(e) => Err(e)
        case Ok(m) => Ok(ms + [m])
  }

  /** Mapping succeeds exactly when every record validates, and then holds
      each record's metadata at the record's position. */
  lemma {:induction false} MapValidateOk(recs: seq<Record>)
    ensures MapValidate(recs).Ok? <==> forall i :: 0 <= i < |recs| ==> Validate(recs[i]).Ok?
    ensures MapValidate(recs).Ok? ==>
              forall i :: 0 <= i < |recs| ==> Validate(recs[i]) == Ok(MapValidate(recs).value[i])
  {
    if recs != [] {
      var recs' := recs[..|recs| - 1];
      MapValidateOk(recs');
      assert forall i :: 0 <= i < |recs'| ==> recs'[i] == recs[i];
    }
  }

  /** A failing mapping reports the error of the first record that fails. */
  lemma {:induction false} MapValidateFirstError(recs: seq<Record>)
    requires MapValidate(recs).Err?
    ensures exists i :: 0 <= i < |recs| && Validate(recs[i]) == Err(MapValidate(recs).error)
                        && forall j :: 0 <= j < i ==> Validate(recs[j]).Ok?
  {
    var recs' := recs[..|recs| - 1];
    assert forall i :: 0 <= i < |recs'| ==> recs'[i] == recs[i];
    if MapValidate(recs').Err? {
      MapValidateFirstError(recs');
      var i :| 0 <= i < |recs'| && Validate(recs'[i]) == Err(MapValidate(recs').error)
               && forall j :: 0 <= j < i ==> Validate(recs'[j]).Ok?;
      assert Validate(recs[i]) == Err(MapValidate(recs).error);
    } else {
      MapValidateOk(recs');
      var i := |recs| - 1;
      assert Validate(recs[i]) == Err(MapValidate(recs).error);
    }
  }

  /** Mapping one more record extends the result or fails with that
      record's error. */
  lemma MapValidateStep(recs: seq<Record>, i: nat)
    requires i < |recs| && MapValidate(recs[..i]).Ok?
    ensures MapValidate(recs[..i + 1]) ==
              match Validate(recs[i])
              case Ok(m) => Ok(MapValidate(recs[..i]).value + [m])
              case Err(e) => Err(e)
  {
    assert recs[..i + 1][..i] == recs[..i];
  }

  /** Once a prefix of the records fails, the whole mapping fails the same way. */
  lemma {:induction false} MapValidatePrefixError(recs: seq<Record>, k: nat)
    requires k <= |recs| && MapValidate(recs[..k]).Err?
    ensures MapValidate(recs) == MapValidate(recs[..k])
    decreases |recs|
  {
    if k < |recs| {
      var recs' := recs[..|recs| - 1];
      assert recs'[..k] == recs[..k];
      MapValidatePrefixError(recs', k);
    } else {
      assert recs[..k] == recs;
    }
  }

  /** The handles' metadata `listFiles($f)` returns. The filter is
      normalised before the adapter is touched. */
  function ListedMetas(c: Config, s: Store, f: ExtensionFilter): (r: Result<seq<Meta>>)
    ensures !AdapterAvailable(c) || f.Invalid? ==> r.Err?
    ensures r.Ok? ==> |r.value| <= |s.listing|
  {
    match NormaliseFilter(f)
    case Err(e) => Err(e)
    case Ok(exts) =>
      if !AdapterAvailable(c) then Err(AdapterUnavailable)
      else MapValidate(Selected(s.listing, exts))
  }

  /** The `array_filter` callback of `listFilesWithNamesStartingWith`:
      `0 === strpos($file->name, $prefix)`. */
  function StartsWith(prefix: string): Meta -> bool
    requires prefix != []
  {
    (m: Meta) => StrPos(m.name, prefix) == Some(0)
  }

  /** The handles' metadata `listFilesWithNamesStartingWith($p, $f)` returns. */
  function PrefixedMetas(c: Config, s: Store, prefix: string, f: ExtensionFilter): (r: Result<seq<Meta>>)
    requires prefix != []
    ensures r.Ok? <==> ListedMetas(c, s, f).Ok?
    ensures r.Ok? ==> |r.value| <= |ListedMetas(c, s, f).value|
    ensures r.Ok? ==> forall m :: m in r.value ==>
                        m in ListedMetas(c, s, f).value && StrPos(m.name, prefix) == Some(0)
  {
    match ListedMetas(c, s, f)
    case Err(e) => Err(e)
    case Ok(ms) => Ok(Filtered(ms, StartsWith(prefix)))
  }

  /** The record `getFile` builds from a file entry: type "file", the
      entry's timestamp and size, `pathinfo` parts of the name, and the
      name itself as base name. */
  function StatRecord(name: string, size: nat, timestamp: nat): Record {
    Record(Some("file"), Some(timestamp), Some(size), Some(name),
           Some(PathExtension(name)), Some(PathFilename(name)))
  }

  /** `getFile($name)`: the metadata of the handle it returns, `None` for
      null (no entry, or an entry that is not a file). */
  function FetchMeta(c: Config, s: Store, name: string): (r: Result<Option<Meta>>)
    ensures r.Err? ==> r.error != AlreadyLoaded
    ensures !AdapterAvailable(c) ==> r == Err(AdapterUnavailable)
    ensures r == Ok(None) <==> AdapterAvailable(c) && (name !in s.stats || s.stats[name].DirectoryStat?)
    ensures r.Ok? && r.value.Some? ==> r.value.value.basename == name && r.value.value.Consistent()
  {
    if !AdapterAvailable(c) then Err(AdapterUnavailable)
    else if name in s.stats && s.stats[name].FileStat? then
      var rec := StatRecord(name, s.stats[name].size, s.stats[name].timestamp);
      match Validate(rec)
      case Ok(m) => ValidateAccepts(rec); Ok(Some(m))
      case Err(e) => Err(e)
    else Ok(None)
  }

  /** `readFile($name)`: the stored content, `None` for `false`. */
  function ReadFile(c: Config, s: Store, name: string): (r: Result<Option<string>>)
    ensures r.Ok? ==> name in s.contents && r.value == s.contents[name]
    ensures r.Err? ==> r.error == AdapterUnavailable || r.error == ContentNotFound(name)
  {
    if !AdapterAvailable(c) then Err(AdapterUnavailable)
    else if name in s.contents then Ok(s.contents[name])
    else Err(ContentNotFound(name))
  }

  /** The snapshot after `putFile($name, $content)` succeeded. */
  function Put(s: Store, name: string, content: string): (r: Store)
    ensures r.listing == s.listing && r.stats == s.stats && r.unwritable == s.unwritable
    ensures r.contents.Keys == s.contents.Keys + {name} && r.contents[name] == Some(content)
  {
    s.(contents := s.contents[name := Some(content)])
  }

  // ---------------------------------------------------------------------
  // Properties of the listing

  /** A listing record is selected exactly when it is a file entry whose
      extension is in the filter (or the filter is empty). */
  lemma SelectedMember(listing: seq<Record>, exts: seq<string>, rec: Record)
    ensures rec in Selected(listing, exts) <==>
              && rec in listing && rec.kind == Some("file")
              && (exts == [] || (rec.extension.Some? && rec.extension.value in exts))
  {
    FilteredMember(listing, KeptFor(exts), rec);
  }

  /** Selection keeps listing order: it distributes over concatenation. */
  lemma SelectedKeepsOrder(a: seq<Record>, b: seq<Record>, exts: seq<string>)
    ensures Selected(a + b, exts) == Selected(a, exts) + Selected(b, exts)
  {
    FilteredAppend(a, b, KeptFor(exts));
  }

  /** null, the empty array, a string and its one-element array select
      alike; a filter of any other type is rejected. */
  lemma FilterNormalisation(c: Config, s: Store, e: string)
    ensures ListedMetas(c, s, NoFilter) == ListedMetas(c, s, Extensions([]))
    ensures ListedMetas(c, s, Single(e)) == ListedMetas(c, s, Extensions([e]))
    ensures ListedMetas(c, s, Invalid) == Err(InvalidExtensionFilter)
  {
  }

  /** `listFiles($f)` returns one handle per selected record, in order,
      carrying that record's values. */
  lemma ListedMetasAreSelected(c: Config, s: Store, f: ExtensionFilter)
    requires ListedMetas(c, s, f).Ok?
    ensures NormaliseFilter(f).Ok? && AdapterAvailable(c)
    ensures var sel := Selected(s.listing, NormaliseFilter(f).value);
            var ms := ListedMetas(c, s, f).value;
            |ms| == |sel| &&
            forall i :: 0 <= i < |ms| ==>
              && sel[i] in s.listing && sel[i].kind == Some("file") && AllSet(sel[i])
              && ms[i].basename == sel[i].basename.value && ms[i].name == sel[i].filename.value
              && ms[i].ext == sel[i].extension.value
              && ms[i].size == sel[i].size.value && ms[i].timestamp == sel[i].timestamp.value
  {
    var exts := NormaliseFilter(f).value;
    var sel := Selected(s.listing, exts);
    MapValidateOk(sel);
    forall i | 0 <= i < |sel|
      ensures sel[i] in s.listing && sel[i].kind == Some("file") && AllSet(sel[i])
      ensures Validate(sel[i]).value == Meta(sel[i].basename.value, sel[i].filename.value,
                                             sel[i].extension.value, sel[i].size.value, sel[i].timestamp.value)
    {
      SelectedMember(s.listing, exts, sel[i]);
      ValidateAccepts(sel[i]);
    }
  }

  /** With a non-empty filter, every handle's extension is in the filter. */
  lemma ListedExtensionsInFilter(c: Config, s: Store, f: ExtensionFilter)
    requires ListedMetas(c, s, f).Ok?
    requires NormaliseFilter(f).Ok? && NormaliseFilter(f).value != []
    ensures forall m :: m in ListedMetas(c, s, f).value ==> m.ext in NormaliseFilter(f).value
  {
    var exts := NormaliseFilter(f).value;
    var sel := Selected(s.listing, exts);
    var ms := ListedMetas(c, s, f).value;
    ListedMetasAreSelected(c, s, f);
    forall m | m in ms
      ensures m.ext in exts
    {
      var i :| 0 <= i < |ms| && ms[i] == m;
      SelectedMember(s.listing, exts, sel[i]);
    }
  }

  lemma {:induction false} MapValidateSubsequence(a: seq<Record>, b: seq<Record>)
    requires IsSubsequence(a, b) && MapValidate(b).Ok?
    ensures MapValidate(a).Ok? && IsSubsequence(MapValidate(a).value, MapValidate(b).value)
    decreases |b|
  {
    if a != [] {
      var a', b' := a[..|a| - 1], b[..|b| - 1];
      var y := b[|b| - 1];
      var mb' := MapValidate(b').value;
      var m := Validate(y).value;
      assert MapValidate(b).value == mb' + [m];
      if a[|a| - 1] == y {
        MapValidateSubsequence(a', b');
        var ma' := MapValidate(a').value;
        assert MapValidate(a).value == ma' + [m];
        assert (ma' + [m])[..|ma' + [m]| - 1] == ma';
        assert (mb' + [m])[..|mb' + [m]| - 1] == mb';
      } else {
        MapValidateSubsequence(a, b');
        SubsequenceExtend(MapValidate(a).value, mb', m);
      }
    }
  }

  /** Whatever a filter selects, it selects a subsequence of the unfiltered
      listing; in particular `listFiles("txt")` is contained, in order, in
      `listFiles()`. */
  lemma ListFilesNarrows(c: Config, s: Store, f: ExtensionFilter)
    requires !f.Invalid? && ListedMetas(c, s, NoFilter).Ok?
    ensures ListedMetas(c, s, f).Ok?
    ensures IsSubsequence(ListedMetas(c, s, f).value, ListedMetas(c, s, NoFilter).value)
  {
    var exts := NormaliseFilter(f).value;
    FilteredMonotone(s.listing, KeptFor(exts), KeptFor([]));
    MapValidateOk(Selected(s.listing, []));
    MapValidateSubsequence(Selected(s.listing, exts), Selected(s.listing, []));
  }

  /** `listFilesWithNamesStartingWith($p, $f)` is the part of `listFiles($f)`
      whose names start with `p`, in order, and it is contained in
      `listFilesWithNamesStartingWith($p)`. */
  lemma PrefixedNarrows(c: Config, s: Store, prefix: string, f: ExtensionFilter)
    requires prefix != []
    requires PrefixedMetas(c, s, prefix, f).Ok?
    ensures ListedMetas(c, s, f).Ok?
    ensures IsSubsequence(PrefixedMetas(c, s, prefix, f).value, ListedMetas(c, s, f).value)
    ensures forall m :: m in PrefixedMetas(c, s, prefix, f).value <==>
                          m in ListedMetas(c, s, f).value && prefix <= m.name
    ensures PrefixedMetas(c, s, prefix, NoFilter).Ok? ==>
              IsSubsequence(PrefixedMetas(c, s, prefix, f).value, PrefixedMetas(c, s, prefix, NoFilter).value)
  {
    var ms := ListedMetas(c, s, f).value;
    FilteredIsSubsequence(ms, StartsWith(prefix));
    forall m
      ensures m in PrefixedMetas(c, s, prefix, f).value <==> m in ms && prefix <= m.name
    {
      FilteredMember(ms, StartsWith(prefix), m);
      StrPosZeroIffPrefix(m.name, prefix);
    }
    if PrefixedMetas(c, s, prefix, NoFilter).Ok? {
      ListFilesNarrows(c, s, f);
      FilteredPreservesSubsequence(ms, ListedMetas(c, s, NoFilter).value, StartsWith(prefix));
    }
  }

  // ---------------------------------------------------------------------
  // Properties of getFile and readFile/putFile

  /** `getFile` yields null for a name with no entry or a directory entry. */
  lemma FetchMetaAbsent(c: Config, s: Store, name: string)
    requires AdapterAvailable(c)
    requires name !in s.stats || s.stats[name].DirectoryStat?
    ensures FetchMeta(c, s, name) == Ok(None)
  {
  }

  /** For a file entry under a name without '/', `getFile` yields a loaded
      handle whose base name is the name, whose name and extension split
      it at the last '.', and whose size and timestamp are the entry's. */
  lemma FetchMetaOfFile(c: Config, s: Store, name: string)
    requires AdapterAvailable(c) && '/' !in name
    requires name in s.stats && s.stats[name].FileStat?
    ensures FetchMeta(c, s, name) ==
              Ok(Some(Meta(name, PathFilename(name), PathExtension(name),
                           s.stats[name].size, s.stats[name].timestamp)))
    ensures PathExtension(name) != "" ==> name == PathFilename(name) + "." + PathExtension(name)
  {
    PathInfoSplit(name);
    var rec := StatRecord(name, s.stats[name].size, s.stats[name].timestamp);
    ValidateAccepts(rec);
    if PathExtension(name) != "" {
      assert '.' in name;
    }
  }

  /** A name with a directory part and a non-empty extension does not
      survive validation: `pathinfo` drops the directory from the file
      name, but the base name keeps it. */
  lemma FetchMetaWithDirectory(c: Config, s: Store, dir: string, base: string)
    requires AdapterAvailable(c)
    requires '/' !in base && '.' in base && base[|base| - 1] != '.'
    requires dir + "/" + base in s.stats && s.stats[dir + "/" + base].FileStat?
    ensures FetchMeta(c, s, dir + "/" + base) == Err(InvalidFileInfo)
  {
    var name := dir + "/" + base;
    BaseNameAfterDirectory(dir, base);
    PathInfoOfBaseName(name);
    PathInfoSplit(base);
    var ext, filename := PathExtension(base), PathFilename(base);
    var i := LastIndexOf(base, '.').value;
    assert ext == base[i + 1..] != "";
    assert filename + "." + ext == base;
    assert |name| > |base|;
    var rec := StatRecord(name, s.stats[name].size, s.stats[name].timestamp);
    assert rec == Record(Some("file"), Some(s.stats[name].timestamp), Some(s.stats[name].size),
                         Some(name), Some(ext), Some(filename));
    assert AllSet(rec);
    assert name != filename + "." + ext;
    ValidateRejects(rec);
  }

  /** After a successful put, reading the same name returns what was put;
      every other name reads as before. */
  lemma ReadAfterPut(c: Config, s: Store, name: string, content: string, other: string)
    requires AdapterAvailable(c)
    ensures ReadFile(c, Put(s, name, content), name) == Ok(Some(content))
    ensures other != name ==> ReadFile(c, Put(s, name, content), other) == ReadFile(c, s, other)
  {
  }
}
