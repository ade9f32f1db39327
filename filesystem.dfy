/** The two classes of the filesystem tools: `FileLocation`, a configured
    location over a storage snapshot, and `File`, a handle that is either
    name-only or loaded and loads itself on the first property read. */
module Filesystem {
  import opened Errors
  import opened Sequences
  import opened PhpStrings
  import opened LocationPaths
  import opened FileInfo
  import opened Listing

  /** What a property read on a `File` yields; `NoContent` is the `false`
      that `readFile` passes on when the storage reports a failed read. */
  datatype Value = Str(s: string) | Int(i: int) | NoContent

  /** The `$fileInfo` argument of the `File` constructor: an array record,
      a string naming the file, or a value of any other type. */
  datatype FileArg = InfoRecord(rec: Record) | InfoName(name: string) | InfoOther

  /** What loading a name-only handle whose base name is `basename`
      produces: the fetched file's metadata, or the error `load()` raises.
      When there is no such file the error carries `getFileUrl`'s URL, so
      it is `getFileUrl`'s own error if that fails. */
  function Resolve(c: Config, s: Store, basename: string): (r: Result<Meta>)
    ensures r.Err? ==> r.error != AlreadyLoaded
  {
    match FetchMeta(c, s, basename)
    case Err(e) => Err(e)
    case Ok(None) =>
      (match FileUrl(c, basename)
       case Ok(url) => Err(FileNotAvailable(url))
       case Err(e) => Err(e))
    case Ok(Some(m)) => Ok(m)
  }

  /** The `content` property: a fresh read through the location. A read
      that throws becomes `UnreadableContent` with the file's URL. */
  function ContentOf(c: Config, s: Store, basename: string): (r: Result<Value>)
    ensures r.Err? ==> r.error != AlreadyLoaded
  {
    match ReadFile(c, s, basename)
    case Ok(Some(text)) => Ok(Str(text))
    case Ok(None) => Ok(NoContent)
    case Err(_) =>
      (match FileUrl(c, basename)
       case Ok(url) => Err(UnreadableContent(url))
       case Err(e) => Err(e))
  }

  /** A loaded handle exposes the metadata of its file, or fails with the
      error `load()` raised; a missing file is reported with its URL. */
  lemma ResolveOutcomes(c: Config, s: Store, basename: string)
    ensures AdapterAvailable(c) && (basename !in s.stats || s.stats[basename].DirectoryStat?) ==>
              Resolve(c, s, basename) == Err(FileNotAvailable(FileUrl(c, basename).value))
    ensures !AdapterAvailable(c) ==> Resolve(c, s, basename) == Err(AdapterUnavailable)
    ensures Resolve(c, s, basename).Ok? ==> Resolve(c, s, basename).value.Consistent()
  {
    AdapterAvailableIffLocationPath(c);
  }

  /** Reading `content` fails, when the location is usable, only with
      `UnreadableContent` (a `RuntimeException`) naming the file's URL;
      it never fails when the storage has content (or `false`) under the
      name. */
  lemma ContentErrors(c: Config, s: Store, basename: string)
    requires AdapterAvailable(c)
    ensures ContentOf(c, s, basename).Err? <==> basename !in s.contents
    ensures ContentOf(c, s, basename).Err? ==>
              ContentOf(c, s, basename).error == UnreadableContent(FileUrl(c, basename).value)
  {
    if basename in s.contents {
      ContentReadable(c, s, basename);
    } else {
      ContentUnreadable(c, s, basename);
    }
  }

  lemma ContentReadable(c: Config, s: Store, basename: string)
    requires AdapterAvailable(c) && basename in s.contents
    ensures ContentOf(c, s, basename) ==
              Ok(if s.contents[basename].Some? then Str(s.contents[basename].value) else NoContent)
  {
    assert ReadFile(c, s, basename) == Ok(s.contents[basename]);
  }

  lemma ContentUnreadable(c: Config, s: Store, basename: string)
    requires AdapterAvailable(c) && basename !in s.contents
    ensures FileUrl(c, basename).Ok?
    ensures ContentOf(c, s, basename) == Err(UnreadableContent(FileUrl(c, basename).value))
  {
    AdapterAvailableIffLocationPath(c);
    assert ReadFile(c, s, basename) == Err(ContentNotFound(basename));
  }

  /** Content is whatever the storage holds now: after a put, the handle's
      content is the new content. */
  lemma ContentAfterPut(c: Config, s: Store, basename: string, content: string)
    requires AdapterAvailable(c)
    ensures ContentOf(c, Put(s, basename, content), basename) == Ok(Str(content))
  {
    ReadAfterPut(c, s, basename, content, basename);
  }

  /** A name-only handle, once loaded, holds the same metadata as the handle
      `listFiles` builds for the same file, provided the listing record and
      the storage entry describe that file alike. */
  lemma LoadedMatchesListed(c: Config, s: Store, rec: Record)
    requires AdapterAvailable(c)
    requires AllSet(rec) && rec.kind == Some("file")
    requires '/' !in rec.basename.value
    requires rec.basename.value in s.stats && s.stats[rec.basename.value].FileStat?
    requires rec.extension == Some(PathExtension(rec.basename.value))
    requires rec.filename == Some(PathFilename(rec.basename.value))
    requires rec.size == Some(s.stats[rec.basename.value].size as int)
    requires rec.timestamp == Some(s.stats[rec.basename.value].timestamp as int)
    ensures Resolve(c, s, rec.basename.value) == Validate(rec)
  {
    var name := rec.basename.value;
    assert StatRecord(name, s.stats[name].size, s.stats[name].timestamp) == rec;
  }

  class FileLocation {
    const config: Config
    /** The storage the location's adapter reaches. */
    var store: Store

    constructor (config: Config, store: Store)
      ensures this.config == config && this.store == store
    {
      this.config := config;
      this.store := store;
    }

    /** `getFile`: a loaded handle for a file entry, null otherwise. */
    method GetFile(name: string) returns (r: Result<File?>)
      ensures r.Ok? <==> FetchMeta(config, store, name).Ok?
      ensures r.Err? ==> r.error == FetchMeta(config, store, name).error
      ensures r.Ok? ==> (r.value == null <==> FetchMeta(config, store, name).value.None?)
      ensures r.Ok? && r.value != null ==>
                && fresh(r.value) && r.value.location == this
                && r.value.isLoaded && r.value.Valid()
                && r.value.Metadata() == FetchMeta(config, store, name).value.value
    {
      if !AdapterAvailable(config) {
        return Err(AdapterUnavailable);
      }
      if name in store.stats && store.stats[name].FileStat? {
        var entry := store.stats[name];
        var created := File.Create(this, InfoRecord(StatRecord(name, entry.size, entry.timestamp)));
        match created
        case Ok(f) => r := Ok(f);
        case Err(e) => r := Err(e);
      } else {
        r := Ok(null);
      }
    }

    /** `putFile`: store the content under the name, or report `false`
        when the storage refuses the write. */
    method PutFile(name: string, content: string) returns (r: Result<bool>)
      modifies this
      ensures !AdapterAvailable(config) ==> r == Err(AdapterUnavailable) && store == old(store)
      ensures AdapterAvailable(config) && name in old(store).unwritable ==> r == Ok(false) && store == old(store)
      ensures AdapterAvailable(config) && name !in old(store).unwritable ==>
                r == Ok(true) && store == Put(old(store), name, content)
    {
      if !AdapterAvailable(config) {
        return Err(AdapterUnavailable);
      }
      if name in store.unwritable {
        return Ok(false);
      }
      store := Put(store, name, content);
      r := Ok(true);
    }

    /** `listFiles`: a loaded handle per selected listing record, in order. */
    method ListFiles(filter: ExtensionFilter) returns (r: Result<seq<File>>)
      ensures r.Ok? <==> ListedMetas(config, store, filter).Ok?
      ensures r.Err? ==> r.error == ListedMetas(config, store, filter).error
      ensures r.Ok? ==> Handles(r.value, this) && Metas(r.value) == ListedMetas(config, store, filter).value
      ensures r.Ok? ==> forall f :: f in r.value ==> fresh(f)
    {
      var exts: seq<string>;
      match NormaliseFilter(filter)
      case Err(e) => return Err(e);
      case Ok(es) => exts := es;
      if !AdapterAvailable(config) {
        return Err(AdapterUnavailable);
      }
      r := BuildHandles(Selected(store.listing, exts));
    }

    /** The `array_map` step of `listFiles`: a loaded handle of this
        location per record, in order, or the first record's rejection. */
    method BuildHandles(records: seq<Record>) returns (r: Result<seq<File>>)
      ensures r.Ok? <==> MapValidate(records).Ok?
      ensures r.Err? ==> r.error == MapValidate(records).error
      ensures r.Ok? ==> Handles(r.value, this) && Metas(r.value) == MapValidate(records).value
      ensures r.Ok? ==> forall f :: f in r.value ==> fresh(f)
    {
      var files: seq<File> := [];
      var i := 0;
      BuiltNone(records, this);
      while i < |records|
        invariant 0 <= i <= |records|
        invariant BuiltSoFar(records, files, i, this)
        invariant forall g :: g in files ==> fresh(g)
      {
        var created := File.Create(this, InfoRecord(records[i]));
        if created.Err? {
          BuiltFails(records, files, i, this);
          return Err(created.error);
        }
        var f := created.value;
        BuiltStep(records, files, i, this, f);
        files := files + [f];
        i := i + 1;
      }
      BuiltAll(records, files, this);
      r := Ok(files);
    }

    /** `listFilesWithNamesStartingWith`: the handles of `listFiles` whose
        name starts with the (non-empty) prefix, in order. */
    method ListFilesWithNamesStartingWith(prefix: string, filter: ExtensionFilter)
      returns (r: Result<seq<File>>)
      requires prefix != []
      ensures r.Ok? <==> PrefixedMetas(config, store, prefix, filter).Ok?
      ensures r.Err? ==> r.error == PrefixedMetas(config, store, prefix, filter).error
      ensures r.Ok? ==> Handles(r.value, this)
                        && Metas(r.value) == PrefixedMetas(config, store, prefix, filter).value
      ensures r.Ok? ==> forall f :: f in r.value ==> fresh(f)
    {
      var listed := ListFiles(filter);
      if listed.Err? {
        return Err(listed.error);
      }
      var all := listed.value;
      var kept := KeepNamesStartingWith(all, prefix);
      HandlesOfPart(all, kept, this);
      r := Ok(kept);
    }
  }

  /** The required-key loop of `validateAndSetFileInfo`: the first required
      key, in order, that the record does not set. */
  method MissingRequiredKey(rec: Record) returns (missing: Option<string>)
    ensures missing == FirstMissing(rec, Required)
  {
    var i := 0;
    while i < |Required|
      invariant 0 <= i <= |Required|
      invariant FirstMissing(rec, Required) == FirstMissing(rec, Required[i..])
    {
      assert Required[i..][1..] == Required[i + 1..];
      if !IsSet(rec, Required[i]) {
        return Some(Required[i]);
      }
      i := i + 1;
    }
    missing := None;
  }

  /** The loop invariant of `ListFiles` after `i` records: one loaded
      handle of the location per record, carrying that record's metadata. */
  ghost predicate BuiltSoFar(records: seq<Record>, files: seq<File>, i: nat, location: FileLocation)
    reads files
  {
    && i <= |records| && |files| == i
    && Handles(files, location)
    && MapValidate(records[..i]) == Ok(Metas(files))
  }

  lemma BuiltNone(records: seq<Record>, location: FileLocation)
    ensures BuiltSoFar(records, [], 0, location)
  {
    assert records[..0] == [];
  }

  lemma BuiltStep(records: seq<Record>, files: seq<File>, i: nat, location: FileLocation, f: File)
    requires i < |records| && BuiltSoFar(records, files, i, location)
    requires f.location == location && f.isLoaded && f.Valid()
    requires Validate(records[i]) == Ok(f.Metadata())
    ensures BuiltSoFar(records, files + [f], i + 1, location)
  {
    MapValidateStep(records, i);
    MetasAppend(files, f);
    HandlesAppend(files, f, location);
  }

  lemma BuiltFails(records: seq<Record>, files: seq<File>, i: nat, location: FileLocation)
    requires i < |records| && BuiltSoFar(records, files, i, location)
    requires Validate(records[i]).Err?
    ensures MapValidate(records) == Err(Validate(records[i]).error)
  {
    MapValidateStep(records, i);
    MapValidatePrefixError(records, i + 1);
  }

  lemma BuiltAll(records: seq<Record>, files: seq<File>, location: FileLocation)
    requires BuiltSoFar(records, files, |records|, location)
    ensures Handles(files, location) && MapValidate(records) == Ok(Metas(files))
  {
    assert records[..|records|] == records;
  }

  /** Loaded, valid handles. */
  ghost predicate Loaded(fs: seq<File>)
    reads fs
  {
    forall k :: 0 <= k < |fs| ==> fs[k].isLoaded && fs[k].Valid()
  }

  /** Loaded, valid handles of the given location. */
  ghost predicate Handles(fs: seq<File>, location: FileLocation)
    reads fs
  {
    Loaded(fs) && forall k :: 0 <= k < |fs| ==> fs[k].location == location
  }

  lemma HandlesOfPart(all: seq<File>, part: seq<File>, location: FileLocation)
    requires Handles(all, location) && Loaded(part)
    requires forall g :: g in part ==> g in all
    ensures Handles(part, location)
  {
    forall k | 0 <= k < |part|
      ensures part[k].location == location
    {
      assert part[k] in all;
    }
  }

  /** The metadata of a sequence of loaded handles. */
  function Metas(fs: seq<File>): (r: seq<Meta>)
    reads fs
    requires Loaded(fs)
    ensures |r| == |fs|
  {
    if fs == [] then []
    else Metas(fs[..|fs| - 1]) + [fs[|fs| - 1].Metadata()]
  }

  /** The metadata of a handle of a sequence is that handle's own. */
  lemma {:induction false} MetasAt(fs: seq<File>, k: nat)
    requires Loaded(fs) && k < |fs|
    ensures fs[k].isLoaded && fs[k].Valid() && Metas(fs)[k] == fs[k].Metadata()
  {
    if k < |fs| - 1 {
      MetasAt(fs[..|fs| - 1], k);
    }
  }

  lemma MetasAppend(fs: seq<File>, f: File)
    requires Loaded(fs) && f.isLoaded && f.Valid()
    ensures Loaded(fs + [f])
    ensures Metas(fs + [f]) == Metas(fs) + [f.Metadata()]
  {
    assert (fs + [f])[..|fs|] == fs;
  }

  /** The `array_filter` step of `listFilesWithNamesStartingWith`: keep
      the loaded handles whose name starts with `prefix`, in order. */
  method KeepNamesStartingWith(all: seq<File>, prefix: string) returns (kept: seq<File>)
    requires prefix != [] && Loaded(all)
    ensures forall g :: g in kept ==> g in all
    ensures IsSubsequence(kept, all)
    ensures Loaded(kept)
    ensures Metas(kept) == Filtered(Metas(all), StartsWith(prefix))
  {
    kept := [];
    var i := 0;
    KeptNone(all, prefix);
    while i < |all|
      invariant 0 <= i <= |all|
      invariant KeptSoFar(all, kept, i, prefix)
    {
      var f := all[i];
      // The handle is loaded, so reading `name` does not load it again.
      var keep := StartsWith(prefix)(f.Metadata());
      KeepStep(all, kept, i, prefix, keep);
      if keep {
        kept := kept + [f];
      }
      i := i + 1;
    }
    KeptAll(all, kept, prefix);
  }

  /** The loop invariant of `KeepNamesStartingWith` after `i` handles. */
  ghost predicate KeptSoFar(all: seq<File>, kept: seq<File>, i: nat, prefix: string)
    reads all, kept
  {
    && i <= |all| && prefix != [] && Loaded(all)
    && (forall g :: g in kept ==> g in all)
    && IsSubsequence(kept, all[..i])
    && Loaded(kept)
    && Metas(kept) == Filtered(Metas(all[..i]), StartsWith(prefix))
  }

  lemma KeptNone(all: seq<File>, prefix: string)
    requires prefix != [] && Loaded(all)
    ensures KeptSoFar(all, [], 0, prefix)
  {
    assert all[..0] == [];
  }

  lemma KeptAll(all: seq<File>, kept: seq<File>, prefix: string)
    requires KeptSoFar(all, kept, |all|, prefix)
    ensures forall g :: g in kept ==> g in all
    ensures IsSubsequence(kept, all)
    ensures Loaded(kept)
    ensures Metas(kept) == Filtered(Metas(all), StartsWith(prefix))
  {
    assert all[..|all|] == all;
  }

  lemma KeepStep(all: seq<File>, kept: seq<File>, i: nat, prefix: string, keep: bool)
    requires i < |all| && KeptSoFar(all, kept, i, prefix)
    requires keep == StartsWith(prefix)(all[i].Metadata())
    ensures KeptSoFar(all, if keep then kept + [all[i]] else kept, i + 1, prefix)
  {
    PrefixFilterStep(all, i, prefix);
    KeptInOrder(all, kept, i, keep);
    if keep {
      MetasAppend(kept, all[i]);
    }
  }

  lemma KeptInOrder(all: seq<File>, kept: seq<File>, i: nat, keep: bool)
    requires i < |all| && IsSubsequence(kept, all[..i])
    ensures IsSubsequence(if keep then kept + [all[i]] else kept, all[..i + 1])
  {
    assert all[..i + 1] == all[..i] + [all[i]];
    if keep {
      SubsequenceSnoc(kept, all[..i], all[i]);
    } else {
      SubsequenceExtend(kept, all[..i], all[i]);
    }
  }

  lemma PrefixFilterStep(fs: seq<File>, i: nat, prefix: string)
    requires i < |fs| && prefix != [] && Loaded(fs)
    ensures Filtered(Metas(fs[..i + 1]), StartsWith(prefix)) ==
              Filtered(Metas(fs[..i]), StartsWith(prefix)) +
              (if StrPos(fs[i].name, prefix) == Some(0) then [fs[i].Metadata()] else [])
  {
    assert fs[..i + 1] == fs[..i] + [fs[i]];
    MetasAppend(fs[..i], fs[i]);
    FilteredSnoc(Metas(fs[..i]), fs[i].Metadata(), StartsWith(prefix));
  }

  lemma HandlesAppend(fs: seq<File>, f: File, location: FileLocation)
    requires Handles(fs, location)
    requires f.location == location && f.isLoaded && f.Valid()
    ensures Handles(fs + [f], location)
  {
  }

  class File {
    /** The location the handle reads its file from. */
    const location: FileLocation
    var basename: string
    var name: string
    var ext: string
    var size: int
    var timestamp: int
    var isLoaded: bool

    /** A loaded handle holds consistent metadata; a name-only handle holds
        a non-empty base name and nothing else. */
    ghost predicate Valid()
      reads this
    {
      if isLoaded then
        size >= 0 && timestamp >= 0 && (ext != "" ==> basename == name + "." + ext)
      else
        basename != "" && name == "" && ext == "" && size == 0 && timestamp == 0
    }

    function Metadata(): (m: Meta)
      reads this
      requires isLoaded && Valid()
      ensures m.Consistent()
    {
      Meta(basename, name, ext, size, timestamp)
    }

    /** The handle before its argument is looked at. */
    constructor (location: FileLocation)
      ensures this.location == location && !isLoaded
      ensures basename == "" && name == "" && ext == "" && size == 0 && timestamp == 0
    {
      this.location := location;
      basename, name, ext, size, timestamp := "", "", "", 0, 0;
      isLoaded := false;
    }

    /** The PHP constructor: a record is validated into a loaded handle, a
        non-empty string gives a name-only handle, anything else fails. */
    static method Create(location: FileLocation, info: FileArg) returns (r: Result<File>)
      ensures info.InfoRecord? ==>
                && (r.Ok? <==> Validate(info.rec).Ok?)
                && (r.Err? ==> r.error == Validate(info.rec).error)
                && (r.Ok? ==> r.value.isLoaded && r.value.Valid()
                              && r.value.Metadata() == Validate(info.rec).value)
      ensures info.InfoName? ==>
                && (r.Ok? <==> info.name != "")
                && (r.Err? ==> r.error == InvalidFileInfo)
                && (r.Ok? ==> !r.value.isLoaded && r.value.Valid() && r.value.basename == info.name)
      ensures info.InfoOther? ==> r == Err(InvalidFileInfo)
      ensures r.Ok? ==> fresh(r.value) && r.value.location == location
    {
      var f := new File(location);
      match info
      case InfoRecord(rec) =>
        var err := f.ValidateAndSetFileInfo(rec);
        r := if err.None? then Ok(f) else Err(err.value);
      case InfoName(n) =>
        if n != "" {
          f.basename := n;
          r := Ok(f);
        } else {
          r := Err(InvalidFileInfo);
        }
      case InfoOther =>
        r := Err(InvalidFileInfo);
    }

    /** `validateAndSetFileInfo`: check the required keys in order, then the
        type, size, timestamp and name consistency, setting the fields as it
        goes; only a record that passes every check loads the handle. */
    method ValidateAndSetFileInfo(rec: Record) returns (err: Option<Error>)
      modifies this
      ensures err.None? <==> Validate(rec).Ok?
      ensures err.Some? ==> err.value == Validate(rec).error
      ensures err.None? ==> isLoaded && Valid() && Metadata() == Validate(rec).value
    {
      var missing := MissingRequiredKey(rec);
      if missing.Some? {
        return Some(MissingKey(missing.value));
      }
      NoneMissingIffAllSet(rec);
      if rec.kind.value != "file" {
        return Some(NotAFile);
      }
      size := rec.size.value;
      if size < 0 {
        return Some(InvalidSize);
      }
      timestamp := rec.timestamp.value;
      if timestamp < 0 {
        return Some(InvalidTimestamp);
      }
      ext := rec.extension.value;
      name := rec.filename.value;
      basename := rec.basename.value;
      if ext != "" && basename != name + "." + ext {
        return Some(InvalidFileInfo);
      }
      isLoaded := true;
      err := None;
    }

    /** The value of a property of a loaded handle. */
    function Property(prop: string): (r: Result<Value>)
      reads this, location
      requires isLoaded && Valid()
      ensures r.Err? ==> r.error != AlreadyLoaded
      ensures prop in {"basename", "name", "ext", "size", "timestamp"} ==> r.Ok?
      ensures r == Err(NoSuchProperty(prop)) <==>
                prop !in {"basename", "name", "ext", "size", "timestamp", "content"}
    {
      match prop
      case "basename" => Ok(Str(basename))
      case "name" => Ok(Str(name))
      case "ext" => Ok(Str(ext))
      case "size" => Ok(Int(size))
      case "timestamp" => Ok(Int(timestamp))
      case "content" => ContentOf(location.config, location.store, basename)
      case _ => Err(NoSuchProperty(prop))
    }

    /** `__get`: load a name-only handle first, then read the property. */
    method Get(prop: string) returns (r: Result<Value>)
      requires Valid()
      modifies this
      ensures Valid()
      ensures old(isLoaded) ==> unchanged(this) && r == Property(prop)
      ensures !old(isLoaded) && Resolve(location.config, location.store, old(basename)).Err? ==>
                unchanged(this) && r == Err(Resolve(location.config, location.store, old(basename)).error)
      ensures !old(isLoaded) && Resolve(location.config, location.store, old(basename)).Ok? ==>
                && isLoaded && Metadata() == Resolve(location.config, location.store, old(basename)).value
                && r == Property(prop)
      ensures r.Err? ==> r.error != AlreadyLoaded
    {
      if !isLoaded {
        var err := Load();
        if err.Some? {
          return Err(err.value);
        }
      }
      r := Property(prop);
    }

    /** `load`: fetch the file through the location and copy its metadata;
        a handle that is already loaded refuses. */
    method Load() returns (err: Option<Error>)
      requires Valid()
      modifies this
      ensures Valid()
      ensures old(isLoaded) ==> err == Some(AlreadyLoaded) && unchanged(this)
      ensures !old(isLoaded) && Resolve(location.config, location.store, old(basename)).Err? ==>
                err == Some(Resolve(location.config, location.store, old(basename)).error) && unchanged(this)
      ensures !old(isLoaded) && Resolve(location.config, location.store, old(basename)).Ok? ==>
                && err.None? && isLoaded
                && Metadata() == Resolve(location.config, location.store, old(basename)).value
    {
      if isLoaded {
        return Some(AlreadyLoaded);
      }
      var fetched := location.GetFile(basename);
      match fetched
      case Err(e) =>
        return Some(e);
      case Ok(f) =>
        if f == null {
          // `getFile` succeeded, so the location is usable and has URLs.
          AdapterAvailableIffLocationPath(location.config);
          return Some(FileNotAvailable(FileUrl(location.config, basename).value));
        }
        CopyFromFile(f);
        isLoaded := true;
        err := None;
    }

    /** `copyFromFile`: take over the five metadata fields of another handle. */
    method CopyFromFile(f: File)
      requires f != this && f.isLoaded && f.Valid()
      modifies this
      ensures basename == f.basename && name == f.name && ext == f.ext
      ensures size == f.size && timestamp == f.timestamp
      ensures isLoaded == old(isLoaded)
    {
      basename := f.basename;
      name := f.name;
      ext := f.ext;
      size := f.size;
      timestamp := f.timestamp;
    }
  }
}
