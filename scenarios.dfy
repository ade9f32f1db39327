/** The scenarios of the repository's test suite, played on a storage
    snapshot that stands for its `tests/files` directory: four files,
    `file1.txt` (17 bytes), `file2.md`, `other_file1.md` and
    `other_file2.txt` (23 bytes). */
module FilesystemScenarios {
  import opened Errors
  import opened Sequences
  import opened PhpStrings
  import opened LocationPaths
  import opened FileInfo
  import opened Listing
  import opened Filesystem

  /** The location of the tests: type "local" and the `files` directory
      under `parent` as root. */
  function TestsConfig(parent: string): Config {
    Config(Some("local"), Some(parent + "/" + "files"), None)
  }

  /** The same directory given as a root ending in a separator plus a path. */
  function SplitConfig(parent: string): Config {
    Config(Some("local"), Some(parent + "/"), Some("files"))
  }

  /** A listing record as the local adapter reports a file with an extension. */
  function TestFile(filename: string, ext: string, size: nat, timestamp: nat): Record {
    Record(Some("file"), Some(timestamp), Some(size), Some(filename + "." + ext), Some(ext), Some(filename))
  }

  function TestsListing(t: nat): seq<Record> {
    [ TestFile("file1", "txt", 17, t),
      TestFile("file2", "md", 17, t),
      TestFile("other_file1", "md", 23, t),
      TestFile("other_file2", "txt", 23, t) ]
  }

  /** The tests directory, every file last touched at time `t`; only the
      two ".txt" files are given a storage entry and content. */
  function TestsStore(t: nat): Store {
    Store(TestsListing(t),
          map["file1.txt" := FileStat(17, t), "other_file2" + "." + "txt" := FileStat(23, t)],
          map["file1.txt" := Some("MIT License file1"),
              "other_file2" + "." + "txt" := Some("MIT License other_file2")],
          {})
  }

  /** A root that names the directory is the location path as given. */
  lemma LocationPathOfRoot(root: string)
    requires root != [] && root != "0" && root[|root| - 1] !in Separators
    ensures LocationPath(Config(Some("local"), Some(root), None)) == Ok(root)
  {
    var c := Config(Some("local"), Some(root), None);
    LocationPathErrors(c);
    LocalPathRootOnly(c);
  }

  /** A root ending in a separator, followed by a directory as path, gives
      the root and the directory joined by one separator. */
  lemma LocationPathOfRootAndPath(parent: string, dir: string)
    requires parent != [] && parent[|parent| - 1] !in Separators
    requires dir != [] && dir != "0" && dir[0] !in Separators
    ensures LocationPath(Config(Some("local"), Some(parent + "/"), Some(dir))) == Ok(parent + "/" + dir)
  {
    LocalPathRootAndPath(Config(Some("local"), Some(parent + "/"), Some(dir)));
    assert (parent + "/")[..|parent|] == parent;
    RTrimNoop(parent, Separators);
    assert RTrim(parent + "/", Separators) == parent;
  }

  /** Both ways the tests configure their directory give it as the
      location path. */
  lemma LocationPathOfTests(parent: string)
    requires parent != [] && parent[|parent| - 1] !in Separators
    ensures LocationPath(TestsConfig(parent)) == Ok(parent + "/" + "files")
    ensures LocationPath(SplitConfig(parent)) == LocationPath(TestsConfig(parent))
  {
    var root := parent + "/" + "files";
    assert LocationPath(TestsConfig(parent)) == Ok(root) by {
      assert root[|root| - 1] == 's';
      LocationPathOfRoot(root);
    }
    assert LocationPath(SplitConfig(parent)) == Ok(root) by {
      LocationPathOfRootAndPath(parent, "files");
    }
  }

  /** `pathinfo` of the test file names. */
  lemma PathInfoOfTestFiles()
    ensures PathFilename("file1.txt") == "file1" && PathExtension("file1.txt") == "txt"
  {
    PathInfoSplit("file1.txt");
    LastIndexOfAt("file1.txt", '.', 5);
  }

  /** What loading "file1.txt" and reading its content yield. */
  lemma File1Resolves(parent: string, t: nat)
    ensures AdapterAvailable(SplitConfig(parent))
    ensures Resolve(SplitConfig(parent), TestsStore(t), "file1.txt") == Ok(Meta("file1.txt", "file1", "txt", 17, t))
    ensures ContentOf(SplitConfig(parent), TestsStore(t), "file1.txt") == Ok(Str("MIT License file1"))
  {
    File1Meta(parent, t);
    File1Content(parent, t);
  }

  /** The metadata half of `File1Resolves`. */
  lemma File1Meta(parent: string, t: nat)
    ensures FetchMeta(SplitConfig(parent), TestsStore(t), "file1.txt") == Ok(Some(Meta("file1.txt", "file1", "txt", 17, t)))
  {
    assert AdapterAvailable(SplitConfig(parent));
    File1Entry(t);
    PathInfoOfTestFiles();
    FetchMetaOfFile(SplitConfig(parent), TestsStore(t), "file1.txt");
  }

  /** The storage entry of "file1.txt". */
  lemma File1Entry(t: nat)
    ensures "file1.txt" in TestsStore(t).stats && TestsStore(t).stats["file1.txt"] == FileStat(17, t)
  {
    assert |"file1.txt"| != |"other_file2" + "." + "txt"|;
  }

  /** The content half of `File1Resolves`. */
  lemma File1Content(parent: string, t: nat)
    ensures AdapterAvailable(SplitConfig(parent))
    ensures ReadFile(SplitConfig(parent), TestsStore(t), "file1.txt") == Ok(Some("MIT License file1"))
  {
    assert AdapterAvailable(SplitConfig(parent));
  }

  /** A handle created from a name loads itself on the first read and then
      shows the file's metadata and content. */
  method FileAccessedByName(parent: string, t: nat) returns (basename: Result<Value>, name: Result<Value>,
                                             ext: Result<Value>, size: Result<Value>,
                                             content: Result<Value>)
    ensures basename == Ok(Str("file1.txt")) && name == Ok(Str("file1")) && ext == Ok(Str("txt"))
    ensures size == Ok(Int(17)) && content == Ok(Str("MIT License file1"))
  {
    var location := new FileLocation(SplitConfig(parent), TestsStore(t));
    var created := File.Create(location, InfoName("file1.txt"));
    var file := created.value;
    File1Resolves(parent, t);
    assert "name" != "basename";
    assert "ext" !in {"basename", "name"};
    assert "size" !in {"basename", "name", "ext"};
    assert "content" !in {"basename", "name", "ext", "size", "timestamp"};
    basename := file.Get("basename");
    assert file.isLoaded && file.Metadata() == Meta("file1.txt", "file1", "txt", 17, t);
    name := file.Get("name");
    assert name == Ok(Str("file1"));
    ext := file.Get("ext");
    assert ext == Ok(Str("txt"));
    size := file.Get("size");
    assert size == Ok(Int(17));
    content := file.Get("content");
    assert content == Ok(Str("MIT License file1"));
  }

  /** Filtering a three-element sequence keeps each element its predicate keeps. */
  lemma Filtered3<T>(a: T, b: T, c: T, keep: T -> bool)
    ensures Filtered([a, b, c], keep) ==
              (if keep(a) then [a] else []) + (if keep(b) then [b] else []) + (if keep(c) then [c] else [])
  {
    FilteredSnoc([], a, keep);
    assert [] + [a] == [a];
    FilteredSnoc([a], b, keep);
    assert [a] + [b] == [a, b];
    FilteredSnoc([a, b], c, keep);
    assert [a, b] + [c] == [a, b, c];
  }

  /** Filtering a four-element sequence keeps each element its predicate keeps. */
  lemma Filtered4<T>(a: T, b: T, c: T, d: T, keep: T -> bool)
    ensures Filtered([a, b, c, d], keep) ==
              (if keep(a) then [a] else []) + (if keep(b) then [b] else []) +
              (if keep(c) then [c] else []) + (if keep(d) then [d] else [])
  {
    Filtered3(a, b, c, keep);
    FilteredSnoc([a, b, c], d, keep);
    assert [a, b, c] + [d] == [a, b, c, d];
  }

  /** Every record of the tests' listing is accepted, with its own values. */
  lemma TestFileValidates(filename: string, ext: string, size: nat, t: nat)
    ensures Validate(TestFile(filename, ext, size, t)) == Ok(Meta(filename + "." + ext, filename, ext, size, t))
  {
    ValidateAccepts(TestFile(filename, ext, size, t));
  }

  /** A listing of four accepted records maps to their metadata. */
  lemma MapValidateTests(recs: seq<Record>, ms: seq<Meta>)
    requires |recs| == |ms| && forall i :: 0 <= i < |recs| ==> Validate(recs[i]) == Ok(ms[i])
    ensures MapValidate(recs) == Ok(ms)
  {
    MapValidateOk(recs);
  }

  function TestsMetas(t: nat): seq<Meta> {
    [ Meta("file1" + "." + "txt", "file1", "txt", 17, t),
      Meta("file2" + "." + "md", "file2", "md", 17, t),
      Meta("other_file1" + "." + "md", "other_file1", "md", 23, t),
      Meta("other_file2" + "." + "txt", "other_file2", "txt", 23, t) ]
  }

  lemma TestsValidate(t: nat)
    ensures forall i :: 0 <= i < 4 ==> Validate(TestsListing(t)[i]) == Ok(TestsMetas(t)[i])
  {
    TestFileValidates("file1", "txt", 17, t);
    TestFileValidates("file2", "md", 17, t);
    TestFileValidates("other_file1", "md", 23, t);
    TestFileValidates("other_file2", "txt", 23, t);
  }

  /** Without a filter, and with ['txt', 'md'], every record is selected. */
  lemma SelectedAllOfTests(t: nat)
    ensures Selected(TestsListing(t), []) == TestsListing(t)
    ensures Selected(TestsListing(t), ["txt", "md"]) == TestsListing(t)
  {
    SelectedAllBy(t, []);
    SelectedAllBy(t, ["txt", "md"]);
  }

  /** A filter that keeps every file of the tests selects all of them. */
  lemma SelectedAllBy(t: nat, exts: seq<string>)
    requires exts == [] || ("txt" in exts && "md" in exts)
    ensures Selected(TestsListing(t), exts) == TestsListing(t)
  {
    var l := TestsListing(t);
    assert l == [l[0], l[1], l[2], l[3]];
    Filtered4(l[0], l[1], l[2], l[3], KeptFor(exts));
    assert forall i :: 0 <= i < 4 ==> KeptFor(exts)(l[i]);
  }

  /** With 'txt', the first and the last record are selected. */
  lemma SelectedTxtOfTests(t: nat)
    ensures Selected(TestsListing(t), ["txt"]) == [TestsListing(t)[0], TestsListing(t)[3]]
  {
    var l := TestsListing(t);
    assert l == [l[0], l[1], l[2], l[3]];
    Filtered4(l[0], l[1], l[2], l[3], KeptFor(["txt"]));
    assert "md" != "txt";
    assert KeptFor(["txt"])(l[0]) && !KeptFor(["txt"])(l[1]);
    assert !KeptFor(["txt"])(l[2]) && KeptFor(["txt"])(l[3]);
  }

  /** The handles built from the selected records. */
  lemma MetasOfTests(t: nat)
    ensures MapValidate(TestsListing(t)) == Ok(TestsMetas(t))
    ensures MapValidate([TestsListing(t)[0], TestsListing(t)[3]]) == Ok([TestsMetas(t)[0], TestsMetas(t)[3]])
  {
    var l := TestsListing(t);
    TestsValidate(t);
    MapValidateTests(l, TestsMetas(t));
    MapValidateTests([l[0], l[3]], [TestsMetas(t)[0], TestsMetas(t)[3]]);
  }

  /** `listFiles()` and `listFiles(['txt', 'md'])` give all four files,
      `listFiles('txt')` the two ".txt" files. */
  lemma ListTests(parent: string, t: nat)
    ensures ListedMetas(TestsConfig(parent), TestsStore(t), NoFilter) == Ok(TestsMetas(t))
    ensures ListedMetas(TestsConfig(parent), TestsStore(t), Extensions(["txt", "md"])) == Ok(TestsMetas(t))
    ensures ListedMetas(TestsConfig(parent), TestsStore(t), Single("txt")) ==
              Ok([TestsMetas(t)[0], TestsMetas(t)[3]])
  {
    assert AdapterAvailable(TestsConfig(parent));
    SelectedAllOfTests(t);
    SelectedTxtOfTests(t);
    MetasOfTests(t);
  }

  /** Which of the tests' names start with "other_". */
  lemma OtherPrefixOfTestNames()
    ensures StrPos("file1", "other_") != Some(0) && StrPos("file2", "other_") != Some(0)
    ensures StrPos("other_file1", "other_") == Some(0) && StrPos("other_file2", "other_") == Some(0)
  {
    StrPosZeroIffPrefix("file1", "other_");
    StrPosZeroIffPrefix("file2", "other_");
    StrPosZeroIffPrefix("other_file1", "other_");
    StrPosZeroIffPrefix("other_file2", "other_");
    assert "other_file1" == "other_" + "file1" && "other_file2" == "other_" + "file2";
  }

  /** The name filter of the prefix tests, on the four files and on the
      two ".txt" files. */
  lemma PrefixFilterOfTests(t: nat)
    ensures Filtered(TestsMetas(t), StartsWith("other_")) == [TestsMetas(t)[2], TestsMetas(t)[3]]
    ensures Filtered([TestsMetas(t)[0], TestsMetas(t)[3]], StartsWith("other_")) == [TestsMetas(t)[3]]
  {
    PrefixFilterOfAllTests(t);
    PrefixFilterOfTxtTests(t);
  }

  lemma PrefixFilterOfAllTests(t: nat)
    ensures Filtered(TestsMetas(t), StartsWith("other_")) == [TestsMetas(t)[2], TestsMetas(t)[3]]
  {
    var ms := TestsMetas(t);
    OtherPrefixOfTestNames();
    assert ms == [ms[0], ms[1], ms[2], ms[3]];
    Filtered4(ms[0], ms[1], ms[2], ms[3], StartsWith("other_"));
  }

  lemma PrefixFilterOfTxtTests(t: nat)
    ensures Filtered([TestsMetas(t)[0], TestsMetas(t)[3]], StartsWith("other_")) == [TestsMetas(t)[3]]
  {
    var ms := TestsMetas(t);
    OtherPrefixOfTestNames();
    FilteredSnoc([], ms[0], StartsWith("other_"));
    FilteredSnoc([ms[0]], ms[3], StartsWith("other_"));
    assert [] + [ms[0]] == [ms[0]] && [ms[0]] + [ms[3]] == [ms[0], ms[3]];
  }

  /** The prefix tests: `listFilesWithNamesStartingWith('other_')` gives
      two files, and with 'txt' only "other_file2.txt", 23 bytes. */
  lemma ListPrefixedTests(parent: string, t: nat)
    ensures PrefixedMetas(TestsConfig(parent), TestsStore(t), "other_", NoFilter) ==
              Ok([TestsMetas(t)[2], TestsMetas(t)[3]])
    ensures PrefixedMetas(TestsConfig(parent), TestsStore(t), "other_", Single("txt")) ==
              Ok([Meta("other_file2" + "." + "txt", "other_file2", "txt", 23, t)])
  {
    ListTests(parent, t);
    PrefixFilterOfTests(t);
  }

  /** What reading the content of "other_file2.txt" yields. */
  lemma Other2Content(parent: string, t: nat)
    ensures AdapterAvailable(TestsConfig(parent))
    ensures ContentOf(TestsConfig(parent), TestsStore(t), "other_file2" + "." + "txt") ==
              Ok(Str("MIT License other_file2"))
  {
  }

  /** The handle the prefix listing of FileLocationTest gives for
      "other_file2.txt", on a fresh location over the test store. */
  method ListOther2(parent: string, t: nat) returns (location: FileLocation, file: File)
    ensures location.config == TestsConfig(parent) && location.store == TestsStore(t)
    ensures file.location == location && file.isLoaded && file.Valid()
    ensures file.basename == "other_file2" + "." + "txt"
    ensures fresh(location) && fresh(file)
  {
    location := new FileLocation(TestsConfig(parent), TestsStore(t));
    var listed := location.ListFilesWithNamesStartingWith("other_", Single("txt"));
    ListPrefixedTests(parent, t);
    file := listed.value[0];
    MetasAt(listed.value, 0);
  }

  /** Content is read through the location on every access, so it follows
      a put made after the handle was loaded. */
  method ContentFollowsPut(parent: string, t: nat) returns (before: Result<Value>, after: Result<Value>)
    ensures before == Ok(Str("MIT License other_file2"))
    ensures after == Ok(Str("rewritten"))
  {
    var location, file := ListOther2(parent, t);
    var basename := file.basename;
    Other2Content(parent, t);
    assert "content" !in {"basename", "name", "ext", "size", "timestamp"};
    before := file.Get("content");
    var put := location.PutFile(basename, "rewritten");
    assert put == Ok(true);
    ContentAfterPut(TestsConfig(parent), TestsStore(t), basename, "rewritten");
    after := file.Get("content");
  }
}
