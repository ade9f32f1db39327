/** Where a file location lives: the configuration record and the path
    composition of `FileLocation` (`getLocationPath`, `getLocalPath`,
    `getFileUrl`), plus the condition under which the storage adapter
    behind a location can be built at all. */
module LocationPaths {
  import opened Errors
  import opened PhpStrings

  /** `FileLocationConfig`: three optional strings (`type`, `root`, `path`). */
  datatype Config = Config(kind: Option<string>, root: Option<string>, path: Option<string>)

  /** `DIRECTORY_SEPARATOR`, fixed to the Unix value. */
  const DirectorySeparator: char := '/'

  /** The character mask '\\/' given to `ltrim`/`rtrim`. */
  const Separators: set<char> := {'/', '\\'}

  function LocationPath(c: Config): (r: Result<string>)
    ensures r.Err? ==> r.error.Class() == LogicException
    ensures r.Ok? ==> c.kind == Some("local")
  {
    if Empty(c.kind) then Err(MissingLocationType)
    else if c.kind.value == "local" then LocalPath(c)
    else Err(UnsupportedLocationType(c.kind.value))
  }

  function LocalPath(c: Config): (r: Result<string>)
    ensures r.Err? <==> Empty(c.root) && Empty(c.path)
    ensures r.Err? ==> r.error == InvalidLocalConfig
  {
    if Empty(c.path) && Empty(c.root) then Err(InvalidLocalConfig)
    else
      var root := if Empty(c.root) then c.path.value else c.root.value;
      var path := if Empty(c.root) || Empty(c.path) then "" else c.path.value;
      var trimmedRoot := RTrim(root, Separators);
      var trimmedPath := LTrim(path, Separators);
      Ok(if trimmedPath != "" then trimmedRoot + [DirectorySeparator] + trimmedPath else trimmedRoot)
  }

  /** `getFileUrl`: the location path, a separator, and the name with its
      leading separators removed; it fails exactly when the location path
      does, with the same error. */
  function FileUrl(c: Config, name: string): (r: Result<string>)
    ensures r.Ok? <==> LocationPath(c).Ok?
    ensures r.Err? ==> r.error == LocationPath(c).error
    ensures r.Ok? ==> r.value == LocationPath(c).value + [DirectorySeparator] + LTrim(name, Separators)
  {
    match LocationPath(c)
    case Err(e) => Err(e)
    case Ok(p) => Ok(p + [DirectorySeparator] + LTrim(name, Separators))
  }

  /** `FlysystemFactory::getAdapter`/`getLocalAdapter` refuse to build an
      adapter for an empty or unknown `type`, and for a local location
      whose `root` and `path` are both empty. Every store operation of a
      location goes through that adapter. */
  predicate AdapterAvailable(c: Config)
    ensures AdapterAvailable(c) ==> c.kind == Some("local") && (c.root.Some? || c.path.Some?)
  {
    && !Empty(c.kind)
    && c.kind.value == "local"
    && !(Empty(c.path) && Empty(c.root))
  }

  /** The adapter can be built exactly when the location path can be
      computed, so `getFileUrl` never fails after a store operation
      succeeded. */
  lemma AdapterAvailableIffLocationPath(c: Config)
    ensures AdapterAvailable(c) <==> LocationPath(c).Ok?
  {
  }

  /** `getLocationPath` fails for an empty `type`, for any `type` other
      than "local", and for a local location without `root` and `path`;
      only "local" yields a path. */
  lemma LocationPathErrors(c: Config)
    ensures Empty(c.kind) ==> LocationPath(c) == Err(MissingLocationType)
    ensures (!Empty(c.kind) && c.kind.value != "local") ==>
              LocationPath(c) == Err(UnsupportedLocationType(c.kind.value))
    ensures c.kind == Some("local") ==> LocationPath(c) == LocalPath(c)
    ensures LocationPath(c).Err? <==>
              Empty(c.kind) || c.kind.value != "local" || (Empty(c.root) && Empty(c.path))
  {
  }

  /** With both `root` and `path` set, the path is the trimmed root, a
      separator and the trimmed path; a path made only of separators adds
      nothing. */
  lemma LocalPathRootAndPath(c: Config)
    requires !Empty(c.root) && !Empty(c.path)
    ensures var root := RTrim(c.root.value, Separators);
            var path := LTrim(c.path.value, Separators);
            LocalPath(c) == Ok(if path == "" then root else root + [DirectorySeparator] + path)
  {
  }

  /** With both `root` and `path` set, a trailing separator of the
      location path can only come from `path` itself, never from the
      separator that joins them. */
  lemma LocalPathTrailingSeparator(c: Config)
    requires !Empty(c.root) && !Empty(c.path)
    ensures var r := LocalPath(c).value;
            r != [] && r[|r| - 1] in Separators ==>
              c.path.value != [] && c.path.value[|c.path.value| - 1] == r[|r| - 1]
  {
    LocalPathRootAndPath(c);
    var root := RTrim(c.root.value, Separators);
    var path := LTrim(c.path.value, Separators);
    if path != "" {
      var r := root + [DirectorySeparator] + path;
      assert r[|r| - 1] == path[|path| - 1];
      assert path == c.path.value[|c.path.value| - |path|..];
      assert c.path.value[|c.path.value| - 1] == path[|path| - 1];
    }
  }

  /** Without `root`, `path` plays the root's part: it is right-trimmed and
      no separator is appended. */
  lemma LocalPathWithoutRoot(c: Config)
    requires Empty(c.root) && !Empty(c.path)
    ensures LocalPath(c) == Ok(RTrim(c.path.value, Separators))
    ensures var r := LocalPath(c).value; r <= c.path.value && (r == [] || r[|r| - 1] !in Separators)
  {
  }

  /** A root that does not end in a separator, with no usable `path`, is
      the location path unchanged. */
  lemma LocalPathRootOnly(c: Config)
    requires !Empty(c.root) && Empty(c.path)
    requires c.root.value[|c.root.value| - 1] !in Separators
    ensures LocalPath(c) == Ok(c.root.value)
  {
    RTrimNoop(c.root.value, Separators);
  }
}
