/** The PHP string built-ins the location and file code rely on, with the
    semantics PHP gives them. */
module PhpStrings {
  import opened Errors

  /** PHP `empty()` on a configuration value that is a string or null:
      null, "" and "0" all count as empty. */
  predicate Empty(v: Option<string>)
    ensures Empty(v) ==> v.None? || |v.value| <= 1
  {
    v.None? || v.value == "" || v.value == "0"
  }

  /** PHP `ltrim($s, $chars)`: drop the longest prefix made of `chars`. */
  function LTrim(s: string, chars: set<char>): (r: string)
    ensures |r| <= |s| && r == s[|s| - |r|..]
    ensures forall i :: 0 <= i < |s| - |r| ==> s[i] in chars
    ensures r == [] || r[0] !in chars
  {
    if s != [] && s[0] in chars then LTrim(s[1..], chars) else s
  }

  /** PHP `rtrim($s, $chars)`: drop the longest suffix made of `chars`. */
  function RTrim(s: string, chars: set<char>): (r: string)
    ensures |r| <= |s| && r == s[..|r|]
    ensures forall i :: |r| <= i < |s| ==> s[i] in chars
    ensures r == [] || r[|r| - 1] !in chars
  {
    if s != [] && s[|s| - 1] in chars then RTrim(s[..|s| - 1], chars) else s
  }

  /** A string that does not end in a trimmed character is left as it is. */
  lemma RTrimNoop(s: string, chars: set<char>)
    requires s == [] || s[|s| - 1] !in chars
    ensures RTrim(s, chars) == s
  {
  }

  /** `needle` occurs in `haystack` starting at index `k`. */
  predicate OccursAt(haystack: string, needle: string, k: nat)
  {
    k + |needle| <= |haystack| && haystack[k..k + |needle|] == needle
  }

  /** PHP `strpos($haystack, $needle, $from)` for a non-empty needle: the
      first index at or after `from` where `needle` occurs. */
  function StrPosFrom(haystack: string, needle: string, from: nat): (r: Option<nat>)
    requires needle != []
    ensures r.Some? ==> from <= r.value && r.value + |needle| <= |haystack|
                        && haystack[r.value..r.value + |needle|] == needle
    ensures r.Some? ==> forall k: nat :: from <= k < r.value ==> !OccursAt(haystack, needle, k)
    ensures r.None? <==> forall k: nat :: from <= k ==> !OccursAt(haystack, needle, k)
    decreases |haystack| - from
  {
    if from + |needle| > |haystack| then None
    else if haystack[from..from + |needle|] == needle then
      assert OccursAt(haystack, needle, from);
      Some(from)
    else StrPosFrom(haystack, needle, from + 1)
  }

  /** PHP `strpos`. The needle must not be empty: what PHP returns for an
      empty needle depends on the PHP version. */
  function StrPos(haystack: string, needle: string): (r: Option<nat>)
    requires needle != []
    ensures r.Some? ==> OccursAt(haystack, needle, r.value)
                        && forall k: nat :: k < r.value ==> !OccursAt(haystack, needle, k)
    ensures r.None? <==> forall k: nat :: !OccursAt(haystack, needle, k)
  {
    StrPosFrom(haystack, needle, 0)
  }

  /** `0 === strpos($h, $p)` holds exactly when `p` is a prefix of `h`. */
  lemma StrPosZeroIffPrefix(haystack: string, needle: string)
    requires needle != []
    ensures StrPos(haystack, needle) == Some(0) <==> needle <= haystack
  {
    if needle <= haystack {
      assert haystack[0..|needle|] == needle;
    }
  }

  /** The index of the last occurrence of `c` in `s`. */
  function LastIndexOf(s: string, c: char): (r: Option<nat>)
    ensures r.None? <==> c !in s
    ensures r.Some? ==> r.value < |s| && s[r.value] == c && c !in s[r.value + 1..]
  {
    if s == [] then None
    else if s[|s| - 1] == c then Some(|s| - 1)
    else
      var r := LastIndexOf(s[..|s| - 1], c);
      assert s[..|s| - 1] + [s[|s| - 1]] == s;
      if r.Some? then
        assert s[r.value + 1..] == s[..|s| - 1][r.value + 1..] + [s[|s| - 1]];
        r
      else r
  }

  /** The last occurrence of `c` is at `k` when `s[k]` is `c` and no `c` follows. */
  lemma LastIndexOfAt(s: string, c: char, k: nat)
    requires k < |s| && s[k] == c && c !in s[k + 1..]
    ensures LastIndexOf(s, c) == Some(k)
  {
  }

  /** The last path component, as `basename()`/`pathinfo()` compute it on a
      platform whose directory separator is '/': trailing slashes are
      ignored and everything up to the last remaining '/' is dropped. */
  function BaseName(path: string): (r: string)
    ensures '/' !in r
  {
    var t := RTrim(path, {'/'});
    match LastIndexOf(t, '/')
    case None => t
    case Some(i) => t[i + 1..]
  }

  /** The base name of "dir/base" is `base` when `base` holds no '/'. */
  lemma BaseNameAfterDirectory(dir: string, base: string)
    requires base != [] && '/' !in base
    ensures BaseName(dir + "/" + base) == base
  {
    var name := dir + "/" + base;
    RTrimNoop(name, {'/'});
    assert name[|dir|] == '/' && name[|dir| + 1..] == base;
    LastIndexOfAt(name, '/', |dir|);
  }

  /** `pathinfo($path, PATHINFO_EXTENSION)`: what follows the last '.' of
      the base name, or "" when it has none. */
  function PathExtension(path: string): (r: string)
    ensures '.' !in r && '/' !in r
  {
    var b := BaseName(path);
    match LastIndexOf(b, '.')
    case None => ""
    case Some(i) => b[i + 1..]
  }

  /** The extension and file name of a path depend on its base name only. */
  lemma PathInfoOfBaseName(path: string)
    ensures PathExtension(path) == PathExtension(BaseName(path))
    ensures PathFilename(path) == PathFilename(BaseName(path))
  {
    var b := BaseName(path);
    RTrimNoop(b, {'/'});
  }

  /** `pathinfo($path, PATHINFO_FILENAME)`: the base name up to its last '.'. */
  function PathFilename(path: string): (r: string)
    ensures '/' !in r
  {
    var b := BaseName(path);
    match LastIndexOf(b, '.')
    case None => b
    case Some(i) => b[..i]
  }

  /** For a name without '/', pathinfo splits at the last '.': the name is
      filename + "." + extension and the extension holds no '.'; a name
      without '.' has an empty extension and is its own filename. */
  lemma PathInfoSplit(name: string)
    requires '/' !in name
    ensures BaseName(name) == name
    ensures '.' !in PathExtension(name)
    ensures '.' in name ==> name == PathFilename(name) + "." + PathExtension(name)
    ensures '.' !in name ==> PathExtension(name) == "" && PathFilename(name) == name
  {
    RTrimNoop(name, {'/'});
    match LastIndexOf(name, '.')
    case None =>
    case Some(i) =>
      assert name == name[..i] + "." + name[i + 1..];
  }
}
