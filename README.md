# fiisoft-filesystem: file locations and lazy file handles, in Dafny

The PHP library fiisoft-filesystem has two classes at its core.

- `FileLocation` is a configured storage location. Its configuration is a
  `type` (only "local" is supported), a `root` and a `path`. Its own path
  and its file URLs are computed from the configuration alone. Listing,
  fetching, reading and writing files go through a Flysystem adapter.
- `File` is a handle on one file of a location. There are two ways to get
  one:
  - It is built *loaded* from a metadata record (type, timestamp, size,
    basename, extension, filename). The record is validated first.
  - It is built *name-only* from a base name. It then loads itself
    through its location the first time a property is read.

The model has seven modules:

- `Errors`: the error values and the PHP exception class of each.
- `Sequences`: order-preserving filtering, which is what
  `array_values(array_filter(...))` does, and the subsequence relation.
- `PhpStrings`: PHP's `empty()`, `ltrim`, `rtrim`, `strpos` and the
  `pathinfo` parts the code uses.
- `LocationPaths`: the configuration record, plus `getLocationPath`,
  `getLocalPath` and `getFileUrl`. It also holds the condition under
  which the storage adapter can be built at all.
- `FileInfo`: the metadata record and what `validateAndSetFileInfo`
  accepts.
- `Listing`: the storage, modelled as a snapshot value (`Store`). It also
  holds `getFile`, `readFile`/`putFile` and the `listFiles` pipeline as
  pure functions.
- `Filesystem`: the two classes.
  - `FileLocation` holds its configuration and its storage snapshot.
  - `File` holds the five metadata fields and the `isLoaded` flag, which
    its methods update in place.

A last module, `FilesystemScenarios`, replays the repository's test suite
on a snapshot that stands for its `tests/files` directory.

An exception is an `Err` value. Its `Class()` gives the PHP exception
class the code throws. An operation that can throw returns a `Result`.
The PHP constructor of `File` can throw, so it is the static method
`File.Create`. `Create` builds the bare object with the `constructor` and
then dispatches on the argument, as the PHP constructor does.

Validation compares the base name with name and extension only when the
extension is non-empty (src/Tools/Filesystem/File.php:163). The model
follows this: `File.Valid()` and `Meta.Consistent()` require
nothing of the base name when the extension is empty, and
`FileInfo.EmptyExtensionIsNotChecked` shows a record that passes
validation with mismatched names.

`getFile` takes its file name and extension from `pathinfo`, which drops
any directory part. The base name is the name as given, directory
included. So `getFile("sub/a.txt")` fails validation with an
`InvalidArgumentException` instead of returning a handle. The model
keeps this behaviour; `Listing.FetchMetaWithDirectory` states it.

## Model

| member | source | states |
|---|---|---|
| Sequences.Filtered | src/Tools/Filesystem/FileLocation.php:96-98 | `array_values(array_filter($a, $cb))` is never longer than `$a` and holds only elements of `$a` that the callback accepts |
| Sequences.FilteredMember | src/Tools/Filesystem/FileLocation.php:118-123 | a value is in the filtered array exactly when it is in the input and the callback accepts it |
| Sequences.FilteredAppend | src/Tools/Filesystem/FileLocation.php:118-123 | filtering distributes over concatenation, so it never reorders |
| Sequences.FilteredIsSubsequence | src/Tools/Filesystem/FileLocation.php:96-98 | the filtered array is a subsequence of its input |
| Sequences.FilteredMonotone | src/Tools/Filesystem/FileLocation.php:120-123 | a callback that accepts less keeps a subsequence of what a callback that accepts more keeps |
| Sequences.FilteredPreservesSubsequence | src/Tools/Filesystem/FileLocation.php:96-98 | filtering a subsequence of an array gives a subsequence of the filtered array |
| PhpStrings.LTrim | src/Tools/Filesystem/FileLocation.php:36 | `ltrim($s, '\\/')` is a suffix of `$s`; everything dropped is a separator, and the result does not start with one |
| PhpStrings.RTrim | src/Tools/Filesystem/FileLocation.php:163 | `rtrim($s, '\\/')` is a prefix of `$s`; everything dropped is a separator, and the result does not end with one |
| PhpStrings.RTrimNoop | src/Tools/Filesystem/FileLocation.php:163 | `rtrim` leaves unchanged a string that does not end with a separator |
| PhpStrings.Empty | src/Tools/Filesystem/FileLocation.php:132-158 | PHP `empty()` on a string-or-null value: only null and strings of at most one character ("" and "0") are empty, so " " and "00" are not |
| PhpStrings.StrPosFrom | src/Tools/Filesystem/FileLocation.php:97 | a position `strpos` returns is the first one at or after the start where the needle occurs, and there is none exactly when the needle occurs nowhere from the start on |
| PhpStrings.StrPos | src/Tools/Filesystem/FileLocation.php:97 | `strpos($h, $n)` is the first position where the needle occurs, and false exactly when it occurs nowhere; `PhpStrings.StrPosZeroIffPrefix` gives the `0 ===` test |
| PhpStrings.StrPosZeroIffPrefix | src/Tools/Filesystem/FileLocation.php:97 | `0 === strpos($name, $prefix)` holds exactly when `$prefix` is a prefix of `$name` |
| PhpStrings.LastIndexOf | src/Tools/Filesystem/FileLocation.php:54-55 | the last occurrence of a character, or none exactly when the character does not occur |
| PhpStrings.BaseName | src/Tools/Filesystem/FileLocation.php:54-55 | the base name `pathinfo` splits holds no '/' |
| PhpStrings.BaseNameAfterDirectory | src/Tools/Filesystem/FileLocation.php:54-56 | the base name of "dir/base" is `base` |
| PhpStrings.PathInfoOfBaseName | src/Tools/Filesystem/FileLocation.php:54-55 | `PATHINFO_FILENAME` and `PATHINFO_EXTENSION` depend on the base name only |
| PhpStrings.PathExtension | src/Tools/Filesystem/FileLocation.php:55 | `pathinfo($name, PATHINFO_EXTENSION)` holds no '.' and no '/'; `PhpStrings.PathInfoSplit` relates it to the name |
| PhpStrings.PathFilename | src/Tools/Filesystem/FileLocation.php:54 | `pathinfo($name, PATHINFO_FILENAME)` holds no '/'; `PhpStrings.PathInfoSplit` gives the split at the last '.' |
| PhpStrings.PathInfoSplit | src/Tools/Filesystem/FileLocation.php:54-56 | for a name without '/': the name is filename + "." + extension when it holds a '.'; otherwise the extension is empty and the filename is the name |
| LocationPaths.LocationPath | src/Tools/Filesystem/FileLocation.php:130-141 | `getLocationPath` only throws `LogicException`, and it only succeeds for type "local" |
| LocationPaths.LocalPath | src/Tools/Filesystem/FileLocation.php:147-169 | `getLocalPath` fails, with the local-config error, exactly when both `root` and `path` are empty in PHP's sense (null, "" or "0") |
| LocationPaths.FileUrl | src/Tools/Filesystem/FileLocation.php:33-37 | `getFileUrl` is the location path, '/', then the name with leading separators stripped; it fails exactly when `getLocationPath` does, with the same error |
| LocationPaths.AdapterAvailable | src/Tools/Filesystem/FlysystemFactory.php:81-102 | the factory builds an adapter only for type "local" with a root or a path; `LocationPaths.AdapterAvailableIffLocationPath` shows it refuses exactly when `getLocationPath` throws |
| LocationPaths.AdapterAvailableIffLocationPath | src/Tools/Filesystem/FlysystemFactory.php:83-102 | the factory builds an adapter exactly when `getLocationPath` succeeds |
| LocationPaths.LocationPathErrors | src/Tools/Filesystem/FileLocation.php:130-141 | an empty type gives the missing-type error, another type gives the unsupported-type error, "local" defers to `getLocalPath`; together, the exact failure condition |
| LocationPaths.LocalPathRootAndPath | src/Tools/Filesystem/FileLocation.php:153-168 | with root and path set, the result is the trimmed root + '/' + the trimmed path, or the trimmed root alone when the path is only separators |
| LocationPaths.LocalPathTrailingSeparator | src/Tools/Filesystem/FileLocation.php:157-168 | with root and path set, a trailing separator of the result can only come from the path, never from the joining separator |
| LocationPaths.LocalPathWithoutRoot | src/Tools/Filesystem/FileLocation.php:149-168 | without a root, the right-trimmed path is the location path: a prefix of the path that does not end in a separator |
| LocationPaths.LocalPathRootOnly | src/Tools/Filesystem/FileLocation.php:149-168 | a root that does not end in a separator, with no path, is returned unchanged |
| FileInfo.FirstMissing | src/Tools/Filesystem/File.php:139-143 | the first required key, in the order given, that is not set (every earlier key is set), and none exactly when every key is set |
| FileInfo.NoneMissingIffAllSet | src/Tools/Filesystem/File.php:21 | the check passes exactly when all six required keys are set |
| FileInfo.Validate | src/Tools/Filesystem/File.php:137-168 | accepted metadata are consistent (a non-empty extension agrees with the base name); a rejection is never a `LogicException` |
| FileInfo.ValidateAccepts | src/Tools/Filesystem/File.php:137-168 | a record is accepted exactly when all keys are set, its type is "file", size and timestamp are non-negative and a non-empty extension agrees with the base name; the metadata are then the record's values |
| FileInfo.ValidateRejects | src/Tools/Filesystem/File.php:139-165 | each rejection in source order: missing key (the first one), not a file, bad size, bad timestamp, name mismatch |
| FileInfo.EmptyExtensionIsNotChecked | src/Tools/Filesystem/File.php:163-165 | with an empty extension, base name and file name may disagree and the record is still accepted |
| Listing.NormaliseFilter | src/Tools/Filesystem/FileLocation.php:110-116 | null becomes [], a string becomes [string], an array is returned unchanged, and anything else is an `InvalidArgumentException` |
| Listing.Kept | src/Tools/Filesystem/FileLocation.php:120-123 | the `array_filter` callback keeps only file entries, and with a non-empty filter only those whose extension is in it; `Listing.SelectedMember` gives the exact condition |
| Listing.Selected | src/Tools/Filesystem/FileLocation.php:120-123 | the filtered listing is no longer than the listing and holds only kept entries of it; `Listing.SelectedMember` and `Listing.SelectedKeepsOrder` give membership and order |
| Listing.MapValidate | src/Tools/Filesystem/FileLocation.php:118-120 | the `array_map` of the `File` constructor gives one handle per record; `Listing.MapValidateOk` and `Listing.MapValidateFirstError` characterise success and the error raised |
| Listing.ListedMetas | src/Tools/Filesystem/FileLocation.php:108-124 | `listFiles` throws for a filter of another type or an unusable adapter, and lists at most one handle per listing entry; `Listing.ListedMetasAreSelected` characterises the result |
| Listing.PrefixedMetas | src/Tools/Filesystem/FileLocation.php:94-99 | `listFilesWithNamesStartingWith` fails exactly when `listFiles` does, and otherwise returns only handles `listFiles` returns whose name starts with the prefix; `Listing.PrefixedNarrows` gives order |
| Listing.MapValidateOk | src/Tools/Filesystem/FileLocation.php:118-120 | building the handles succeeds exactly when every selected record validates, and handle i carries record i's metadata |
| Listing.MapValidateFirstError | src/Tools/Filesystem/FileLocation.php:118-120 | a failed listing raises the error of the first record that fails |
| Listing.MapValidatePrefixError | src/Tools/Filesystem/FileLocation.php:118-120 | once a prefix of the records fails, the whole listing fails the same way |
| Listing.MapValidateSubsequence | src/Tools/Filesystem/FileLocation.php:118-120 | if a record list builds, so does any subsequence of it, into a subsequence of the handles |
| Listing.SelectedMember | src/Tools/Filesystem/FileLocation.php:120-123 | a record is listed exactly when it is a file entry whose extension is strictly in the filter, or the filter is empty |
| Listing.SelectedKeepsOrder | src/Tools/Filesystem/FileLocation.php:118-123 | selection keeps listing order |
| Listing.FilterNormalisation | src/Tools/Filesystem/FileLocation.php:110-116 | `listFiles(null)` equals `listFiles([])`, `listFiles($e)` equals `listFiles([$e])`, and an invalid filter is rejected |
| Listing.ListedMetasAreSelected | src/Tools/Filesystem/FileLocation.php:108-124 | `listFiles` returns one handle per selected record, in order, with that record's five values |
| Listing.ListedExtensionsInFilter | src/Tools/Filesystem/FileLocation.php:120-123 | with a non-empty filter, every listed handle's extension is in the filter |
| Listing.ListFilesNarrows | src/Tools/Filesystem/FileLocation.php:108-124 | any valid filter lists a subsequence of the unfiltered listing |
| Listing.PrefixedNarrows | src/Tools/Filesystem/FileLocation.php:94-99 | `listFilesWithNamesStartingWith` is, in order, the part of `listFiles` whose names start with the prefix, and it is contained in the unfiltered prefixed listing |
| Listing.FetchMetaAbsent | src/Tools/Filesystem/FileLocation.php:46-61 | `getFile` returns null, not an error, for a missing name or a directory |
| Listing.FetchMetaOfFile | src/Tools/Filesystem/FileLocation.php:46-61 | for a file entry without '/', `getFile` gives a loaded handle: the name as base name, the `pathinfo` split, and the entry's size and timestamp |
| Listing.FetchMetaWithDirectory | src/Tools/Filesystem/FileLocation.php:50-57 | a name with a directory part and a non-empty extension fails validation with `InvalidArgumentException` |
| Listing.FetchMeta | src/Tools/Filesystem/FileLocation.php:46-61 | `getFile` throws for an unusable adapter, returns null exactly for a missing name or a directory, and a returned handle has the name as its base name and consistent metadata; `Listing.FetchMetaOfFile` gives the metadata |
| Listing.ReadFile | src/Tools/Filesystem/FileLocation.php:70-73 | `readFile` returns what the storage holds under the name, or fails for an unusable adapter or an unreadable name; `Listing.ReadAfterPut` relates it to `putFile` |
| Listing.Put | src/Tools/Filesystem/FileLocation.php:81-84 | a successful `putFile` stores the content under the name and changes neither the listing nor the entries nor the refused-write set; `Listing.ReadAfterPut` shows every other name reads as before |
| Listing.ReadAfterPut | src/Tools/Filesystem/FileLocation.php:70-84 | after a successful put, reading that name returns the new content; every other name reads as before |
| Filesystem.ResolveOutcomes | src/Tools/Filesystem/File.php:103-116 | loading a missing file fails with its URL; loading through an unusable location fails with the adapter's error; loaded metadata are consistent |
| Filesystem.Resolve | src/Tools/Filesystem/File.php:103-116 | `load` never fails with "already loaded" once the loaded check passed; `Filesystem.ResolveOutcomes` gives its outcomes |
| Filesystem.ContentOf | src/Tools/Filesystem/File.php:83-90 | the `content` property never fails with "already loaded"; `Filesystem.ContentErrors`, `Filesystem.ContentReadable` and `Filesystem.ContentUnreadable` give its value and errors |
| Filesystem.ContentErrors | src/Tools/Filesystem/File.php:83-90 | on a usable location, reading `content` fails exactly when the storage cannot read the name, and then with a `RuntimeException` naming the file URL |
| Filesystem.ContentReadable | src/Tools/Filesystem/File.php:83-85 | the content the storage holds is returned as it is, and a read the storage reports as failed gives `false` (`NoContent`) |
| Filesystem.ContentUnreadable | src/Tools/Filesystem/File.php:86-89 | a read that throws becomes a `RuntimeException` carrying `getFileUrl`'s URL |
| Filesystem.ContentAfterPut | src/Tools/Filesystem/File.php:83-85 | content is read on every access, so it is the last content put |
| Filesystem.LoadedMatchesListed | src/Tools/Filesystem/File.php:109-115 | a name-only handle loads the same metadata that `listFiles` builds from a record describing the same file entry |
| Filesystem.FileLocation.constructor | src/Tools/Filesystem/FileLocation.php:23-26 | the location keeps its own configuration |
| Filesystem.FileLocation.GetFile | src/Tools/Filesystem/FileLocation.php:46-61 | returns null or a fresh loaded handle of this location, exactly as `getFile` specifies, or `getFile`'s error |
| Filesystem.FileLocation.PutFile | src/Tools/Filesystem/FileLocation.php:81-84 | stores the content and returns true, or returns false and changes nothing when the storage refuses the write, or throws when there is no adapter |
| Filesystem.FileLocation.ListFiles | src/Tools/Filesystem/FileLocation.php:108-124 | returns fresh loaded handles of this location whose metadata are `listFiles`' specified result, or its error |
| Filesystem.FileLocation.BuildHandles | src/Tools/Filesystem/FileLocation.php:118-120 | one fresh loaded handle of this location per record, in order, with that record's metadata; otherwise the first record's rejection |
| Filesystem.FileLocation.ListFilesWithNamesStartingWith | src/Tools/Filesystem/FileLocation.php:94-99 | returns fresh loaded handles whose metadata are the prefixed listing, or its error |
| Filesystem.KeepNamesStartingWith | src/Tools/Filesystem/FileLocation.php:96-98 | keeps exactly the handles whose name starts with the prefix, as a subsequence of the input (in order, each handle at most as often as in the input); their metadata are the filtered metadata |
| Filesystem.File.constructor | src/Tools/Filesystem/File.php:51-53 | a fresh handle of the location, not loaded |
| Filesystem.File.Create | src/Tools/Filesystem/File.php:51-62 | a record gives a loaded handle exactly when it validates; a non-empty string gives a name-only handle; anything else is an `InvalidArgumentException` |
| Filesystem.MissingRequiredKey | src/Tools/Filesystem/File.php:139-143 | the loop over the required keys finds the first one, in order, that the record does not set |
| Filesystem.File.ValidateAndSetFileInfo | src/Tools/Filesystem/File.php:137-168 | succeeds exactly when the record validates, and then the handle is loaded with the record's metadata; a failure is the specified error |
| Filesystem.File.Property | src/Tools/Filesystem/File.php:77-93 | the five metadata properties always succeed; an unknown property, and only an unknown one, gives the no-such-property error |
| Filesystem.File.Get | src/Tools/Filesystem/File.php:71-94 | a loaded handle answers without changing; a name-only handle loads first, and either fails with the load error and stays unchanged, or becomes loaded with the file's metadata; it never reports "already loaded" |
| Filesystem.File.Load | src/Tools/Filesystem/File.php:103-116 | a loaded handle refuses with "already loaded"; otherwise the handle takes the fetched file's metadata, or fails with the fetch error or the not-available error naming the file URL, and stays unchanged |
| Filesystem.File.CopyFromFile | src/Tools/Filesystem/File.php:122-129 | the five metadata fields are copied and the loaded flag is untouched |
| FilesystemScenarios.LocationPathOfRoot | tests/Tools/Filesystem/FileLocationTest.php:26-29 | a root that names the directory is the location path as given |
| FilesystemScenarios.LocationPathOfRootAndPath | tests/Tools/Filesystem/FileTest.php:28-32 | a root ending in a separator plus a directory path join with one separator |
| FilesystemScenarios.LocationPathOfTests | tests/Tools/Filesystem/FileLocationTest.php:17-29 | both test configurations have the tests directory as location path |
| FilesystemScenarios.PathInfoOfTestFiles | tests/Tools/Filesystem/FileTest.php:36-38 | "file1.txt" splits into "file1" and "txt" |
| FilesystemScenarios.File1Resolves | tests/Tools/Filesystem/FileTest.php:26-41 | "file1.txt" loads with its metadata, and its content is read |
| FilesystemScenarios.FileAccessedByName | tests/Tools/Filesystem/FileTest.php:34-40 | a handle built from "file1.txt" shows basename, name, ext, size 17 and content |
| FilesystemScenarios.SelectedAllOfTests | tests/Tools/Filesystem/FileLocationTest.php:31-62 | no filter and ['txt', 'md'] select all four files |
| FilesystemScenarios.SelectedTxtOfTests | tests/Tools/Filesystem/FileLocationTest.php:42-51 | 'txt' selects the two ".txt" files |
| FilesystemScenarios.ListTests | tests/Tools/Filesystem/FileLocationTest.php:31-62 | `listFiles()` and `listFiles(['txt', 'md'])` give four handles, and `listFiles('txt')` gives two |
| FilesystemScenarios.PrefixFilterOfTests | tests/Tools/Filesystem/FileLocationTest.php:64-84 | the "other_" filter keeps the two "other_" files of four, and one of the two ".txt" files |
| FilesystemScenarios.ListPrefixedTests | tests/Tools/Filesystem/FileLocationTest.php:64-102 | the prefix listing gives two handles; with 'txt' it gives one, "other_file2.txt" of 23 bytes |
| FilesystemScenarios.Other2Content | tests/Tools/Filesystem/FileLocationTest.php:104-109 | the content of "other_file2.txt" is its license line |
| FilesystemScenarios.ListOther2 | tests/Tools/Filesystem/FileLocationTest.php:111-112 | the first handle of the "other_" listing with 'txt' is a fresh loaded handle of the location for "other_file2.txt" |
| FilesystemScenarios.ContentFollowsPut | tests/Tools/Filesystem/FileLocationTest.php:104-114 | a listed handle reads its file's content, and after a put it reads the new content |

## Left out

- The Flysystem adapter is replaced by a `Store` value: a listing, an entry per name and a content per name. The listing and the entries are given independently, so nothing ties `listContents` to `get`. A put changes only the content.
- The memoisation of the adapter in `fileSystem()` (src/Tools/Filesystem/FileLocation.php:175-183) is not modelled, and neither is the configuration handling of `FlysystemFactory`. The configuration is an immutable value, so the clone in the constructor is implicit.
- `DIRECTORY_SEPARATOR` is fixed to '/'. `pathinfo` follows its Unix behaviour.
- A storage read that throws is modelled as a name with no content in the store. A read that returns `false` is modelled as a stored `None`.
- Filesystem.FileLocation.ListFilesWithNamesStartingWith: requires a non-empty prefix, because what `strpos` returns for an empty needle depends on the PHP version. `Listing.PrefixedMetas`, `Listing.StartsWith` and `PhpStrings.StrPos` carry the same precondition.
- PHP's loose types are not modelled. Record values are already `int` or `string`, so the `(int)` and `(string)` casts in `validateAndSetFileInfo` are identities. A filter argument of any other type is the single `Invalid` case. A constructor argument that is neither an array nor a string is `InfoOther`.
- Exception messages are reduced to `Error` variants. `Class()` gives the PHP exception class of each. Every variant except `AdapterUnavailable` carries the data its message names.
- The error `AdapterUnavailable` stands for all three `LogicException`s of `FlysystemFactory::getAdapter` and `getLocalAdapter` (src/Tools/Filesystem/FlysystemFactory.php:84, 90, 101). These are an empty type, an unsupported type and a local configuration without root or path. The variant does not say which one was raised, and it drops the unsupported type that the message at line 90 names.
- Filesystem.File.ValidateAndSetFileInfo: on failure, the contract does not say which fields were already written before the failing check. The PHP method writes size, timestamp and the names one by one. The handle is then left not loaded, and `Create` discards it.
- Filesystem.File.Get: property names are strings; a non-string `$name` given to `__get` is not modelled.
- The test suite's directory, found via `__DIR__`, becomes the parameter `parent`. File timestamps become the parameter `t`. The test store gives storage entries and content only to the two ".txt" files that the tests read.
