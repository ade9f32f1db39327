/** The metadata record a `File` is built from, and what
    `File::validateAndSetFileInfo` accepts. */
module FileInfo {
  import opened Errors

  /** An associative record as the storage adapter hands it over. Each key
      is optional: an absent key is a key PHP's `isset` reports as unset.
      The PHP key `type` is called `kind` here. */
  datatype Record = Record(
    kind: Option<string>,
    timestamp: Option<int>,
    size: Option<int>,
    basename: Option<string>,
    extension: Option<string>,
    filename: Option<string>)

  /** The metadata of a loaded file handle. */
  datatype Meta = Meta(basename: string, name: string, ext: string, size: nat, timestamp: nat)
  {
    /** A non-empty extension must agree with the base name; nothing is
        required of the base name when the extension is empty. */
    predicate Consistent() {
      ext != "" ==> basename == name + "." + ext
    }
  }

  /** The keys `File::$required` lists, in the order they are checked. */
  const Required: seq<string> := ["type", "timestamp", "size", "basename", "extension", "filename"]

  /** `isset($record[$key])`. */
  predicate IsSet(rec: Record, key: string) {
    match key
    case "type" => rec.kind.Some?
    case "timestamp" => rec.timestamp.Some?
    case "size" => rec.size.Some?
    case "basename" => rec.basename.Some?
    case "extension" => rec.extension.Some?
    case "filename" => rec.filename.Some?
    case _ => false
  }

  /** Every required key is set. */
  predicate AllSet(rec: Record) {
    && rec.kind.Some? && rec.timestamp.Some? && rec.size.Some?
    && rec.basename.Some? && rec.extension.Some? && rec.filename.Some?
  }

  /** The first key of `keys` that `rec` does not set. */
  function FirstMissing(rec: Record, keys: seq<string>): (r: Option<string>)
    ensures r.None? <==> forall k :: k in keys ==> IsSet(rec, k)
    ensures r.Some? ==> r.value in keys && !IsSet(rec, r.value)
    ensures r.Some? ==> exists i :: 0 <= i < |keys| && keys[i] == r.value
                                    && forall j :: 0 <= j < i ==> IsSet(rec, keys[j])
  {
    if keys == [] then None
    else if !IsSet(rec, keys[0]) then Some(keys[0])
    else FirstMissing(rec, keys[1..])
  }

  /** No required key is missing exactly when all six are set. */
  lemma NoneMissingIffAllSet(rec: Record)
    ensures FirstMissing(rec, Required).None? <==> AllSet(rec)
  {
    if FirstMissing(rec, Required).None? {
      assert IsSet(rec, Required[0]) && IsSet(rec, Required[1]) && IsSet(rec, Required[2]);
      assert IsSet(rec, Required[3]) && IsSet(rec, Required[4]) && IsSet(rec, Required[5]);
    }
  }

  /** What `validateAndSetFileInfo` does with a record: the first missing
      key, then a `type` other than "file", then a negative size, then a
      negative timestamp, then a base name that disagrees with a non-empty
      extension, are rejected in that order; otherwise the record's five
      values become the handle's metadata. */
  function Validate(rec: Record): (r: Result<Meta>)
    ensures r.Ok? ==> r.value.Consistent()
    ensures r.Err? ==> r.error.Class() != LogicException && r.error != AlreadyLoaded
  {
    match FirstMissing(rec, Required)
    case Some(key) => Err(MissingKey(key))
    case None =>
      NoneMissingIffAllSet(rec);
      if rec.kind.value != "file" then Err(NotAFile)
      else if rec.size.value < 0 then Err(InvalidSize)
      else if rec.timestamp.value < 0 then Err(InvalidTimestamp)
      else
        var m := Meta(rec.basename.value, rec.filename.value, rec.extension.value,
                      rec.size.value, rec.timestamp.value);
        if !m.Consistent() then Err(InvalidFileInfo) else Ok(m)
  }

  /** A record is accepted exactly when every required key is set, its
      type is "file", size and timestamp are non-negative and a non-empty
      extension agrees with the base name; the metadata are then the
      record's own values. */
  lemma ValidateAccepts(rec: Record)
    ensures Validate(rec).Ok? <==>
      && AllSet(rec)
      && rec.kind == Some("file")
      && rec.size.value >= 0 && rec.timestamp.value >= 0
      && (rec.extension.value != "" ==>
            rec.basename.value == rec.filename.value + "." + rec.extension.value)
    ensures Validate(rec).Ok? ==>
      Validate(rec).value == Meta(rec.basename.value, rec.filename.value, rec.extension.value,
                                  rec.size.value, rec.timestamp.value)
  {
    NoneMissingIffAllSet(rec);
  }

  /** Each rejection reason, with the key or check that causes it. */
  lemma ValidateRejects(rec: Record)
    ensures !AllSet(rec) ==>
              && Validate(rec).Err? && Validate(rec).error.MissingKey?
              && FirstMissing(rec, Required) == Some(Validate(rec).error.key)
    ensures AllSet(rec) ==>
              && (rec.kind.value != "file" ==> Validate(rec) == Err(NotAFile))
              && (rec.kind.value == "file" && rec.size.value < 0 ==> Validate(rec) == Err(InvalidSize))
              && ((rec.kind.value == "file" && rec.size.value >= 0 && rec.timestamp.value < 0) ==>
                    Validate(rec) == Err(InvalidTimestamp))
              && ((rec.kind.value == "file" && rec.size.value >= 0 && rec.timestamp.value >= 0
                   && rec.extension.value != ""
                   && rec.basename.value != rec.filename.value + "." + rec.extension.value) ==>
                    Validate(rec) == Err(InvalidFileInfo))
  {
    NoneMissingIffAllSet(rec);
  }

  /** With an empty extension no relation between base name and file name
      is checked: a record whose names disagree is still accepted. */
  lemma EmptyExtensionIsNotChecked()
    ensures Validate(Record(Some("file"), Some(0), Some(0), Some("README"), Some(""), Some("LICENSE")))
            == Ok(Meta("README", "LICENSE", "", 0, 0))
  {
    var rec := Record(Some("file"), Some(0), Some(0), Some("README"), Some(""), Some("LICENSE"));
    NoneMissingIffAllSet(rec);
  }
}
