/**
 * src/File.php: the record built from one `$_FILES` entry. Each field falls back to its own
 * default when its key is missing or null; a non-array input gives all the defaults. Under
 * strict types a present key of the wrong PHP type raises a TypeError.
 */
module Files {
  import opened Wrappers
  import opened FileTypes
  import opened Php

  /** The TypeError raised when the key's value does not fit the typed property. */
  datatype FileError = TypeError(key: string)

  /** The upload keys the constructor reads. */
  const NameKey := "name"
  const PathKey := "full_path"
  const TempKey := "tmp_name"
  const ErrorKey := "error"
  const SizeKey := "size"
  const TypeKey := "type"

  /** The property defaults: what a non-array input leaves in place. */
  const Defaults := FileRec("", "", None, "", UploadErrNoFile, 0)

  /** `$file[$key] ?? $default` for a string property. */
  function StringEntry(es: seq<Entry>, key: string, default: string): Result<string, FileError> {
    match Lookup(es, StrKey(key))
    case None => Ok(default)
    case Some(Null) => Ok(default)
    case Some(Str(s)) => Ok(s)
    case Some(_) => Err(TypeError(key))
  }

  /** `$file[$key] ?? $default` for an int property. */
  function IntEntry(es: seq<Entry>, key: string, default: int): Result<int, FileError> {
    match Lookup(es, StrKey(key))
    case None => Ok(default)
    case Some(Null) => Ok(default)
    case Some(Int(i)) => Ok(i)
    case Some(_) => Err(TypeError(key))
  }

  /** The constructor: the defaults for a non-array, otherwise one key at a time in source order. */
  function FromUpload(file: Value): Result<FileRec, FileError> {
    if !file.Arr? then Ok(Defaults)
    else
      var es := file.entries;
      var name :- StringEntry(es, NameKey, "");
      var path :- StringEntry(es, PathKey, "");
      var tempName :- StringEntry(es, TempKey, "");
      var error :- IntEntry(es, ErrorKey, UploadErrNoFile);
      var size :- IntEntry(es, SizeKey, 0);
      var mime :- StringEntry(es, TypeKey, "");
      Ok(FileRec(name, path, TryFrom(mime), tempName, error, size))
  }

  /** The `$_FILES` entry PHP builds for an upload: every key present, the MIME type as a string. */
  function ToUpload(f: FileRec): Value {
    Arr([
      Entry(StrKey(NameKey), Str(f.name)),
      Entry(StrKey(PathKey), Str(f.path)),
      Entry(StrKey(TypeKey), Str(if f.fileType.Some? then f.fileType.value.mime else "")),
      Entry(StrKey(TempKey), Str(f.tempName)),
      Entry(StrKey(ErrorKey), Int(f.error)),
      Entry(StrKey(SizeKey), Int(f.size))
    ])
  }

  /** Any value that is not an array gives the defaults: no name, no path, no type, error 4, size 0. */
  lemma NonArrayDefaults(file: Value)
    requires !file.Arr?
    ensures FromUpload(file) == Ok(FileRec("", "", None, "", UploadErrNoFile, 0))
    ensures FromUpload(file).value.error == 4
  {
  }

  /** The getters give back exactly what the upload entry holds: reading an entry inverts building it. */
  lemma UploadRoundTrip(f: FileRec)
    requires f.fileType.Some? ==> IsCase(f.fileType.value)
    ensures FromUpload(ToUpload(f)) == Ok(f)
  {
    var es := ToUpload(f).entries;
    UploadStrings(f);
    UploadInts(f);
    UploadType(f);
    if f.fileType.None? {
      EmptyIsNoType();
    } else {
      TryFromCase(f.fileType.value);
    }
  }

  /** Each key of a built entry reads back as the record's field, skipping the entries before it. */
  lemma UploadStrings(f: FileRec)
    ensures Lookup(ToUpload(f).entries, StrKey(NameKey)) == Some(Str(f.name))
    ensures Lookup(ToUpload(f).entries, StrKey(PathKey)) == Some(Str(f.path))
    ensures Lookup(ToUpload(f).entries, StrKey(TempKey)) == Some(Str(f.tempName))
  {
    var es := ToUpload(f).entries;
    assert es[0].key != StrKey(PathKey);
    var k := StrKey(TempKey);
    assert es[0].key != k && es[1].key != k && es[2].key != k;
    assert Lookup(es, k) == Lookup(es[1..], k) == Lookup(es[2..], k) == Lookup(es[3..], k);
  }

  /** The error code and the size read back as the integers the record holds. */
  lemma UploadInts(f: FileRec)
    ensures Lookup(ToUpload(f).entries, StrKey(ErrorKey)) == Some(Int(f.error))
    ensures Lookup(ToUpload(f).entries, StrKey(SizeKey)) == Some(Int(f.size))
  {
    var es := ToUpload(f).entries;
    var k := StrKey(ErrorKey);
    assert es[0].key != k && es[1].key != k && es[2].key != k && es[3].key != k;
    assert Lookup(es, k) == Lookup(es[1..], k) == Lookup(es[2..], k) == Lookup(es[3..], k) == Lookup(es[4..], k);
    var k2 := StrKey(SizeKey);
    assert es[0].key != k2 && es[1].key != k2 && es[2].key != k2 && es[3].key != k2 && es[4].key != k2;
    assert Lookup(es, k2) == Lookup(es[1..], k2) == Lookup(es[2..], k2) == Lookup(es[3..], k2) ==
           Lookup(es[4..], k2) == Lookup(es[5..], k2);
  }

  /** The type entry reads back as the MIME string of the record's type, or "" when it has none. */
  lemma UploadType(f: FileRec)
    ensures Lookup(ToUpload(f).entries, StrKey(TypeKey)) == Some(Str(if f.fileType.Some? then f.fileType.value.mime else ""))
  {
    var es := ToUpload(f).entries;
    var k := StrKey(TypeKey);
    assert es[0].key != k && es[1].key != k;
    assert Lookup(es, k) == Lookup(es[1..], k) == Lookup(es[2..], k);
  }

  /** An empty array gives the defaults too: every key falls back on its own. */
  lemma EmptyArrayDefaults()
    ensures FromUpload(Arr([])) == Ok(Defaults)
  {
    EmptyIsNoType();
  }

  /** A one-entry upload array holds its key and no other. */
  lemma SingleEntry(key: string, v: Value, other: string)
    ensures Lookup([Entry(StrKey(key), v)], StrKey(other)) == if key == other then Some(v) else None
  {
    var es := [Entry(StrKey(key), v)];
    assert es[1..] == [];
  }

  /** The entries of a one-key upload as the constructor reads them. */
  lemma SingleKeyReads(key: string, v: Value)
    ensures forall other :: Lookup([Entry(StrKey(key), v)], StrKey(other)) == if key == other then Some(v) else None
  {
    forall other {
      SingleEntry(key, v, other);
    }
  }

  /**
   * Keys are independent: with only the name present, the name is taken and every other
   * field keeps its default; a null name counts as missing.
   */
  lemma NameOnly(name: string)
    ensures FromUpload(Arr([Entry(StrKey(NameKey), Str(name))])) == Ok(Defaults.(name := name))
    ensures FromUpload(Arr([Entry(StrKey(NameKey), Null)])) == Ok(Defaults)
  {
    SingleKeyReads(NameKey, Str(name));
    SingleKeyReads(NameKey, Null);
    assert NameKey != PathKey && NameKey != TempKey && NameKey != ErrorKey && NameKey != SizeKey && NameKey != TypeKey;
    EmptyIsNoType();
  }

  /** The type is the table entry of the MIME string: an unknown MIME gives no type. */
  lemma TypeLookup(mime: string)
    ensures FromUpload(Arr([Entry(StrKey(TypeKey), Str(mime))])).Ok?
    ensures FromUpload(Arr([Entry(StrKey(TypeKey), Str(mime))])).value.fileType.Some? <==> IsMime(mime)
  {
    SingleKeyReads(TypeKey, Str(mime));
    assert TypeKey != NameKey && TypeKey != PathKey && TypeKey != TempKey && TypeKey != ErrorKey && TypeKey != SizeKey;
  }

  /** A present key holding a value of the wrong type raises a TypeError. */
  lemma WrongTypeRaises(size: string)
    ensures FromUpload(Arr([Entry(StrKey(SizeKey), Str(size))])) == Err(TypeError(SizeKey))
    ensures FromUpload(Arr([Entry(StrKey(NameKey), Int(0))])) == Err(TypeError(NameKey))
  {
    SingleKeyReads(SizeKey, Str(size));
    SingleKeyReads(NameKey, Int(0));
    assert SizeKey != NameKey && SizeKey != PathKey && SizeKey != TempKey && SizeKey != ErrorKey;
  }
}
