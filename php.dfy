/**
 * The PHP value domain the validators work on (`mixed` in the source), and the handful of
 * PHP built-ins whose meaning the rules depend on: isset, empty, is_array, count and
 * array lookup by key.
 */
module Php {
  import opened Wrappers
  import opened FileTypes

  /** A PHP array key: arrays are ordered maps from int or string keys to values. */
  datatype Key = IntKey(i: int) | StrKey(s: string)

  /**
   * A PHP value. Floats and resources are not modelled; every object other than an uploaded
   * file is an opaque `Obj`.
   */
  datatype Value =
    | Null
    | Bool(b: bool)
    | Int(i: int)
    | Str(s: string)
    | Arr(entries: seq<Entry>)
    | Obj
    | FileV(file: FileRec)

  /** One key => value pair of a PHP array, in iteration order. */
  datatype Entry = Entry(key: Key, val: Value)

  /** The fields of a File object (src/File.php), as its getters return them. */
  datatype FileRec = FileRec(
    name: string,
    path: string,
    fileType: Option<FileType>,
    tempName: string,
    error: int,
    size: int)

  /** UPLOAD_ERR_OK and UPLOAD_ERR_NO_FILE. */
  const UploadErrOk := 0
  const UploadErrNoFile := 4

  /** The (name, value) pair under validation (src/Attribute.php). */
  datatype Attribute = Attribute(name: string, value: Value)

  /** `isset($v)` on a variable that exists: anything but null. */
  predicate IsSet(v: Value) {
    !v.Null?
  }

  /** `empty($v)`: null, false, 0, "", "0" and the empty array; objects are never empty. */
  predicate IsEmpty(v: Value) {
    match v
    case Null => true
    case Bool(b) => !b
    case Int(i) => i == 0
    case Str(s) => s == "" || s == "0"
    case Arr(es) => es == []
    case Obj => false
    case FileV(_) => false
  }

  /** `$array[$key]`: the value of the first entry with that key, if there is one. */
  function Lookup(entries: seq<Entry>, key: Key): Option<Value>
    decreases |entries|
  {
    if entries == [] then None
    else if entries[0].key == key then Some(entries[0].val)
    else Lookup(entries[1..], key)
  }

  /** The lookup finds a value exactly when some entry has the key, and then it is that entry's value. */
  lemma {:induction false} LookupFound(entries: seq<Entry>, key: Key)
    ensures Lookup(entries, key).Some? <==> exists i :: 0 <= i < |entries| && entries[i].key == key
    ensures Lookup(entries, key).Some? ==>
      exists i :: 0 <= i < |entries| && entries[i] == Entry(key, Lookup(entries, key).value)
    decreases |entries|
  {
    if entries != [] && entries[0].key != key {
      LookupFound(entries[1..], key);
      assert forall i :: 1 <= i < |entries| ==> entries[i] == entries[1..][i - 1];
    }
  }

  /** A well-formed PHP array never repeats a key. */
  ghost predicate UniqueKeys(entries: seq<Entry>) {
    forall i, j :: 0 <= i < j < |entries| ==> entries[i].key != entries[j].key
  }

  /** In a well-formed array, looking up the key of an entry gives that entry's value. */
  lemma {:induction false} LookupOwnKey(entries: seq<Entry>, i: nat)
    requires UniqueKeys(entries) && i < |entries|
    ensures Lookup(entries, entries[i].key) == Some(entries[i].val)
  {
    if i > 0 {
      assert UniqueKeys(entries[1..]) by {
        forall a, b | 0 <= a < b < |entries[1..]|
          ensures entries[1..][a].key != entries[1..][b].key
        {
          assert entries[1..][a] == entries[a + 1] && entries[1..][b] == entries[b + 1];
        }
      }
      LookupOwnKey(entries[1..], i - 1);
      assert entries[1..][i - 1] == entries[i];
    }
  }
}
