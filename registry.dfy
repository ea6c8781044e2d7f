/**
  The registry as the inventory code sees it through `Microsoft.Win32.RegistryKey`,
  replaced by a finite tree of keys. Every platform read that can throw carries
  its outcome in the tree: a failing value-name enumeration, a failing read of one
  value, a failing subkey enumeration, a failing or empty `OpenSubKey`.
*/
module Registry {
  import opened Wrappers
  import opened Strings

  newtype byte = x: int | 0 <= x < 0x100

  /** C#'s `int`, the type a DWORD value is read as. */
  newtype int32 = x: int | -0x8000_0000 <= x < 0x8000_0000

  /** `RegistryValueKind`; `Unlisted` stands for any value of the enumeration the formatter's switch does not name. */
  datatype ValueKind = None | Unknown | String | ExpandString | Binary | DWord | MultiString | QWord | Unlisted(code: int)

  /** What `GetValue` returns, in the shape the formatter casts it to:
      `Null` is a null reference, `Texts` a `string[]` whose entries may be null. */
  datatype RawValue =
    | Null
    | Bytes(bytes: seq<byte>)
    | Text(text: string)
    | Int32(number: int32)
    | Texts(lines: seq<Option<string>>)

  /** The exception classes the traversal tells apart. */
  datatype ExceptionKind = Security | ObjectDisposed | UnauthorizedAccess | IO | Other

  /** A thrown exception: its class, its `Message`, and the `Message` of its `InnerException` if there is one. */
  datatype Exception = Exception(kind: ExceptionKind, message: string, inner: Option<string>)

  /** The classes the traversal logs and continues past; every other exception is logged and rethrown. */
  predicate Recoverable(e: Exception) {
    e.kind != Other
  }

  /** The kind and raw data that `GetValueKind` and `GetValue` report for one value. */
  datatype Data = Data(kind: ValueKind, raw: RawValue)

  /** One named value of a key; `read` is `Err` when reading it throws. */
  datatype ValueEntry = ValueEntry(name: string, read: Result<Data, Exception>)

  /** One subkey name as `GetSubKeyNames` lists it, with what `OpenSubKey` on that name
      does: throw, return null (the key is gone), or return the opened key. */
  datatype SubKey = SubKey(name: string, open: Result<Option<Key>, Exception>)

  /** A registry key: its full `Name`, its values in `GetValueNames` order, its
      subkeys in `GetSubKeyNames` order. `valueFailure` is what `ValueCount` or
      `GetValueNames` throws, `subKeyFailure` what `SubKeyCount` or `GetSubKeyNames` throws. */
  datatype Key = Key(
    name: string,
    valueFailure: Option<Exception>,
    values: seq<ValueEntry>,
    subKeyFailure: Option<Exception>,
    subKeys: seq<SubKey>)

  /** The six predefined root keys of `Microsoft.Win32.Registry`. */
  datatype Hive = Hive(
    localMachine: Key,
    currentConfig: Key,
    classesRoot: Key,
    users: Key,
    currentUser: Key,
    performanceData: Key)

  /** What `GetValueKind` throws for a name the key does not hold. */
  const ValueNotFound := Exception(IO, "The specified registry key does not exist.", Option.None)

  /** The first value entry called `valueName`, if any. */
  function FindValue(values: seq<ValueEntry>, valueName: string): (r: Option<ValueEntry>)
    ensures r.Some? <==> exists i :: 0 <= i < |values| && values[i].name == valueName
    ensures r.Some? ==> r.value in values && r.value.name == valueName
  {
    if |values| == 0 then Option.None
    else if values[0].name == valueName then Some(values[0])
    else FindValue(values[1..], valueName)
  }

  /** `GetValueKind(valueName)` followed by `GetValue(valueName)`: the kind read first
      throws for a missing name. */
  function ReadValue(key: Key, valueName: string): Result<Data, Exception> {
    match FindValue(key.values, valueName)
    case None => Err(ValueNotFound)
    case Some(v) => v.read
  }

  /** `GetValue(valueName)` on its own: null for a missing name. */
  function GetValue(key: Key, valueName: string): Result<RawValue, Exception> {
    match FindValue(key.values, valueName)
    case None => Ok(Null)
    case Some(v) => if v.read.Ok? then Ok(v.read.value.raw) else Err(v.read.error)
  }

  /** A value name the key does not hold: `GetValueKind` throws the IO exception and
      `GetValue` returns null. */
  lemma MissingValue(key: Key, valueName: string)
    requires forall i :: 0 <= i < |key.values| ==> key.values[i].name != valueName
    ensures ReadValue(key, valueName) == Err(ValueNotFound)
    ensures GetValue(key, valueName) == Ok(Null)
  {
  }

  /** A value name the key holds: both reads see the first value of that name. */
  lemma HeldValue(key: Key, valueName: string, i: nat)
    requires i < |key.values| && key.values[i].name == valueName
    requires forall j :: 0 <= j < i ==> key.values[j].name != valueName
    ensures ReadValue(key, valueName) == key.values[i].read
    ensures GetValue(key, valueName) == if key.values[i].read.Ok? then Ok(key.values[i].read.value.raw) else Err(key.values[i].read.error)
  {
    FirstValue(key.values, valueName, i);
  }

  lemma {:induction false} FirstValue(values: seq<ValueEntry>, valueName: string, i: nat)
    requires i < |values| && values[i].name == valueName
    requires forall j :: 0 <= j < i ==> values[j].name != valueName
    ensures FindValue(values, valueName) == Some(values[i])
  {
    if i > 0 {
      FirstValue(values[1..], valueName, i - 1);
    }
  }

  /** The first subkey entry called `name`, if any. */
  function FindSubKey(subKeys: seq<SubKey>, name: string): (r: Option<SubKey>)
    ensures r.Some? <==> exists i :: 0 <= i < |subKeys| && subKeys[i].name == name
    ensures r.Some? ==> r.value.name == name
  {
    if |subKeys| == 0 then Option.None
    else if subKeys[0].name == name then Some(subKeys[0])
    else FindSubKey(subKeys[1..], name)
  }

  /** Follows a path of subkey names down from `key`. */
  function Descend(key: Key, names: seq<string>): Result<Option<Key>, Exception>
    decreases |names|
  {
    if |names| == 0 then Ok(Some(key))
    else
      match FindSubKey(key.subKeys, names[0])
      case None => Ok(Option.None)
      case Some(s) =>
        match s.open
        case Err(e) => Err(e)
        case Ok(None) => Ok(Option.None)
        case Ok(Some(child)) => Descend(child, names[1..])
  }

  /** `key.OpenSubKey(path)` for a backslash-separated relative path: null when some
      step is missing, the opening exception when some step throws. */
  function OpenSubKey(key: Key, path: string): (r: Result<Option<Key>, Exception>)
    ensures '\\' !in path ==>
      r == match FindSubKey(key.subKeys, path)
           case None => Ok(Option.None)
           case Some(s) => s.open
  {
    assert '\\' !in path ==> Split(path, '\\') == [path] && [path][1..] == [];
    assert '\\' !in path ==> Descend(key, [path]) == match FindSubKey(key.subKeys, path)
                                                    case None => Ok(Option.None)
                                                    case Some(s) => s.open
    by {
      if '\\' !in path && FindSubKey(key.subKeys, path).Some? {
        var s := FindSubKey(key.subKeys, path).value;
        if s.open.Ok? && s.open.value.Some? {
          assert Descend(s.open.value.value, []) == Ok(Some(s.open.value.value));
        }
      }
    }
    Descend(key, Split(path, '\\'))
  }
}
