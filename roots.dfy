/**
  `OpenRegistryKey`: the table of root-key names, opening a key below one of the
  six roots, and classifying a full key name by the root it starts with.
*/
module OpenRegistryKey {
  import opened Wrappers
  import opened Strings
  import opened Registry
  import opened ReadOnlyDictionaries

  /** The six predefined roots (hives). The nested enum of `OpenRegistryKey` and the
      top-level `RootKeyType` enum have the same members in the same order; this is both. */
  datatype RootKeyType = HKLM | HKCC | HKCR | HKU | HKCU | HKPD

  /** The root declared `i`-th (from 0). */
  function RootAt(i: nat): (root: RootKeyType)
    requires i < 6
    ensures Ordinal(root) == i
  {
    if i == 0 then HKLM
    else if i == 1 then HKCC
    else if i == 2 then HKCR
    else if i == 3 then HKU
    else if i == 4 then HKCU
    else HKPD
  }

  /** The full name a root key reports as its `Name`. */
  function LongName(root: RootKeyType): string {
    match root
    case HKLM => "HKEY_LOCAL_MACHINE"
    case HKCC => "HKEY_CURRENT_CONFIG"
    case HKCR => "HKEY_CLASSES_ROOT"
    case HKU => "HKEY_USERS"
    case HKCU => "HKEY_CURRENT_USER"
    case HKPD => "HKEY_PERFORMANCE_DATA"
  }

  /** The enum member's own name, which the table also accepts as an alias. */
  function ShortName(root: RootKeyType): string {
    match root
    case HKLM => "HKLM"
    case HKCC => "HKCC"
    case HKCR => "HKCR"
    case HKU => "HKU"
    case HKCU => "HKCU"
    case HKPD => "HKPD"
  }

  /** `RootKeys()`, in the order its entries are enumerated: the six long names, then the six aliases. */
  function RootKeys(): (table: seq<(string, RootKeyType)>)
    ensures |table| == 12
  {
    seq(12, i requires 0 <= i < 12 => if i < 6 then (LongName(RootAt(i)), RootAt(i)) else (ShortName(RootAt(i - 6)), RootAt(i - 6)))
  }

  /** The position of a root in declaration order. */
  function Ordinal(root: RootKeyType): (i: nat)
    ensures i < 6
  {
    match root
    case HKLM => 0
    case HKCC => 1
    case HKCR => 2
    case HKU => 3
    case HKCU => 4
    case HKPD => 5
  }

  /** `RootAt` and `Ordinal` are inverse: the six roots are distinct. */
  lemma OrdinalInverse(root: RootKeyType)
    ensures RootAt(Ordinal(root)) == root
  {
  }

  /** Every long name starts with `H` and is longer than every alias, which also starts with `H`. */
  lemma NameShapes(root: RootKeyType)
    ensures |LongName(root)| >= 10 && LongName(root)[0] == 'H'
    ensures 3 <= |ShortName(root)| <= 4 && ShortName(root)[0] == 'H'
  {
  }

  /** A name that starts with `H` is not blank. */
  lemma StartsWithH(name: string)
    requires |name| > 0 && name[0] == 'H'
    ensures !IsBlank(name)
  {
    assert !IsWhiteSpace(name[0]);
  }

  /** The table holds twelve entries: entry `i` names root `i` by its long name, entry
      `6 + i` by its alias; every name is non-blank. */
  lemma RootKeysTable()
    ensures |RootKeys()| == 12
    ensures forall i :: 0 <= i < 6 ==> RootKeys()[i] == (LongName(RootAt(i)), RootAt(i))
    ensures forall i :: 0 <= i < 6 ==> RootKeys()[6 + i] == (ShortName(RootAt(i)), RootAt(i))
    ensures forall i :: 0 <= i < |RootKeys()| ==> !IsBlank(RootKeys()[i].0)
  {
    forall i | 0 <= i < |RootKeys()|
      ensures !IsBlank(RootKeys()[i].0)
    {
      var root := if i < 6 then RootAt(i) else RootAt(i - 6);
      NameShapes(root);
      StartsWithH(RootKeys()[i].0);
    }
  }

  /** No name occurs twice in the table, so its first-match lookup is the dictionary's lookup. */
  lemma RootKeysDistinct()
    ensures DistinctKeys(RootKeys())
  {
    forall i, j | 0 <= i < j < |RootKeys()|
      ensures RootKeys()[i].0 != RootKeys()[j].0
    {
      EntriesDiffer(i, j);
    }
  }

  /** Two entries of the table have different names. */
  lemma EntriesDiffer(i: nat, j: nat)
    requires i < j < 12
    ensures RootKeys()[i].0 != RootKeys()[j].0
  {
    var r1 := if i < 6 then RootAt(i) else RootAt(i - 6);
    var r2 := if j < 6 then RootAt(j) else RootAt(j - 6);
    var n1, n2 := RootKeys()[i].0, RootKeys()[j].0;
    NameShapes(r1);
    NameShapes(r2);
    if j < 6 {
      assert n1 == LongName(r1) && n2 == LongName(r2) && r1 != r2;
      LongNamesPrefixFree(r1, r2);
      assert n1[..|n1|] == n1;
    } else if 6 <= i {
      assert n1 == ShortName(r1) && n2 == ShortName(r2) && r1 != r2;
      ShortNamesDiffer(r1, r2);
    } else {
      assert n1 == LongName(r1) && n2 == ShortName(r2);
      assert |n1| != |n2|;
    }
  }

  /** Two roots have different aliases. */
  lemma ShortNamesDiffer(r1: RootKeyType, r2: RootKeyType)
    requires r1 != r2
    ensures ShortName(r1) != ShortName(r2)
  {
    var a, b := ShortName(r1), ShortName(r2);
    if |a| == |b| {
      assert a[2] != b[2] || a[3] != b[3];
    }
  }

  /** The root key object `Registry.LocalMachine`, `Registry.CurrentConfig`, ... of a root. */
  function RootKey(hive: Hive, root: RootKeyType): Key {
    match root
    case HKLM => hive.localMachine
    case HKCC => hive.currentConfig
    case HKCR => hive.classesRoot
    case HKU => hive.users
    case HKCU => hive.currentUser
    case HKPD => hive.performanceData
  }

  /** `New(rootKey, keyName)`: the root itself for an empty name, otherwise
      `OpenSubKey(keyName)` on the root, which is null when the path is absent. */
  function New(hive: Hive, root: RootKeyType, keyName: string): (r: Result<Option<Key>, Exception>)
    ensures keyName == "" ==> r == Ok(Some(RootKey(hive, root)))
    ensures keyName != "" && '\\' !in keyName ==>
      r == match FindSubKey(RootKey(hive, root).subKeys, keyName)
           case None => Ok(Option.None)
           case Some(s) => s.open
  {
    if keyName == "" then Ok(Some(RootKey(hive, root)))
    else OpenSubKey(RootKey(hive, root), keyName)
  }

  /** The `ArgumentException` for a root name the table does not hold. */
  function UnknownRootKey(rootKey: string): Exception {
    Exception(Other, "The argument rootKey=" + rootKey + ", is not defined in the \"RootKeys\" dictionary.", Option.None)
  }

  /** `New(string rootKey, keyName)`: looks `rootKey` up exactly, and case-sensitively,
      in the table and opens `keyName` below that root; an unknown name is an `ArgumentException`. */
  function NewByName(hive: Hive, rootKey: string, keyName: string): (r: Result<Option<Key>, Exception>)
    requires !IsBlank(rootKey)
    ensures forall i :: 0 <= i < |RootKeys()| && RootKeys()[i].0 == rootKey ==> r == New(hive, RootKeys()[i].1, keyName)
    ensures (forall i :: 0 <= i < |RootKeys()| ==> RootKeys()[i].0 != rootKey) ==> r == Err(UnknownRootKey(rootKey))
  {
    var table := ReadOnlyDictionary(RootKeys());
    RootKeysDistinct();
    assert forall i :: 0 <= i < |RootKeys()| && RootKeys()[i].0 == rootKey ==> TryGetValue(table, rootKey, HKLM) == (true, RootKeys()[i].1) by {
      forall i | 0 <= i < |RootKeys()| && RootKeys()[i].0 == rootKey
        ensures TryGetValue(table, rootKey, HKLM) == (true, RootKeys()[i].1)
      {
        LookupAgreesWithMap(RootKeys(), HKLM, i);
      }
    }
    if ContainsKey(table, rootKey) then
      var (found, root) := TryGetValue(table, rootKey, HKLM);
      if found then New(hive, root, keyName) else Err(UnknownRootKey(rootKey))
    else Err(UnknownRootKey(rootKey))
  }

  /** Each table entry's name opens keys below the entry's root. */
  lemma NewByEntry(hive: Hive, i: nat, keyName: string)
    requires i < |RootKeys()|
    ensures !IsBlank(RootKeys()[i].0)
    ensures NewByName(hive, RootKeys()[i].0, keyName) == New(hive, RootKeys()[i].1, keyName)
  {
    RootKeysTable();
  }

  /** A root opens the same key under its long name and under its alias. */
  lemma NewByEitherName(hive: Hive, root: RootKeyType, keyName: string)
    ensures !IsBlank(LongName(root)) && !IsBlank(ShortName(root))
    ensures NewByName(hive, LongName(root), keyName) == New(hive, root, keyName)
    ensures NewByName(hive, ShortName(root), keyName) == New(hive, root, keyName)
  {
    var i := Ordinal(root);
    OrdinalInverse(root);
    assert RootKeys()[i] == (LongName(root), root) && RootKeys()[6 + i] == (ShortName(root), root) by {
      RootKeysTable();
    }
    NewByEntry(hive, i, keyName);
    NewByEntry(hive, 6 + i, keyName);
  }

  /** The index of the first table entry, from `i` on, whose name is a prefix of `name`;
      `|RootKeys()|` when there is none. */
  function FirstPrefix(name: string, i: nat): (k: nat)
    requires i <= |RootKeys()|
    ensures i <= k <= |RootKeys()|
    decreases |RootKeys()| - i
  {
    if i == |RootKeys()| then i
    else if StartsWith(name, RootKeys()[i].0) then i
    else FirstPrefix(name, i + 1)
  }

  /** The search stops at the first entry from `i` on whose name is a prefix of `name`. */
  lemma {:induction false} FirstPrefixIsFirst(name: string, i: nat)
    requires i <= |RootKeys()|
    ensures forall j :: i <= j < FirstPrefix(name, i) ==> !StartsWith(name, RootKeys()[j].0)
    ensures FirstPrefix(name, i) < |RootKeys()| ==> StartsWith(name, RootKeys()[FirstPrefix(name, i)].0)
    decreases |RootKeys()| - i
  {
    if i < |RootKeys()| && !StartsWith(name, RootKeys()[i].0) {
      FirstPrefixIsFirst(name, i + 1);
    }
  }

  /** The `ArgumentException` for a key name no table entry is a prefix of. */
  function UnknownKey(name: string): Exception {
    Exception(Other, "The argument key=" + name + ", is not defined in the \"RootKeys\" dictionary.", Option.None)
  }

  /** `GetRootKeyType(key)` on `key.Name`: the root of the first entry, in table order,
      whose name `key.Name` starts with (compared ordinally); an `ArgumentException` if none. */
  function GetRootKeyType(name: string): (r: Result<RootKeyType, Exception>)
    requires !IsBlank(name)
  {
    var k := FirstPrefix(name, 0);
    if k < |RootKeys()| then Ok(RootKeys()[k].1) else Err(UnknownKey(name))
  }

  /** A name classifies exactly when some table entry is a prefix of it, and then to the
      root of the first such entry; otherwise the error is the `ArgumentException`. */
  lemma GetRootKeyTypeFirstMatch(name: string)
    requires !IsBlank(name)
    ensures GetRootKeyType(name).Ok? <==> exists j :: 0 <= j < |RootKeys()| && StartsWith(name, RootKeys()[j].0)
    ensures GetRootKeyType(name).Ok? ==>
              exists j :: 0 <= j < |RootKeys()| && StartsWith(name, RootKeys()[j].0) && GetRootKeyType(name).value == RootKeys()[j].1
                          && forall k :: 0 <= k < j ==> !StartsWith(name, RootKeys()[k].0)
    ensures GetRootKeyType(name).Err? ==> GetRootKeyType(name).error == UnknownKey(name) && UnknownKey(name).kind == Other
  {
    FirstPrefixIsFirst(name, 0);
  }

  /** Two prefixes of one string are prefixes of each other. */
  lemma PrefixesNest(name: string, a: string, b: string)
    requires StartsWith(name, a) && StartsWith(name, b) && |a| <= |b|
    ensures StartsWith(b, a)
  {
    assert b[..|a|] == name[..|b|][..|a|] == name[..|a|];
  }

  /** No long name is a prefix of another root's long name. */
  lemma LongNamesPrefixFree(r1: RootKeyType, r2: RootKeyType)
    requires r1 != r2
    ensures !StartsWith(LongName(r2), LongName(r1))
  {
    var a, b := LongName(r1), LongName(r2);
    if |a| <= |b| {
      assert a[5] != b[5] || a[6] != b[6] || a[13] != b[13];
    }
  }

  /** An entry before a root's long name is not a prefix of a name that starts with that long name. */
  lemma EarlierEntryNotPrefix(name: string, root: RootKeyType, k: nat)
    requires StartsWith(name, LongName(root))
    requires k < Ordinal(root)
    ensures !StartsWith(name, RootKeys()[k].0)
  {
    var other := RootAt(k);
    assert RootKeys()[k].0 == LongName(other);
    assert other != root;
    if StartsWith(name, LongName(other)) {
      if |LongName(other)| <= |LongName(root)| {
        PrefixesNest(name, LongName(other), LongName(root));
        LongNamesPrefixFree(other, root);
      } else {
        PrefixesNest(name, LongName(root), LongName(other));
        LongNamesPrefixFree(root, other);
      }
    }
  }

  /** Any name that starts with a root's long name classifies to that root: the
      long names come first in the table and none is a prefix of another. */
  lemma LongNameClassifies(name: string, root: RootKeyType)
    requires StartsWith(name, LongName(root))
    ensures !IsBlank(name)
    ensures GetRootKeyType(name) == Ok(root)
  {
    assert name[0] == LongName(root)[0] == 'H';
    var i := Ordinal(root);
    OrdinalInverse(root);
    assert RootKeys()[i] == (LongName(root), root);
    forall k | 0 <= k < i
      ensures !StartsWith(name, RootKeys()[k].0)
    {
      EarlierEntryNotPrefix(name, root, k);
    }
    FirstPrefixIsFirst(name, 0);
  }

  /** A name that starts with no table entry is reported as unknown. */
  lemma UnknownNameRejected(name: string)
    requires !IsBlank(name)
    requires forall j :: 0 <= j < |RootKeys()| ==> !StartsWith(name, RootKeys()[j].0)
    ensures GetRootKeyType(name) == Err(UnknownKey(name))
  {
    FirstPrefixIsFirst(name, 0);
  }
}
