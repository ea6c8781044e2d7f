# Query-Registry in Dafny

A model of the registry-inventory engine `QueryRegistryKey` of Guson.Registry,
together with the tables and records it depends on:

- **Traversal.** The engine walks a registry key in pre-order. A key is skipped when
  an exclude item names its root and a fragment of its name. Its values are filtered
  by a value-name allow-list and formatted for a Registration Entries (`.reg`) file.
  The walk then descends into its subkeys.
- **Failure handling.** A Security, ObjectDisposed, UnauthorizedAccess or IO exception
  is logged as an `ErrorItem` and the walk goes on. Any other exception is logged at
  every `catch` it passes and escapes.
- **`AddValueName`.** It rebuilds the result list: before the first result of every
  run of results with the same key, it inserts that key's value of a given name.
- **`Export`.** It writes the result list as the lines of a `.reg` file.

The registry is a finite tree of keys (module `Registry`). Each key has its full
name, its values in enumeration order and its subkeys in enumeration order. Each
platform read that can throw carries its outcome in the tree: listing the value
names, reading one value, listing the subkey names, and opening one subkey. An
exception is a datatype with its class, its message and its inner message.

Each module holds one part of the model:

| module | what it holds |
|---|---|
| `Strings` | the .NET string operations used: `IsNullOrWhiteSpace`, ordinal `StartsWith`, `Contains`, `IndexOf` and `Replace` |
| `ReadOnlyDictionaries` | `ReadOnlyDictionary`: a list of pairs with a first-match lookup |
| `OpenRegistryKey` | the root table `RootKeys`, `New` by root and by root name, `GetRootKeyType` |
| `Records` | `ResultItem`, `ErrorItem`, `FilterItem` and `QueryItem`, their constructors and invariants |
| `Hex` | `ByteToHexList`, `StringToHexList`, `StringArrayToHexList` and the DWORD digits, each with a reader that undoes it |
| `ValueFormat` | `FormatValueData` and `HasValueName`, with a reader for every kind whose rendering can be read back |
| `RegExport` | the lines `Export` writes, with a reader |
| `Traversal` | the walk as functions, for use in specifications: what each part appends to the result and error lists, and which exception escapes |
| `Enrich` | `AddValueName` as a function of the result list |
| `Engine` | class `QueryRegistryKey` with its four list fields; every method is proved to append exactly what the `Traversal` and `Enrich` functions prescribe |

Each loop of the engine is a `while` or `for` loop in a method. Its invariant ties the
lists built so far to a specification function of the loop's remaining iterations.

Where the code behaves differently from what its comments or names suggest, the model
follows the code:

- `Query(key, exclude, filter)` and `Query(querys, exclude, filter)` **append** the given
  exclude and filter items to the engine's lists. They do not replace them.
- An exclude item whose `KeyName` is empty excludes every key of its root, because the
  empty string occurs in every name (`Traversal.EmptyFragmentExcludesRoot`).
- `OpenSubKey` on a subkey is outside the `try` of the subkey loop. Its exception therefore
  ends the loop over the remaining siblings and is logged once, by
  `QueryRegistrySubKeys` (`Traversal.OpenFailureEndsLoop`).
- A filter rule for a value name admits the value only when the rule's `ValueData` is
  empty. The value is formatted before that test, so a formatting failure is logged even
  for a value the rule then rejects.
- `AddValueName` is not idempotent. A second call inserts the value again, before the
  copy the first call inserted (`Enrich.NotIdempotent`).
- `StringToHexList` writes the low byte of each character and then `00`. This matches
  UTF-16LE only below U+0100 (`Hex.Latin1RoundTrip`, `Hex.HighByteLost`).
- An empty string or a null entry in a string array leaves an empty item in the hex list
  (`Hex.EmptyEntryLeavesEmptyItem`).
- `GetRootKeyType` takes the first table entry that is a prefix of the name. The long
  names come first and none is a prefix of another, so any name that starts with a long
  name classifies to that root (`OpenRegistryKey.LongNameClassifies`).
- Unknown and unlisted value kinds throw `UnauthorizedAccessException`, which is
  recoverable: the walk logs them and goes on. A failed cast is an
  `InvalidCastException`, which is not recoverable.
- A failure while reading the default value (the value named `""`) cannot be logged. The
  `ErrorItem` constructor rejects the blank name, and its own exception escapes
  (`Traversal.DefaultValueFailureEscapes`).

## Model

| member | source | states |
|---|---|---|
| Strings.IndexOf | Guson.Registry/QueryRegistryKey.cs:287 | the result is -1 exactly when the character does not occur; otherwise it is a position of the character with no earlier occurrence |
| Registry.MissingValue | Guson.Registry/QueryRegistryKey.cs:402-403 | for a value name the key does not hold, `GetValueKind` fails with the IO exception and `GetValue` is null |
| Registry.HeldValue | Guson.Registry/QueryRegistryKey.cs:338 | for a value name the key holds, both reads see the first value of that name: its data, or the exception reading it throws |
| Registry.OpenSubKey | Guson.Registry/QueryRegistryKey.cs:689 | opening a one-step path gives the named subkey's open outcome, or null when the key has no such subkey |
| ReadOnlyDictionaries.GetQuery | Guson.Registry/ReadOnlyDictionary.cs:101-105 | the query holds only stored pairs with the key, and every stored pair with the key |
| ReadOnlyDictionaries.ContainsKey | Guson.Registry/ReadOnlyDictionary.cs:80-84 | true exactly when some stored pair has the key |
| ReadOnlyDictionaries.TryGetValue | Guson.Registry/ReadOnlyDictionary.cs:90-96 | the flag is true exactly when some stored pair has the key; the value is the indexer's value for the key |
| ReadOnlyDictionaries.ItemIsFirstMatch | Guson.Registry/ReadOnlyDictionary.cs:62-75 | the indexer returns the value of the first stored pair with the key |
| ReadOnlyDictionaries.ItemAbsent | Guson.Registry/ReadOnlyDictionary.cs:62-96 | for a key no pair has, the indexer gives the default value and `TryGetValue` gives false and the default value |
| ReadOnlyDictionaries.LookupAgreesWithMap | Guson.Registry/ReadOnlyDictionary.cs:52-75 | when the keys are distinct, as in any dictionary copied by the constructor, every stored pair is found with its own value |
| OpenRegistryKey.RootKeys | Guson.Registry/OpenRegistryKey.cs:31-45 | the table has twelve entries |
| OpenRegistryKey.RootKeysTable | Guson.Registry/OpenRegistryKey.cs:31-45 | entry i names root i by its long name and entry 6 + i names the same root by its alias; no name in the table is blank |
| OpenRegistryKey.RootKeysDistinct | Guson.Registry/OpenRegistryKey.cs:31-45 | no name occurs twice in the table |
| OpenRegistryKey.LongNamesPrefixFree | Guson.Registry/OpenRegistryKey.cs:33-38 | no long name is a prefix of the long name of another root |
| OpenRegistryKey.New | Guson.Registry/OpenRegistryKey.cs:83-121 | an empty key name gives the root key itself; a one-step name gives that subkey's open outcome below the root, or null when it is absent |
| OpenRegistryKey.NewByName | Guson.Registry/OpenRegistryKey.cs:131-145 | a name that matches a table entry exactly opens the key name below that entry's root; a name that matches no entry is the `ArgumentException` |
| OpenRegistryKey.NewByEntry | Guson.Registry/OpenRegistryKey.cs:131-145 | each table entry's name is accepted and opens below the entry's root |
| OpenRegistryKey.NewByEitherName | Guson.Registry/OpenRegistryKey.cs:131-145 | a root's long name and its alias open the same key |
| OpenRegistryKey.FirstPrefixIsFirst | Guson.Registry/OpenRegistryKey.cs:156-166 | the search skips only entries that are not a prefix of the name, and stops at an entry that is one |
| OpenRegistryKey.GetRootKeyTypeFirstMatch | Guson.Registry/OpenRegistryKey.cs:151-169 | a name classifies exactly when some entry is a prefix of it. It then classifies to the root of the first such entry in table order. Otherwise the result is the `ArgumentException`, which is not recoverable |
| OpenRegistryKey.LongNameClassifies | Guson.Registry/OpenRegistryKey.cs:151-169 | any name that starts with a root's long name classifies to that root |
| OpenRegistryKey.UnknownNameRejected | Guson.Registry/OpenRegistryKey.cs:167-168 | a name that starts with no table entry is rejected with the `ArgumentException` for that name |
| Records.NewResultItem | Guson.Registry/ResultItem.cs:43-51 | requires a non-blank key name; the three arguments are stored unchanged and the invariant holds |
| Records.ResultItemOfKey | Guson.Registry/ResultItem.cs:27-36 | the key contributes its full name; the result is the one the string constructor builds, and the invariant holds |
| Records.ErrorText | Guson.Registry/ErrorItem.cs:33 | the error text starts with the message, and it is exactly the message when there is no inner exception |
| Records.ErrorTextSplits | Guson.Registry/ErrorItem.cs:50 | when the message has no newline, the first newline of the text separates the message from the inner message |
| Records.NewErrorItem | Guson.Registry/ErrorItem.cs:41-51 | requires a non-blank key name and name; both are stored unchanged; the error is the error text; the invariant holds |
| Records.ErrorItemOfKey | Guson.Registry/ErrorItem.cs:23-34 | the key contributes its full name; the result is the one the string constructor builds |
| Hex.Hex2 | Guson.Registry/QueryRegistryKey.cs:482 | a byte is two characters, neither of them a comma or a hyphen |
| Hex.HexListShape | Guson.Registry/QueryRegistryKey.cs:450-463 | a hex list of n bytes is empty for no bytes and otherwise has 3n - 1 characters: the first pair, then a comma and the rest |
| Hex.HexListRoundTrip | Guson.Registry/QueryRegistryKey.cs:450-463 | reading a hex list back gives the bytes it was written from |
| Hex.NonEmptyRoundTrip | Guson.Registry/QueryRegistryKey.cs:450-463 | reading a non-empty hex list back gives its bytes |
| Hex.ReplaceSeparator | Guson.Registry/QueryRegistryKey.cs:454-457 | turning the hyphens of the `BitConverter` rendering into commas rejoins the pairs with commas, since no pair holds a hyphen |
| Hex.ByteToHexList | Guson.Registry/QueryRegistryKey.cs:450-463 | the result is the upper-case hex list of the bytes |
| Hex.CharHex | Guson.Registry/QueryRegistryKey.cs:482 | one character is written as the hex list of its low byte and a zero byte |
| Hex.StringHexBytes | Guson.Registry/QueryRegistryKey.cs:468-493 | for a non-empty string, the result is the hex list of the low-byte pairs of its characters and a terminating zero character |
| Hex.Latin1RoundTrip | Guson.Registry/QueryRegistryKey.cs:482 | for characters below U+0100 the low-byte pairs give the string back |
| Hex.HighByteLost | Guson.Registry/QueryRegistryKey.cs:482 | U+0100 is written exactly as U+0000 is: the high byte is dropped |
| Hex.StringToHexList | Guson.Registry/QueryRegistryKey.cs:468-493 | the loop returns the character renderings separated by commas, then `,00,00`; it returns nothing for the empty string |
| Hex.LineAHex | Guson.Registry/QueryRegistryKey.cs:468-493 | the string `a` is written as `61,00,00,00` |
| Hex.StringArrayToHexList | Guson.Registry/QueryRegistryKey.cs:498-523 | the loop returns the entries' renderings separated by commas, then `,00,00`, with nothing for a null entry; it returns nothing for an empty array |
| Hex.MultiStringLayout | Guson.Registry/QueryRegistryKey.cs:498-523 | for an array of non-empty strings, the result is the hex list of the `REG_MULTI_SZ` layout: each string's low-byte pairs and terminating zero character, then one more zero character |
| Hex.EmptyEntryLeavesEmptyItem | Guson.Registry/QueryRegistryKey.cs:505-519 | the array `["", "a"]` is written with a leading comma, which does not read back as a hex list |
| Hex.Unsigned32 | Guson.Registry/QueryRegistryKey.cs:428 | the value `{0:x8}` prints for an `int` is its two's-complement pattern, below 2^32 |
| Hex.DWordHex | Guson.Registry/QueryRegistryKey.cs:428 | a DWORD is written as exactly eight digits |
| Hex.DWordRoundTrip | Guson.Registry/QueryRegistryKey.cs:428 | reading the eight digits back and undoing the two's complement gives the number |
| Hex.DWordExamples | Guson.Registry/QueryRegistryKey.cs:428 | 255 is written `000000ff` and -1 is written `ffffffff` |
| ValueFormat.Escape | Guson.Registry/QueryRegistryKey.cs:416 | doubling the backslashes and then escaping the quotes escapes each character on its own |
| ValueFormat.EscapeIsPerChar | Guson.Registry/QueryRegistryKey.cs:416 | the backslashes the first replacement writes are not touched by the second |
| ValueFormat.UnescapeEscape | Guson.Registry/QueryRegistryKey.cs:416 | unescaping gives back every string that was escaped |
| ValueFormat.Format | Guson.Registry/QueryRegistryKey.cs:404-443 | a null value is `""`. `Unknown` throws its `UnauthorizedAccessException` and an unlisted kind throws the other one. A success starts with the kind's prefix. No other exception than a failed cast is thrown |
| ValueFormat.FormatSucceeds | Guson.Registry/QueryRegistryKey.cs:406-440 | a non-null value formats exactly when its kind is listed and its raw data has the shape that kind is cast to |
| ValueFormat.BytesRoundTrip | Guson.Registry/QueryRegistryKey.cs:408-437 | `REG_NONE`, `REG_BINARY` and `REG_QWORD` renderings read back to their bytes |
| ValueFormat.DWordValueRoundTrip | Guson.Registry/QueryRegistryKey.cs:426-429 | a DWORD rendering reads back to its number |
| ValueFormat.StringRoundTrip | Guson.Registry/QueryRegistryKey.cs:414-417 | a string rendering reads back to its string |
| ValueFormat.ExpandStringRoundTrip | Guson.Registry/QueryRegistryKey.cs:418-421 | an expandable-string rendering reads back to its string when every character is below U+0100 |
| ValueFormat.FormatValueData | Guson.Registry/QueryRegistryKey.cs:396-444 | a missing value name is the IO exception of `GetValueKind`; a failing read fails with its exception; otherwise the data read is formatted |
| ValueFormat.HasValueName | Guson.Registry/QueryRegistryKey.cs:332-344 | true exactly when the key holds a readable, non-null value under that name; an exception exactly when reading that value fails |
| ValueFormat.MissingValueName | Guson.Registry/QueryRegistryKey.cs:332-344 | for a value name the key does not hold, formatting fails with the IO exception of `GetValueKind` and `HasValueName` is false |
| RegExport.LineBreaksRoundTrip | Guson.Registry/QueryRegistryKey.cs:258 | undoing the doubled line breaks gives the data back, so no line break is lost |
| RegExport.ValueLine | Guson.Registry/QueryRegistryKey.cs:252-259 | a value line is never empty and starts with `@` (default value) or `"` (named value) |
| RegExport.ExportLines | Guson.Registry/QueryRegistryKey.cs:233-267 | no lines exactly for an empty result; otherwise the header comes first and a blank line last |
| RegExport.BodyRoundTrip | Guson.Registry/QueryRegistryKey.cs:241-261 | read back, the body gives each written item's value line under its own item's key, in order; items with a blank key are skipped |
| RegExport.ExportRoundTrip | Guson.Registry/QueryRegistryKey.cs:233-267 | reading an export back gives every written item's key and value line, in result order |
| RegExport.FirstItemOpensSection | Guson.Registry/QueryRegistryKey.cs:239-254 | a first item with a non-blank key always opens a section: the header, a blank line, `[key]`, then its value line |
| Traversal.Catch | Guson.Registry/QueryRegistryKey.cs:638-645 | a blank name makes the constructor throw its contract failure. Otherwise the block adds one `ErrorItem` and no result, and rethrows exactly when the exception is not recoverable |
| Traversal.Guard | Guson.Registry/QueryRegistryKey.cs:578-589 | a guarded part that completes is unchanged by its guard |
| Traversal.GuardLogsOnce | Guson.Registry/QueryRegistryKey.cs:578-589 | a guarded part that throws keeps what it appended and adds one error naming the guard; the guard rethrows exactly the exceptions that are not recoverable |
| Traversal.GuardEscapesUnrecoverable | Guson.Registry/QueryRegistryKey.cs:582-589 | only exceptions that are not recoverable escape a guard |
| Traversal.FindFilter | Guson.Registry/QueryRegistryKey.cs:618 | a rule is found exactly when one has the value name, and it is the first such rule |
| Traversal.ValueOutcome | Guson.Registry/QueryRegistryKey.cs:614-637 | a result is added only for an admitted value that formats, and then it holds the key name, the value name and the formatting. A failure is the formatting's exception. An admitted value that formats is always added |
| Traversal.EmptyFragmentExcludesRoot | Guson.Registry/QueryRegistryKey.cs:552-561 | an exclude item with an empty `KeyName` excludes every key whose name starts with its root's long name |
| Traversal.ExclusionFailureUnrecoverable | Guson.Registry/QueryRegistryKey.cs:556 | the exclusion test can only fail with an exception that is not recoverable |
| Traversal.ExcludedKeyIsQuiet | Guson.Registry/QueryRegistryKey.cs:529-541 | an excluded key adds no result and no error, for itself or any key below it |
| Traversal.ValueListed | Guson.Registry/QueryRegistryKey.cs:629-635 | with no filter rules, a value that formats adds its result |
| Traversal.AllValuesListed | Guson.Registry/QueryRegistryKey.cs:605-649 | with no filter rules, a value loop that completes lists every value that formats, in order |
| Traversal.ValueFailureContained | Guson.Registry/QueryRegistryKey.cs:638-645 | a recoverable failure of one value adds exactly one error naming the value, and the loop goes on with the next value |
| Traversal.ValueFailurePropagates | Guson.Registry/QueryRegistryKey.cs:638-645 | any other failure of one value adds its error and ends the loop with that exception |
| Traversal.DefaultValueFailureEscapes | Guson.Registry/QueryRegistryKey.cs:640 | a failure of the default value ends the loop with the contract failure of the `ErrorItem` constructor |
| Traversal.WalkEscapesUnrecoverable | Guson.Registry/QueryRegistryKey.cs:529-541 | only exceptions that are not recoverable escape the walk of a key |
| Traversal.QueryStepLogs | Guson.Registry/QueryRegistryKey.cs:206-224 | a blank key name logs nothing; a key that opens with a name is walked; a missing key logs exactly one error, under the key name and the query label, carrying the missing-key message, and nothing escapes; a failure to open escapes |
| Traversal.QueryStepSound | Guson.Registry/QueryRegistryKey.cs:206-224 | every result and error one query item logs is valid and passes the exclude list and the filter |
| Traversal.QueriesSound | Guson.Registry/QueryRegistryKey.cs:204-226 | every result and error the query loop logs is valid and passes the exclude list and the filter |
| Traversal.QueryFailureEndsLoop | Guson.Registry/QueryRegistryKey.cs:204-226 | a query item whose step throws ends the loop: later items are not queried |
| Traversal.QueriesInOrder | Guson.Registry/QueryRegistryKey.cs:204-226 | a query item whose step completes logs its results and errors before those of the later items |
| Traversal.ChildFailureEndsLoop | Guson.Registry/QueryRegistryKey.cs:692-703 | a subkey whose walk throws is logged under the subkey's name after what it logged, and the subkey loop ends: later siblings are not visited |
| Traversal.OpenFailureEndsLoop | Guson.Registry/QueryRegistryKey.cs:689 | a subkey that cannot be opened ends the subkey loop with that exception and logs nothing there |
| Traversal.SubKeyListFailureContained | Guson.Registry/QueryRegistryKey.cs:664-671 | a recoverable failure to list the subkeys is logged once under `QueryRegistrySubKeys`, and the walk goes on |
| Traversal.FailureLoggedAtEachLevel | Guson.Registry/QueryRegistryKey.cs:656-703 | an exception from the walk of any subkey whose earlier siblings completed escapes the parent. The parent's subkey log ends with that walk's results, and its errors end with the walk's errors, then the error under the subkey's name, then the one under `QueryRegistrySubKeys` |
| Traversal.ChildFailureFrom | Guson.Registry/QueryRegistryKey.cs:685-703 | when the subkeys before it complete and the walk of subkey `i` throws, the subkey loop ends with that walk's log and its error under the subkey's name, and that exception escapes |
| Traversal.LoopEndsAtFailure | Guson.Registry/QueryRegistryKey.cs:685-703 | when the subkey steps from `k` up to `i` complete and step `i` throws, the subkey loop from `k` ends as step `i` does: its exception, with its results and errors last |
| Traversal.GuardEndsWith | Guson.Registry/QueryRegistryKey.cs:660-671 | the catch around the subkey loop, for an exception that is not recoverable, adds exactly one error after what the loop logged and rethrows |
| Traversal.WalkSound | Guson.Registry/QueryRegistryKey.cs:529-541 | every result of a walk is valid, admitted by the filter and from a key the exclusion test let through; every error is valid |
| Traversal.ValuesFromSound | Guson.Registry/QueryRegistryKey.cs:610-647 | the value loop of a key that is not excluded adds only valid, admitted results and valid errors |
| Traversal.ValuesLogSound | Guson.Registry/QueryRegistryKey.cs:574-590 | the same holds with the `QueryRegistryValues` guard around the loop |
| Traversal.SubKeysSound | Guson.Registry/QueryRegistryKey.cs:656-672 | the subkey part of a walk logs only sound items |
| Traversal.ChildrenSound | Guson.Registry/QueryRegistryKey.cs:685-706 | the subkey loop logs only sound items |
| Traversal.ChildSound | Guson.Registry/QueryRegistryKey.cs:689-704 | one subkey iteration logs only sound items |
| Enrich.ValueResult | Guson.Registry/QueryRegistryKey.cs:296-303 | a result is inserted only when the key holds the value and its rendering is not empty. The result then carries the key name, the value name and that rendering. A key without the value gives nothing. Conversely, a held value with a non-empty rendering is always inserted |
| Enrich.ProbeKey | Guson.Registry/QueryRegistryKey.cs:284-306 | a key name with no backslash, or one at position 0, gives nothing. An inserted result carries the key name, the value name and non-empty data, and is valid |
| Enrich.ProbeSplitsKeyName | Guson.Registry/QueryRegistryKey.cs:287-295 | for a root name with no backslash, splitting `root\path` gives back the root name and the path, and the probe opens the path below that root |
| Enrich.ProbeByLongName | Guson.Registry/QueryRegistryKey.cs:287-296 | a key named by a root's long name and a path is probed below that root |
| Enrich.Select | Guson.Registry/QueryRegistryKey.cs:282-286 | something is inserted only before a result with a non-blank key name other than the remembered one, and it is that result's probe |
| Enrich.RunningKey | Guson.Registry/QueryRegistryKey.cs:277-286 | the remembered key name is empty or the non-blank key name of an earlier result |
| Enrich.Insertion | Guson.Registry/QueryRegistryKey.cs:282-303 | an insertion or failure happens only at a result that starts a run. An inserted result has that result's key name, the added value name and non-empty data |
| Enrich.EnrichLoopAgrees | Guson.Registry/QueryRegistryKey.cs:277-319 | carrying the remembered key name from one iteration to the next computes the same as checking every result against the key name before it |
| Enrich.EnrichmentByLoop | Guson.Registry/QueryRegistryKey.cs:277-319 | the loop as written computes the specification of `AddValueName` |
| Enrich.AddedValueName | Guson.Registry/QueryRegistryKey.cs:275 | an empty result list stays empty |
| Enrich.InterleaveKeepsItems | Guson.Registry/QueryRegistryKey.cs:278-319 | the new list has the original results plus the insertions. Every original result keeps its order at its landing place, and each insertion sits just before its result |
| Enrich.EnrichInterleaves | Guson.Registry/QueryRegistryKey.cs:278-319 | a loop that completes builds exactly the original results interleaved with the insertions |
| Enrich.InsertionStartsRun | Guson.Registry/QueryRegistryKey.cs:284-301 | an insertion has its result's key name, the added value name and non-empty data, and is valid. Its result starts a run: when the result is not the first and the one before it has a key name that is not blank, that key name differs |
| Enrich.RunStartProbed | Guson.Registry/QueryRegistryKey.cs:282-306 | a result with a key name that is not blank and differs from the running key name is probed: what is inserted before it is what opening its key and reading the value give |
| Enrich.ValueAddedAtRunStart | Guson.Registry/QueryRegistryKey.cs:268-322 | when such a probe gives a result and nothing escapes, the new list holds that result directly before the original result |
| Enrich.EnrichKeepsValid | Guson.Registry/QueryRegistryKey.cs:271-324 | the loop keeps every result valid and logs only valid errors |
| Enrich.NotIdempotent | Guson.Registry/QueryRegistryKey.cs:271-324 | after a first insertion, a second call with the same value name inserts the value again, in front of the first copy |
| Engine.QueryRegistryKey.constructor | Guson.Registry/QueryRegistryKey.cs:36-45 | a new engine has four empty lists |
| Engine.QueryRegistryKey.AddResultItem | Guson.Registry/QueryRegistryKey.cs:726-733 | the item is appended to the result list |
| Engine.QueryRegistryKey.AddErrorItem | Guson.Registry/QueryRegistryKey.cs:715-722 | the item is appended to the error list |
| Engine.QueryRegistryKey.LogFailure | Guson.Registry/QueryRegistryKey.cs:638-645 | the `catch` block appends exactly the errors `Catch` prescribes and rethrows what it prescribes |
| Engine.QueryRegistryKey.KeyContainsExcludeItem | Guson.Registry/QueryRegistryKey.cs:546-569 | the loop computes the exclusion test: false with no items; otherwise the key's root is classified (an exception if unknown), and the result is true exactly when some item has that root and a fragment that occurs in the name |
| Engine.QueryRegistryKey.QueryValue | Guson.Registry/QueryRegistryKey.cs:612-646 | one iteration appends exactly what one value step logs |
| Engine.QueryRegistryKey.QueryValues | Guson.Registry/QueryRegistryKey.cs:594-650 | the value loop appends exactly the value loop's results and errors, and returns the exception that ends it |
| Engine.QueryRegistryKey.QueryRegistryValues | Guson.Registry/QueryRegistryKey.cs:574-590 | the guarded value loop appends exactly what the guarded loop logs |
| Engine.QueryRegistryKey.QueryRegistry | Guson.Registry/QueryRegistryKey.cs:529-541 | the walk of a key appends exactly the walk's results and errors and returns the exception that escapes |
| Engine.QueryRegistryKey.QueryRegistrySubKeys | Guson.Registry/QueryRegistryKey.cs:656-672 | the guarded subkey loop appends exactly what it logs |
| Engine.QueryRegistryKey.QuerySubKey | Guson.Registry/QueryRegistryKey.cs:687-705 | one subkey iteration appends exactly what one subkey step logs |
| Engine.QueryRegistryKey.QuerySubKeys | Guson.Registry/QueryRegistryKey.cs:676-709 | the subkey loop appends exactly the subkey loop's results and errors, and returns the exception that ends it |
| Engine.QueryRegistryKey.Query | Guson.Registry/QueryRegistryKey.cs:130-135 | results and errors of the walk are appended to what the engine holds, and the item invariants keep holding for every stored item |
| Engine.QueryRegistryKey.Extend | Guson.Registry/QueryRegistryKey.cs:147-167 | the exclude and filter items given are appended to the engine's lists, in order |
| Engine.QueryRegistryKey.QueryKey | Guson.Registry/QueryRegistryKey.cs:141-170 | the given items are appended to the lists, the walk then uses the extended lists, and the item invariants keep holding |
| Engine.QueryRegistryKey.QueryOne | Guson.Registry/QueryRegistryKey.cs:206-224 | one query item appends exactly what its step logs: nothing for a blank key name, the walk of an existing key, or one error for a missing key. The result and error lists stay valid |
| Engine.QueryRegistryKey.QueryAll | Guson.Registry/QueryRegistryKey.cs:177-227 | the lists are extended, then the query loop appends exactly what the query items log, in order, and returns the exception that ends it. The result and error lists stay valid |
| Engine.QueryRegistryKey.Export | Guson.Registry/QueryRegistryKey.cs:233-267 | the loop returns the `.reg` lines of the result list |
| Engine.QueryRegistryKey.KeepItem | Guson.Registry/QueryRegistryKey.cs:309-318 | the insertion and then the result go to the new list; a failure is logged first and, unless recoverable, ends the loop before the result is kept |
| Engine.QueryRegistryKey.SelectProbe | Guson.Registry/QueryRegistryKey.cs:282-306 | the key is probed only for a result that starts a run, and a non-blank key name is remembered |
| Engine.QueryRegistryKey.EnrichResults | Guson.Registry/QueryRegistryKey.cs:275-320 | the loop builds the new list and logs the errors that the `AddValueName` loop prescribes |
| Engine.QueryRegistryKey.AddValueName | Guson.Registry/QueryRegistryKey.cs:271-324 | the result list is replaced by the enriched list when the loop completes, and left as it was when an exception escapes; the loop's errors are appended. The result and error lists stay valid |

## Left out

- The `Microsoft.Win32` registry is replaced by the finite key tree of module `Registry`. Handles, their lifetimes and disposal are not modelled.
- Registry.OpenSubKey: a multi-step path descends one subkey name at a time, but its contract speaks only of one-step paths.
- OpenRegistryKey.New: its contract speaks only of the empty name and of one-step paths, for the same reason.
- Names of values and subkeys are compared exactly. The case-insensitive matching of Windows is not modelled.
- `GetRootKeyType` compares prefixes with the current culture. The model compares them ordinally.
- The texts of exception messages built with `string.Format` are modelled as plain concatenations.
- A C# `char` is a UTF-16 code unit; a Dafny `char` is a Unicode scalar value. The splitting of characters above U+FFFF into surrogate pairs is not modelled.
- Null references: there are no null items in the collections, no null key names and no null subkey names, so the `!= null` tests of the source always pass. Null entries of a string array and null values are modelled.
- The three `QueryRegistryKey` constructors that run a query (`QueryRegistryKey.cs:52-84`): a Dafny constructor cannot return the exception that escapes. The model creates an empty engine and then calls `Query`, `QueryKey` or `QueryAll`.
- The `Result` and `Error` properties (`QueryRegistryKey.cs:99-124`): the model reads the fields directly.
- `New(RootKeyType)` (`OpenRegistryKey.cs:74-77`) is `New(root, "")`. The `Unknown RootKeyType` exception cannot happen, because the six roots are the whole enumeration.
- The `RootKeys` dictionary is enumerated in insertion order, as .NET does for a dictionary nothing was removed from.
- The casts of `GetValue` results: a raw value of the wrong shape for its kind is an `InvalidCastException`, and a `REG_QWORD` value is read as bytes.
- Code Contracts preconditions are `requires` clauses. There are two exceptions, where the precondition can fail during a walk and its exception takes part in it: a blank name given to the `ErrorItem` constructor, and a blank root name given to `OpenRegistryKey.New` by `AddValueName`.
- The `NET45` branch of `ReadOnlyDictionary.cs` is not part of this model, nor are `ItemCollection`, the WPF controls, `GlobalSuppressions.cs` and `AssemblyInfo.cs`.
- `FilterItem` and `QueryItem` are datatypes. Their constructors store their arguments, and their only invariant, that the strings are not null, holds by their types.
