/**
  The immutable records the engine collects and is configured with: `ResultItem`
  (one value found), `ErrorItem` (one failure logged), `FilterItem` (one rule of the
  value-name allow-list) and `QueryItem` (a key to query, or to exclude).
  Each record's Code Contracts invariant is a predicate; its constructor is a
  function whose precondition is the constructor's and whose result satisfies the invariant.
*/
module Records {
  import opened Wrappers
  import opened Strings
  import opened Registry
  import opened OpenRegistryKey

  /** A value found: the full key name, the value name (empty for the default value) and the formatted data. */
  datatype ResultItem = ResultItem(KeyName: string, ValueName: string, ValueData: string) {
    /** The invariant: `KeyName` is not blank (`ValueName` and `ValueData` are never null here). */
    predicate Valid() {
      !IsBlank(KeyName)
    }
  }

  /** `new ResultItem(keyName, valueName, valueData)`: the three arguments stored unchanged. */
  function NewResultItem(keyName: string, valueName: string, valueData: string): (r: ResultItem)
    requires !IsBlank(keyName)
    ensures r.Valid()
    ensures r.KeyName == keyName && r.ValueName == valueName && r.ValueData == valueData
  {
    ResultItem(keyName, valueName, valueData)
  }

  /** `new ResultItem(key, valueName, valueData)`: the key contributes its full `Name`. */
  function ResultItemOfKey(key: Key, valueName: string, valueData: string): (r: ResultItem)
    requires !IsBlank(key.name)
    ensures r.Valid()
    ensures r == NewResultItem(key.name, valueName, valueData)
  {
    ResultItem(key.name, valueName, valueData)
  }

  /** A failure logged: the key, the value name, subkey name or method that failed, and the exception text. */
  datatype ErrorItem = ErrorItem(KeyName: string, Name: string, Error: string) {
    /** The invariant: `KeyName` and `Name` are not blank (`Error` is never null here). */
    predicate Valid() {
      !IsBlank(KeyName) && !IsBlank(Name)
    }
  }

  /** The text an `ErrorItem` keeps of an exception: its message, then a newline and the
      inner exception's message when there is an inner exception. */
  function ErrorText(e: Exception): (text: string)
    ensures StartsWith(text, e.message)
    ensures text == e.message <==> e.inner.None?
  {
    assert StartsWith(e.message, e.message) by { assert e.message[..|e.message|] == e.message; }
    match e.inner
    case None => e.message
    case Some(inner) =>
      var text := e.message + "\n" + inner;
      assert text[..|e.message|] == e.message;
      text
  }

  /** The two messages can be read back from the error text when the outer message has no newline. */
  lemma ErrorTextSplits(e: Exception)
    requires '\n' !in e.message
    ensures e.inner.None? ==> IndexOf(ErrorText(e), '\n') == -1
    ensures e.inner.Some? ==> IndexOf(ErrorText(e), '\n') == |e.message|
                              && ErrorText(e)[|e.message| + 1..] == e.inner.value
  {
    var text := ErrorText(e);
    if e.inner.Some? {
      assert text == e.message + "\n" + e.inner.value;
      assert text[|e.message|] == '\n';
      assert text[..|e.message|] == e.message;
    }
  }

  /** `new ErrorItem(keyName, name, ex)`. */
  function NewErrorItem(keyName: string, name: string, e: Exception): (r: ErrorItem)
    requires !IsBlank(keyName) && !IsBlank(name)
    ensures r.Valid()
    ensures r.KeyName == keyName && r.Name == name && r.Error == ErrorText(e)
  {
    ErrorItem(keyName, name, ErrorText(e))
  }

  /** `new ErrorItem(key, name, ex)`: the key contributes its full `Name`. */
  function ErrorItemOfKey(key: Key, name: string, e: Exception): (r: ErrorItem)
    requires !IsBlank(key.name) && !IsBlank(name)
    ensures r.Valid()
    ensures r == NewErrorItem(key.name, name, e)
  {
    ErrorItem(key.name, name, ErrorText(e))
  }

  /** A filter rule: a value name and a data string; the traversal admits a value named by a
      rule only when the rule's data is empty.
      `new FilterItem(valueName, valueData)` is the constructor; its arguments are never null here. */
  datatype FilterItem = FilterItem(ValueName: string, ValueData: string)

  /** A key to query, or a fragment of a key name to exclude, below a root.
      `new QueryItem(rootKey, keyName)` is the constructor; `KeyName` may be empty. */
  datatype QueryItem = QueryItem(RootKey: RootKeyType, KeyName: string)
}
