/**
  `QueryRegistryKey`: the stateful inventory engine. It holds the exclude list, the
  filter list, the result list and the error list, and its methods append to them
  while they walk the registry. Every method is proved to append exactly what the
  specification functions of the traversal and of `AddValueName` prescribe, and to
  return the exception that escapes (`None` when the call completes).
*/
module Engine {
  import opened Wrappers
  import opened Strings
  import opened Registry
  import opened OpenRegistryKey
  import opened Records
  import opened ValueFormat
  import opened Traversal
  import opened Enrich
  import opened RegExport

  class QueryRegistryKey {
    /** Fragments of key names to leave out of the walk, with their roots. */
    var exclude: seq<QueryItem>
    /** The value-name allow-list. */
    var filter: seq<FilterItem>
    /** The values found, in the order they were found. */
    var result: seq<ResultItem>
    /** The failures logged, in the order they happened. */
    var error: seq<ErrorItem>

    /** The invariants of the item classes hold for every stored item. */
    ghost predicate Valid()
      reads this
    {
      && (forall i :: 0 <= i < |result| ==> result[i].Valid())
      && (forall i :: 0 <= i < |error| ==> error[i].Valid())
    }

    /** An engine with all four lists empty. */
    constructor ()
      ensures exclude == [] && filter == [] && result == [] && error == []
      ensures Valid()
    {
      exclude, filter, result, error := [], [], [], [];
    }

    /** `AddResultItem(item)`. */
    method AddResultItem(item: ResultItem)
      modifies this`result
      ensures result == old(result) + [item]
    {
      result := result + [item];
    }

    /** `AddErrorItem(item)`. */
    method AddErrorItem(item: ErrorItem)
      modifies this`error
      ensures error == old(error) + [item]
    {
      error := error + [item];
    }

    /** A `catch` block: the `ErrorItem` for `name` below `keyName` is added, then the
        exception is rethrown unless recoverable; a blank `name` makes the constructor throw. */
    method LogFailure(keyName: string, name: string, e: Exception) returns (thrown: Option<Exception>)
      requires !IsBlank(keyName)
      modifies this`error
      ensures error == old(error) + Catch(keyName, name, e).errors
      ensures thrown == Catch(keyName, name, e).thrown
    {
      if IsBlank(name) {
        thrown := Some(ContractFailure);
        AppendNothing([], error, Catch(keyName, name, e));
      } else {
        AddErrorItem(NewErrorItem(keyName, name, e));
        thrown := if Recoverable(e) then Option.None else Some(e);
      }
    }

    /** `KeyContainsExcludeItem(key)`: the exclude items are tried in order; the key's
        root is classified for each, which throws for an unknown root. */
    method KeyContainsExcludeItem(key: Key) returns (r: Result<bool, Exception>)
      requires !IsBlank(key.name)
      ensures r == Excluded(exclude, key.name)
    {
      for i := 0 to |exclude|
        invariant i > 0 ==> GetRootKeyType(key.name).Ok?
        invariant forall j :: 0 <= j < i ==> !Excludes(exclude[j], GetRootKeyType(key.name).value, key.name)
      {
        var root := GetRootKeyType(key.name);
        if root.Err? {
          return Err(root.error);
        }
        if Excludes(exclude[i], root.value, key.name) {
          assert Excluded(exclude, key.name) == Ok(true);
          return Ok(true);
        }
      }
      assert |exclude| > 0 ==> Excluded(exclude, key.name) == Ok(false);
      return Ok(false);
    }

    /** One iteration of the value loop of `QueryValues`: the `try` that formats and
        filters one value, and its `catch`. */
    method QueryValue(key: Key, valueName: string) returns (thrown: Option<Exception>)
      requires !IsBlank(key.name)
      modifies this`result, this`error
      ensures result == old(result) + ValueStep(filter, key, valueName).results
      ensures error == old(error) + ValueStep(filter, key, valueName).errors
      ensures thrown == ValueStep(filter, key, valueName).thrown
    {
      thrown := Option.None;
      match ValueOutcome(filter, key, valueName) {
        case Ok(None) =>
          AppendNothing(result, error, ValueStep(filter, key, valueName));
        case Ok(Some(item)) =>
          AddResultItem(item);
        case Err(e) =>
          thrown := LogFailure(key.name, valueName, e);
      }
    }

    /** `QueryValues(key)`: every value name in turn, formatted and filtered; a failure is
        logged under the value name and ends the loop unless recoverable. */
    method QueryValues(key: Key) returns (thrown: Option<Exception>)
      requires !IsBlank(key.name)
      modifies this`result, this`error
      ensures result == old(result) + Values(filter, key).results
      ensures error == old(error) + Values(filter, key).errors
      ensures thrown == Values(filter, key).thrown
    {
      if key.valueFailure.Some? {
        AppendNothing(result, error, Values(filter, key));
        return key.valueFailure;
      }
      ghost var r0, e0 := result, error;
      ghost var acc := Quiet;
      LoopStart(ValuesFrom(filter, key, 0));
      var i := 0;
      while i < |key.values|
        invariant 0 <= i <= |key.values|
        invariant acc.thrown.None?
        invariant Then(acc, ValuesFrom(filter, key, i)) == ValuesFrom(filter, key, 0)
        invariant result == r0 + acc.results && error == e0 + acc.errors
      {
        var valueName := key.values[i].name;
        ghost var step := ValueStep(filter, key, valueName);
        ValuesFromUnfolds(filter, key, i);
        LoopStep(r0, e0, acc, step, ValuesFrom(filter, key, i + 1), ValuesFrom(filter, key, 0));
        acc := Then(acc, step);
        thrown := QueryValue(key, valueName);
        if thrown.Some? {
          return;
        }
        i := i + 1;
      }
      LoopDone(acc, ValuesFrom(filter, key, 0));
      return Option.None;
    }

    /** `QueryRegistryValues(key)`: `QueryValues` inside a `catch` that logs under its own name. */
    method QueryRegistryValues(key: Key) returns (thrown: Option<Exception>)
      requires !IsBlank(key.name)
      modifies this`result, this`error
      ensures result == old(result) + ValuesLog(filter, key).results
      ensures error == old(error) + ValuesLog(filter, key).errors
      ensures thrown == ValuesLog(filter, key).thrown
    {
      ghost var r0, e0 := result, error;
      thrown := QueryValues(key);
      if thrown.Some? {
        AppendGuard(r0, e0, key.name, ValuesLabel(), Values(filter, key));
        thrown := LogFailure(key.name, ValuesLabel(), thrown.value);
      }
    }

    /** `QueryRegistry(key)`: nothing for an excluded key, else its values and then its subkeys. */
    method QueryRegistry(key: Key) returns (thrown: Option<Exception>)
      requires !IsBlank(key.name)
      modifies this`result, this`error
      ensures result == old(result) + Walk(exclude, filter, key).results
      ensures error == old(error) + Walk(exclude, filter, key).errors
      ensures thrown == Walk(exclude, filter, key).thrown
      decreases key, 2
    {
      ghost var ex, fl := exclude, filter;
      WalkUnfolds(ex, fl, key);
      var excluded := KeyContainsExcludeItem(key);
      if excluded.Err? {
        thrown := Some(excluded.error);
        AppendNothing(result, error, Walk(ex, fl, key));
      } else if excluded.value {
        thrown := Option.None;
        AppendNothing(result, error, Walk(ex, fl, key));
      } else {
        ghost var r0, e0 := result, error;
        thrown := QueryRegistryValues(key);
        if thrown.None? {
          thrown := QueryRegistrySubKeys(key);
          AppendThen(r0, e0, ValuesLog(fl, key), SubKeysLog(ex, fl, key));
        }
      }
    }

    /** `QueryRegistrySubKeys(key)`: `QuerySubKeys` inside a `catch` that logs under its own name. */
    method QueryRegistrySubKeys(key: Key) returns (thrown: Option<Exception>)
      requires !IsBlank(key.name)
      modifies this`result, this`error
      ensures result == old(result) + SubKeysLog(exclude, filter, key).results
      ensures error == old(error) + SubKeysLog(exclude, filter, key).errors
      ensures thrown == SubKeysLog(exclude, filter, key).thrown
      decreases key, 1
    {
      ghost var r0, e0 := result, error;
      thrown := QuerySubKeys(key);
      if thrown.Some? {
        AppendGuard(r0, e0, key.name, SubKeysLabel(),
          match key.subKeyFailure
          case Some(e) => Throw(e)
          case None => ChildrenFrom(exclude, filter, key, 0));
        thrown := LogFailure(key.name, SubKeysLabel(), thrown.value);
      }
    }

    /** One iteration of the subkey loop: the subkey is opened and, when that gives a
        key with a name, walked inside a `try`; an exception from `OpenSubKey` itself
        is not caught here. */
    method QuerySubKey(key: Key, i: nat) returns (thrown: Option<Exception>)
      requires !IsBlank(key.name) && i < |key.subKeys|
      modifies this`result, this`error
      ensures var step := ChildStep(exclude, filter, key, i);
              result == old(result) + step.results && error == old(error) + step.errors && thrown == step.thrown
      decreases key, 0, 0
    {
      var sub := key.subKeys[i];
      thrown := Option.None;
      match sub.open {
        case Err(e) =>
          AppendNothing(result, error, ChildStep(exclude, filter, key, i));
          return Some(e);
        case Ok(None) =>
          AppendNothing(result, error, ChildStep(exclude, filter, key, i));
        case Ok(Some(child)) =>
          if IsBlank(child.name) {
            AppendNothing(result, error, ChildStep(exclude, filter, key, i));
          } else {
            ghost var r1, e1 := result, error;
            ChildStepWalks(exclude, filter, key, i, child);
            thrown := QueryRegistry(child);
            if thrown.Some? {
              AppendGuard(r1, e1, key.name, sub.name, Walk(exclude, filter, child));
              thrown := LogFailure(key.name, sub.name, thrown.value);
            }
          }
      }
    }

    /** `QuerySubKeys(key)`: every subkey in turn is opened and walked; the walk of a
        subkey is inside a `catch` that logs under the subkey's name. */
    method QuerySubKeys(key: Key) returns (thrown: Option<Exception>)
      requires !IsBlank(key.name)
      modifies this`result, this`error
      ensures var inner := match key.subKeyFailure
                           case Some(e) => Throw(e)
                           case None => ChildrenFrom(exclude, filter, key, 0);
              result == old(result) + inner.results && error == old(error) + inner.errors && thrown == inner.thrown
      decreases key, 0, 1
    {
      if key.subKeyFailure.Some? {
        AppendNothing(result, error, Throw(key.subKeyFailure.value));
        return key.subKeyFailure;
      }
      ghost var r0, e0 := result, error;
      ghost var acc := Quiet;
      LoopStart(ChildrenFrom(exclude, filter, key, 0));
      var i := 0;
      while i < |key.subKeys|
        invariant 0 <= i <= |key.subKeys|
        invariant acc.thrown.None?
        invariant Then(acc, ChildrenFrom(exclude, filter, key, i)) == ChildrenFrom(exclude, filter, key, 0)
        invariant result == r0 + acc.results && error == e0 + acc.errors
      {
        ghost var step := ChildStep(exclude, filter, key, i);
        ChildrenFromUnfolds(exclude, filter, key, i);
        LoopStep(r0, e0, acc, step, ChildrenFrom(exclude, filter, key, i + 1), ChildrenFrom(exclude, filter, key, 0));
        acc := Then(acc, step);
        thrown := QuerySubKey(key, i);
        if thrown.Some? {
          return;
        }
        i := i + 1;
      }
      LoopDone(acc, ChildrenFrom(exclude, filter, key, 0));
      return Option.None;
    }

    /** `Query(key)`: walks `key` with the current exclude and filter lists; results and
        errors are appended to what the engine already holds. */
    method Query(key: Key) returns (thrown: Option<Exception>)
      requires !IsBlank(key.name)
      requires Valid()
      modifies this`result, this`error
      ensures result == old(result) + Walk(exclude, filter, key).results
      ensures error == old(error) + Walk(exclude, filter, key).errors
      ensures thrown == Walk(exclude, filter, key).thrown
      ensures Valid()
    {
      thrown := QueryRegistry(key);
      WalkSound(exclude, filter, key);
      KeepValid(old(result), old(error), Walk(exclude, filter, key));
    }

    /** Appending a sound log to valid lists keeps them valid. */
    static lemma KeepValid(results: seq<ResultItem>, errors: seq<ErrorItem>, log: Log)
      requires forall i :: 0 <= i < |results| ==> results[i].Valid()
      requires forall i :: 0 <= i < |errors| ==> errors[i].Valid()
      requires forall i :: 0 <= i < |log.results| ==> log.results[i].Valid()
      requires forall i :: 0 <= i < |log.errors| ==> log.errors[i].Valid()
      ensures forall i :: 0 <= i < |results + log.results| ==> (results + log.results)[i].Valid()
      ensures forall i :: 0 <= i < |errors + log.errors| ==> (errors + log.errors)[i].Valid()
    {
      assert forall i :: |results| <= i < |results + log.results| ==> (results + log.results)[i] == log.results[i - |results|];
      assert forall i :: |errors| <= i < |errors + log.errors| ==> (errors + log.errors)[i] == log.errors[i - |errors|];
    }

    /** Appends the exclude and filter items given to the engine's own lists. */
    method Extend(excludeItems: seq<QueryItem>, filterItems: seq<FilterItem>)
      modifies this`exclude, this`filter
      ensures exclude == old(exclude) + excludeItems
      ensures filter == old(filter) + filterItems
    {
      for i := 0 to |excludeItems|
        invariant exclude == old(exclude) + excludeItems[..i]
        invariant filter == old(filter)
      {
        exclude := exclude + [excludeItems[i]];
      }
      assert excludeItems[..|excludeItems|] == excludeItems;
      for i := 0 to |filterItems|
        invariant exclude == old(exclude) + excludeItems
        invariant filter == old(filter) + filterItems[..i]
      {
        filter := filter + [filterItems[i]];
      }
      assert filterItems[..|filterItems|] == filterItems;
    }

    /** `Query(key, exclude, filter)`: the items given are appended to the exclude and
        filter lists, which then apply to this walk and to every later one. */
    method QueryKey(key: Key, excludeItems: seq<QueryItem>, filterItems: seq<FilterItem>) returns (thrown: Option<Exception>)
      requires !IsBlank(key.name)
      requires Valid()
      modifies this
      ensures exclude == old(exclude) + excludeItems && filter == old(filter) + filterItems
      ensures result == old(result) + Walk(exclude, filter, key).results
      ensures error == old(error) + Walk(exclude, filter, key).errors
      ensures thrown == Walk(exclude, filter, key).thrown
      ensures Valid()
    {
      Extend(excludeItems, filterItems);
      thrown := Query(key);
    }

    /** One iteration of the query loop: a query with a blank key name is skipped; the
        key is opened below its root and walked, or logged as missing. */
    method QueryOne(hive: Hive, item: QueryItem) returns (thrown: Option<Exception>)
      requires Valid()
      modifies this`result, this`error
      ensures var step := QueryStep(hive, exclude, filter, item);
              result == old(result) + step.results && error == old(error) + step.errors && thrown == step.thrown
      ensures Valid()
    {
      thrown := Option.None;
      if IsBlank(item.KeyName) {
        AppendNothing(result, error, QueryStep(hive, exclude, filter, item));
      } else {
        var found := New(hive, item.RootKey, item.KeyName);
        if found.Err? {
          AppendNothing(result, error, QueryStep(hive, exclude, filter, item));
          return Some(found.error);
        }
        if found.value.Some? && !IsBlank(found.value.value.name) {
          thrown := Query(found.value.value);
        } else {
          var missing := NewErrorItem(item.KeyName, QueryLabel(), MissingKey(item));
          KeepValid(result, error, Log([], [missing], Option.None));
          AddErrorItem(missing);
        }
      }
    }

    /** `Query(querys, exclude, filter)`: the lists are extended, then every query item with
        a non-blank key name is opened below its root and walked, or logged as missing. */
    method QueryAll(hive: Hive, queries: seq<QueryItem>, excludeItems: seq<QueryItem>, filterItems: seq<FilterItem>)
      returns (thrown: Option<Exception>)
      requires Valid()
      modifies this
      ensures exclude == old(exclude) + excludeItems && filter == old(filter) + filterItems
      ensures result == old(result) + QueriesFrom(hive, exclude, filter, queries, 0).results
      ensures error == old(error) + QueriesFrom(hive, exclude, filter, queries, 0).errors
      ensures thrown == QueriesFrom(hive, exclude, filter, queries, 0).thrown
      ensures Valid()
    {
      Extend(excludeItems, filterItems);
      ghost var r0, e0 := result, error;
      ghost var acc := Quiet;
      LoopStart(QueriesFrom(hive, exclude, filter, queries, 0));
      var i := 0;
      while i < |queries|
        invariant 0 <= i <= |queries|
        invariant exclude == old(exclude) + excludeItems && filter == old(filter) + filterItems
        invariant acc.thrown.None?
        invariant Then(acc, QueriesFrom(hive, exclude, filter, queries, i)) == QueriesFrom(hive, exclude, filter, queries, 0)
        invariant result == r0 + acc.results && error == e0 + acc.errors
        invariant r0 == old(result) && e0 == old(error)
        invariant Valid()
      {
        ghost var step := QueryStep(hive, exclude, filter, queries[i]);
        QueriesFromUnfolds(hive, exclude, filter, queries, i);
        LoopStep(r0, e0, acc, step, QueriesFrom(hive, exclude, filter, queries, i + 1), QueriesFrom(hive, exclude, filter, queries, 0));
        acc := Then(acc, step);
        thrown := QueryOne(hive, queries[i]);
        if thrown.Some? {
          return;
        }
        i := i + 1;
      }
      LoopDone(acc, QueriesFrom(hive, exclude, filter, queries, 0));
      return Option.None;
    }

    /** `Export()`: the result list as the lines of a `.reg` file. */
    method Export() returns (lines: seq<string>)
      ensures lines == ExportLines(result)
    {
      lines := [];
      if |result| > 0 {
        lines := [Header];
        var keyName := "";
        for i := 0 to |result|
          invariant lines + ExportBody(result[i..], keyName) == [Header] + ExportBody(result, "")
        {
          var item := result[i];
          assert result[i..][1..] == result[i + 1..];
          if !IsBlank(item.KeyName) {
            if keyName != item.KeyName {
              keyName := item.KeyName;
              lines := lines + ["", Section(keyName)];
            }
            lines := lines + [ValueLine(item)];
          }
        }
        assert result[|result|..] == [];
        lines := lines + [""];
      }
    }

    /** The end of one iteration of `AddValueName`: the insertion, if any, and the result
        itself go to the new list; a failure is logged first and, unless recoverable,
        ends the loop before the result is kept. */
    method KeepItem(valueName: string, insertion: Result<Option<ResultItem>, Exception>, item: ResultItem, kept: seq<ResultItem>)
      returns (thrown: Option<Exception>, newResult: seq<ResultItem>)
      requires insertion.Err? ==> !IsBlank(item.KeyName)
      modifies this`error
      ensures newResult == kept + EnrichStep(valueName, insertion, item).results
      ensures error == old(error) + EnrichStep(valueName, insertion, item).errors
      ensures thrown == EnrichStep(valueName, insertion, item).thrown
    {
      thrown := Option.None;
      newResult := kept;
      match insertion {
        case Ok(None) =>
        case Ok(Some(r)) =>
          newResult := newResult + [r];
        case Err(e) =>
          thrown := LogFailure(item.KeyName, valueName, e);
      }
      if thrown.None? {
        newResult := newResult + [item];
      }
    }

    /** The start of one iteration of `AddValueName`: a result with a non-blank key name
        other than the remembered one starts a run, and its key is probed; a non-blank key
        name is remembered. `probes` are the probes of all results. */
    method SelectProbe(hive: Hive, valueName: string, items: seq<ResultItem>, i: nat, keyName: string,
                       ghost probes: seq<Result<Option<ResultItem>, Exception>>)
      returns (insertion: Result<Option<ResultItem>, Exception>, nextKeyName: string)
      requires !IsBlank(valueName) && i < |items| && ProbesOf(hive, valueName, items, probes)
      ensures insertion == Select(probes[i], keyName, items[i])
      ensures nextKeyName == NextKey(keyName, items[i])
    {
      var item := items[i];
      assert probes[i] == ProbeOf(hive, valueName, item);
      insertion := Ok(Option.None);
      nextKeyName := keyName;
      if !IsBlank(item.KeyName) {
        if keyName != item.KeyName {
          insertion := ProbeKey(hive, item.KeyName, valueName);
        }
        nextKeyName := item.KeyName;
      }
    }

    /** The loop of `AddValueName` over the result list `items`, whose probes are `probes`:
        the new list it builds, the errors it logs, and the exception that ends it early, if any. */
    method EnrichResults(hive: Hive, valueName: string, items: seq<ResultItem>, ghost probes: seq<Result<Option<ResultItem>, Exception>>)
      returns (thrown: Option<Exception>, newResult: seq<ResultItem>)
      requires !IsBlank(valueName) && ProbesOf(hive, valueName, items, probes)
      modifies this`error
      ensures var log := EnrichLoop(valueName, probes, items, 0, "");
              newResult == log.results && error == old(error) + log.errors && thrown == log.thrown
    {
      thrown := Option.None;
      ghost var e0 := error;
      ghost var acc := Quiet;
      LoopStart(EnrichLoop(valueName, probes, items, 0, ""));
      newResult := [];
      var keyName := "";
      var i := 0;
      while i < |items|
        invariant 0 <= i <= |items|
        invariant acc.thrown.None? && thrown.None?
        invariant Then(acc, EnrichLoop(valueName, probes, items, i, keyName)) == EnrichLoop(valueName, probes, items, 0, "")
        invariant newResult == acc.results && error == e0 + acc.errors
      {
        var insertion, nextKeyName := SelectProbe(hive, valueName, items, i, keyName, probes);
        ghost var step := EnrichStep(valueName, insertion, items[i]);
        EnrichLoopUnfolds(valueName, probes, items, i, keyName);
        LoopStep([], e0, acc, step, EnrichLoop(valueName, probes, items, i + 1, nextKeyName), EnrichLoop(valueName, probes, items, 0, ""));
        acc := Then(acc, step);
        thrown, newResult := KeepItem(valueName, insertion, items[i], newResult);
        if thrown.Some? {
          return;
        }
        keyName := nextKeyName;
        i := i + 1;
      }
      LoopDone(acc, EnrichLoop(valueName, probes, items, 0, ""));
    }

    /** `AddValueName(valueName)`: for the first result of every run with the same key
        name, the key's value `valueName` is inserted as a result before it. The list is
        replaced only when the loop completes. */
    method AddValueName(hive: Hive, valueName: string) returns (thrown: Option<Exception>)
      requires !IsBlank(valueName)
      requires Valid()
      modifies this`result, this`error
      ensures result == AddedValueName(hive, valueName, old(result))
      ensures error == old(error) + Enrichment(hive, valueName, old(result)).errors
      ensures thrown == Enrichment(hive, valueName, old(result)).thrown
      ensures Valid()
    {
      EnrichKeepsValid(valueName, Insertions(hive, valueName, result), result, 0);
      KeepValid([], error, Enrichment(hive, valueName, result));
      thrown := Option.None;
      var newResult: seq<ResultItem> := [];
      EnrichmentByLoop(hive, valueName, result);
      if |result| > 0 {
        thrown, newResult := EnrichResults(hive, valueName, result, Probes(hive, valueName, result));
        if thrown.Some? {
          return;
        }
      } else {
        assert Enrichment(hive, valueName, result) == Quiet;
      }
      result := newResult;
    }
  }
}
