/**
  The pre-order walk `QueryRegistry` performs, stated as functions: for each key, the
  results and errors it appends and the exception it lets escape. The engine's
  methods are proved to append exactly these; the lemmas here state what the walk
  promises — exclusion, filtering, validity of what is logged, and how a failure
  is logged and then either contained or propagated.
*/
module Traversal {
  import opened Wrappers
  import opened Strings
  import opened Registry
  import opened OpenRegistryKey
  import opened Records
  import opened ValueFormat

  /** What a part of the walk appends to the result list and to the error list, and
      the exception it lets escape (`None` when it completes). */
  datatype Log = Log(results: seq<ResultItem>, errors: seq<ErrorItem>, thrown: Option<Exception>)

  /** Appends nothing and completes. */
  const Quiet := Log([], [], Option.None)

  /** Appends nothing and throws `e`. */
  function Throw(e: Exception): (r: Log) {
    Log([], [], Some(e))
  }

  /** `a` followed by `b`; `b` does not run when `a` throws. */
  function Then(a: Log, b: Log): (c: Log)
    ensures a.thrown.Some? ==> c == a
    ensures a.thrown.None? ==> c.results == a.results + b.results && c.errors == a.errors + b.errors && c.thrown == b.thrown
  {
    if a.thrown.Some? then a else Log(a.results + b.results, a.errors + b.errors, b.thrown)
  }

  lemma ThenAssoc(a: Log, b: Log, c: Log)
    ensures Then(Then(a, b), c) == Then(a, Then(b, c))
  {
  }

  /** What the `ErrorItem` constructor throws when the name it is given is blank. */
  const ContractFailure := Exception(Other, "name cannot be null, empty or contain only white space", Option.None)

  /** A `catch` block: an `ErrorItem` for `name` below `keyName`, then a rethrow unless
      the exception is recoverable. A blank `name` makes the constructor itself throw. */
  function Catch(keyName: string, name: string, e: Exception): (log: Log)
    requires !IsBlank(keyName)
    ensures IsBlank(name) ==> log == Throw(ContractFailure)
    ensures !IsBlank(name) ==> log.results == [] && log.errors == [NewErrorItem(keyName, name, e)]
    ensures !IsBlank(name) ==> (log.thrown.None? <==> Recoverable(e)) && (log.thrown.Some? ==> log.thrown.value == e)
  {
    if IsBlank(name) then Throw(ContractFailure)
    else Log([], [NewErrorItem(keyName, name, e)], if Recoverable(e) then Option.None else Some(e))
  }

  /** A `try` around `inner` whose `catch` logs under `name`: what `inner` appended stays. */
  function Guard(keyName: string, name: string, inner: Log): (log: Log)
    requires !IsBlank(keyName)
    ensures inner.thrown.None? ==> log == inner
  {
    match inner.thrown
    case None => inner
    case Some(e) => Then(Log(inner.results, inner.errors, Option.None), Catch(keyName, name, e))
  }

  /** A guarded part that throws keeps what it appended, adds one error naming the
      guard, and rethrows exactly the exceptions that are not recoverable. */
  lemma GuardLogsOnce(keyName: string, name: string, inner: Log)
    requires !IsBlank(keyName) && !IsBlank(name) && inner.thrown.Some?
    ensures var log := Guard(keyName, name, inner);
            log.results == inner.results
            && log.errors == inner.errors + [NewErrorItem(keyName, name, inner.thrown.value)]
            && (log.thrown.None? <==> Recoverable(inner.thrown.value))
            && (log.thrown.Some? ==> log.thrown == inner.thrown)
  {
  }

  /** `List<FilterItem>.Find`: the first rule for `valueName`. */
  function FindFilter(filter: seq<FilterItem>, valueName: string): (r: Option<FilterItem>)
    ensures r.Some? <==> exists i :: 0 <= i < |filter| && filter[i].ValueName == valueName
    ensures r.Some? ==> exists i :: 0 <= i < |filter| && filter[i] == r.value
                                    && forall j :: 0 <= j < i ==> filter[j].ValueName != valueName
    decreases |filter|
  {
    if |filter| == 0 then Option.None
    else if filter[0].ValueName == valueName then Some(filter[0])
    else
      var r := FindFilter(filter[1..], valueName);
      assert r.Some? ==> exists i :: 0 <= i < |filter| && filter[i] == r.value
                                    && forall j :: 0 <= j < i ==> filter[j].ValueName != valueName by {
        if r.Some? {
          var i :| 0 <= i < |filter[1..]| && filter[1..][i] == r.value
                   && forall j :: 0 <= j < i ==> filter[1..][j].ValueName != valueName;
          assert filter[i + 1] == r.value;
        }
      }
      r
  }

  /** The allow-list: with no rules every value passes; otherwise a value passes only
      when the first rule for its name exists and has empty data. */
  predicate Admitted(filter: seq<FilterItem>, valueName: string) {
    |filter| == 0 || (FindFilter(filter, valueName).Some? && FindFilter(filter, valueName).value.ValueData == "")
  }

  /** The body of the `try` for one value of `QueryValues`: the result it adds, if any,
      or the exception it throws. The value is formatted before the rule's data is tested. */
  function ValueOutcome(filter: seq<FilterItem>, key: Key, valueName: string): (r: Result<Option<ResultItem>, Exception>)
    requires !IsBlank(key.name)
    ensures r.Ok? && r.value.Some? ==> Admitted(filter, valueName)
    ensures r.Ok? && r.value.Some? ==> FormatValueData(key, valueName).Ok?
                                       && r.value.value == NewResultItem(key.name, valueName, FormatValueData(key, valueName).value)
    ensures r.Err? ==> FormatValueData(key, valueName) == Err(r.error)
    ensures Admitted(filter, valueName) && FormatValueData(key, valueName).Ok? ==> r.Ok? && r.value.Some?
    ensures !Admitted(filter, valueName) && FindFilter(filter, valueName).None? ==> r == Ok(Option.None)
  {
    if |filter| > 0 then
      match FindFilter(filter, valueName)
      case None => Ok(Option.None)
      case Some(rule) =>
        match FormatValueData(key, valueName)
        case Err(e) => Err(e)
        case Ok(data) => if rule.ValueData == "" then Ok(Some(NewResultItem(key.name, valueName, data))) else Ok(Option.None)
    else
      match FormatValueData(key, valueName)
      case Err(e) => Err(e)
      case Ok(data) => Ok(Some(NewResultItem(key.name, valueName, data)))
  }

  /** One iteration of the value loop, `try` and `catch` together. */
  function ValueStep(filter: seq<FilterItem>, key: Key, valueName: string): (r: Log)
    requires !IsBlank(key.name)
  {
    match ValueOutcome(filter, key, valueName)
    case Ok(None) => Quiet
    case Ok(Some(item)) => Log([item], [], Option.None)
    case Err(e) => Catch(key.name, valueName, e)
  }

  /** The value loop of `QueryValues` from the `i`-th value name on. */
  function ValuesFrom(filter: seq<FilterItem>, key: Key, i: nat): (r: Log)
    requires !IsBlank(key.name) && i <= |key.values|
    decreases |key.values| - i
  {
    if i == |key.values| then Quiet
    else Then(ValueStep(filter, key, key.values[i].name), ValuesFrom(filter, key, i + 1))
  }

  /** `QueryValues(key)`: reading the value names can throw; then the loop. */
  function Values(filter: seq<FilterItem>, key: Key): (r: Log)
    requires !IsBlank(key.name)
  {
    match key.valueFailure
    case Some(e) => Throw(e)
    case None => ValuesFrom(filter, key, 0)
  }

  /** The label `QueryRegistryValues` logs under. */
  function ValuesLabel(): (text: string)
    ensures !IsBlank(text)
  {
    var text := "QueryRegistryValues(key);";
    assert !IsWhiteSpace(text[0]);
    text
  }

  /** `QueryRegistryValues(key)`: `QueryValues` guarded under its label. */
  function ValuesLog(filter: seq<FilterItem>, key: Key): (r: Log)
    requires !IsBlank(key.name)
  {
    Guard(key.name, ValuesLabel(), Values(filter, key))
  }

  /** One exclude item applies to a key of root `root` called `name`: same root, and the
      item's fragment occurs in the name. */
  predicate Excludes(item: QueryItem, root: RootKeyType, name: string) {
    item.RootKey == root && Contains(name, item.KeyName)
  }

  /** `KeyContainsExcludeItem(key)` on `key.Name`: with no exclude items, false; otherwise
      the key's root is classified (which throws for an unknown root) and the key is
      excluded when some item has that root and a `KeyName` that occurs in the name. */
  function Excluded(exclude: seq<QueryItem>, name: string): (r: Result<bool, Exception>)
    requires !IsBlank(name)
  {
    if |exclude| == 0 then Ok(false)
    else
      match GetRootKeyType(name)
      case Err(e) => Err(e)
      case Ok(root) => Ok(exists i :: 0 <= i < |exclude| && Excludes(exclude[i], root, name))
  }

  /** An exclude item with an empty `KeyName` excludes every key of its root, since the
      empty string occurs in every name. */
  lemma EmptyFragmentExcludesRoot(exclude: seq<QueryItem>, name: string, root: RootKeyType)
    requires QueryItem(root, "") in exclude
    requires StartsWith(name, LongName(root))
    ensures !IsBlank(name)
    ensures Excluded(exclude, name) == Ok(true)
  {
    LongNameClassifies(name, root);
    var i :| 0 <= i < |exclude| && exclude[i] == QueryItem(root, "");
    assert OccursAt(name, "", 0);
  }

  /** The label `QueryRegistrySubKeys` logs under. */
  function SubKeysLabel(): (text: string)
    ensures !IsBlank(text)
  {
    var text := "QueryRegistrySubKeys(key);";
    assert !IsWhiteSpace(text[0]);
    text
  }

  /** `QueryRegistry(key)`: nothing for an excluded key; otherwise its values, then its subkeys.
      An exception from the exclusion test escapes unlogged. */
  function Walk(exclude: seq<QueryItem>, filter: seq<FilterItem>, key: Key): (r: Log)
    requires !IsBlank(key.name)
    decreases key, 2, 0
  {
    match Excluded(exclude, key.name)
    case Err(e) => Throw(e)
    case Ok(true) => Quiet
    case Ok(false) => Then(ValuesLog(filter, key), SubKeysLog(exclude, filter, key))
  }

  /** `QueryRegistrySubKeys(key)`: reading the subkey names can throw; then the subkey
      loop; all guarded under its label. */
  function SubKeysLog(exclude: seq<QueryItem>, filter: seq<FilterItem>, key: Key): (r: Log)
    requires !IsBlank(key.name)
    decreases key, 1, 0
  {
    Guard(key.name, SubKeysLabel(),
      match key.subKeyFailure
      case Some(e) => Throw(e)
      case None => ChildrenFrom(exclude, filter, key, 0))
  }

  /** The subkey loop of `QuerySubKeys` from the `i`-th subkey name on. */
  function ChildrenFrom(exclude: seq<QueryItem>, filter: seq<FilterItem>, key: Key, i: nat): (r: Log)
    requires !IsBlank(key.name) && i <= |key.subKeys|
    decreases key, 0, |key.subKeys| - i
  {
    if i == |key.subKeys| then Quiet
    else Then(ChildStep(exclude, filter, key, i), ChildrenFrom(exclude, filter, key, i + 1))
  }

  /** One iteration of the subkey loop. Opening the subkey is outside the `try`, so its
      exception ends the loop; a missing subkey or one with a blank name is skipped;
      the walk of the subkey is guarded under the subkey's name. */
  function ChildStep(exclude: seq<QueryItem>, filter: seq<FilterItem>, key: Key, i: nat): (r: Log)
    requires !IsBlank(key.name) && i < |key.subKeys|
    decreases key, 0, 0
  {
    var sub := key.subKeys[i];
    match sub.open
    case Err(e) => Throw(e)
    case Ok(None) => Quiet
    case Ok(Some(child)) =>
      if IsBlank(child.name) then Quiet
      else Guard(key.name, sub.name, Walk(exclude, filter, child))
  }

  /** The label `Query(querys, exclude, filter)` logs a missing key under. */
  function QueryLabel(): (text: string)
    ensures !IsBlank(text)
  {
    var text := "Query(querys, exclude, filter);";
    assert !IsWhiteSpace(text[0]);
    text
  }

  /** The `ArgumentException` logged for a query item whose key does not exist. */
  function MissingKey(item: QueryItem): (r: Exception) {
    Exception(Other, "\"KeyName\"=" + item.KeyName + ", don't exist in \"RootKey\"=" + ShortName(item.RootKey), Option.None)
  }

  /** One query item of `Query(querys, exclude, filter)`: skipped when its name is blank;
      otherwise the key is opened below the root (an exception escapes), walked if it
      exists, and logged as missing if not. */
  function QueryStep(hive: Hive, exclude: seq<QueryItem>, filter: seq<FilterItem>, item: QueryItem): (r: Log) {
    if IsBlank(item.KeyName) then Quiet
    else
      match New(hive, item.RootKey, item.KeyName)
      case Err(e) => Throw(e)
      case Ok(found) =>
        if found.Some? && !IsBlank(found.value.name) then Walk(exclude, filter, found.value)
        else Log([], [NewErrorItem(item.KeyName, QueryLabel(), MissingKey(item))], Option.None)
  }

  /** The query loop from the `i`-th item on. */
  function QueriesFrom(hive: Hive, exclude: seq<QueryItem>, filter: seq<FilterItem>, queries: seq<QueryItem>, i: nat): (r: Log)
    requires i <= |queries|
    decreases |queries| - i
  {
    if i == |queries| then Quiet
    else Then(QueryStep(hive, exclude, filter, queries[i]), QueriesFrom(hive, exclude, filter, queries, i + 1))
  }

  // ---------------------------------------------------------------------------
  // One step of each loop, as the engine's methods take it

  /** Appending what `a` and then `b` log is appending what `a` logs, then what `b` logs. */
  lemma AppendThen(results: seq<ResultItem>, errors: seq<ErrorItem>, a: Log, b: Log)
    requires a.thrown.None?
    ensures results + Then(a, b).results == (results + a.results) + b.results
    ensures errors + Then(a, b).errors == (errors + a.errors) + b.errors
  {
  }

  /** Appending a log that holds no items leaves both lists as they were. */
  lemma AppendNothing(results: seq<ResultItem>, errors: seq<ErrorItem>, log: Log)
    requires log.results == [] && log.errors == []
    ensures results + log.results == results && errors + log.errors == errors
  {
  }

  /** A loop that has done nothing yet has all of its work left. */
  lemma LoopStart(total: Log)
    ensures Then(Quiet, total) == total
  {
    assert [] + total.results == total.results && [] + total.errors == total.errors;
  }

  /** One iteration of a loop whose remaining work is `Then(step, rest)`: the step joins
      what is done; when the step throws, what is done is the whole loop. */
  lemma LoopStep(results: seq<ResultItem>, errors: seq<ErrorItem>, done: Log, step: Log, rest: Log, total: Log)
    requires done.thrown.None? && Then(done, Then(step, rest)) == total
    ensures Then(Then(done, step), rest) == total
    ensures results + Then(done, step).results == (results + done.results) + step.results
    ensures errors + Then(done, step).errors == (errors + done.errors) + step.errors
    ensures Then(done, step).thrown == step.thrown
    ensures step.thrown.Some? ==> Then(done, step) == total
  {
    ThenAssoc(done, step, rest);
  }

  /** A loop with no work left has done all of it. */
  lemma LoopDone(done: Log, total: Log)
    requires done.thrown.None? && Then(done, Quiet) == total
    ensures done == total
  {
    assert done.results + [] == done.results && done.errors + [] == done.errors;
  }

  /** Appending what a guarded part that threw logs is appending what the part logged,
      then what the `catch` logs. */
  lemma AppendGuard(results: seq<ResultItem>, errors: seq<ErrorItem>, keyName: string, name: string, inner: Log)
    requires !IsBlank(keyName) && inner.thrown.Some?
    ensures results + Guard(keyName, name, inner).results == (results + inner.results) + Catch(keyName, name, inner.thrown.value).results
    ensures errors + Guard(keyName, name, inner).errors == (errors + inner.errors) + Catch(keyName, name, inner.thrown.value).errors
    ensures Guard(keyName, name, inner).thrown == Catch(keyName, name, inner.thrown.value).thrown
  {
  }

  lemma WalkUnfolds(exclude: seq<QueryItem>, filter: seq<FilterItem>, key: Key)
    requires !IsBlank(key.name)
    ensures Excluded(exclude, key.name).Err? ==> Walk(exclude, filter, key) == Throw(Excluded(exclude, key.name).error)
    ensures Excluded(exclude, key.name) == Ok(true) ==> Walk(exclude, filter, key) == Quiet
    ensures Excluded(exclude, key.name) == Ok(false) ==>
              Walk(exclude, filter, key) == Then(ValuesLog(filter, key), SubKeysLog(exclude, filter, key))
  {
  }

  lemma ChildStepWalks(exclude: seq<QueryItem>, filter: seq<FilterItem>, key: Key, i: nat, child: Key)
    requires !IsBlank(key.name) && i < |key.subKeys|
    requires key.subKeys[i].open == Ok(Some(child)) && !IsBlank(child.name)
    ensures ChildStep(exclude, filter, key, i) == Guard(key.name, key.subKeys[i].name, Walk(exclude, filter, child))
  {
  }

  lemma ValuesFromUnfolds(filter: seq<FilterItem>, key: Key, i: nat)
    requires !IsBlank(key.name) && i < |key.values|
    ensures ValuesFrom(filter, key, i) == Then(ValueStep(filter, key, key.values[i].name), ValuesFrom(filter, key, i + 1))
  {
  }

  lemma ChildrenFromUnfolds(exclude: seq<QueryItem>, filter: seq<FilterItem>, key: Key, i: nat)
    requires !IsBlank(key.name) && i < |key.subKeys|
    ensures ChildrenFrom(exclude, filter, key, i) == Then(ChildStep(exclude, filter, key, i), ChildrenFrom(exclude, filter, key, i + 1))
  {
  }

  lemma QueriesFromUnfolds(hive: Hive, exclude: seq<QueryItem>, filter: seq<FilterItem>, queries: seq<QueryItem>, i: nat)
    requires i < |queries|
    ensures QueriesFrom(hive, exclude, filter, queries, i) == Then(QueryStep(hive, exclude, filter, queries[i]), QueriesFrom(hive, exclude, filter, queries, i + 1))
  {
  }

  // ---------------------------------------------------------------------------
  // What the walk logs

  /** Every result is valid, admitted by the filter and belongs to a key the exclusion
      test let through; every error is valid. */
  predicate Sound(exclude: seq<QueryItem>, filter: seq<FilterItem>, log: Log) {
    && (forall i :: 0 <= i < |log.results| ==>
          log.results[i].Valid() && Admitted(filter, log.results[i].ValueName)
          && Excluded(exclude, log.results[i].KeyName) == Ok(false))
    && (forall i :: 0 <= i < |log.errors| ==> log.errors[i].Valid())
  }

  lemma SoundThen(exclude: seq<QueryItem>, filter: seq<FilterItem>, a: Log, b: Log)
    requires Sound(exclude, filter, a) && Sound(exclude, filter, b)
    ensures Sound(exclude, filter, Then(a, b))
  {
    var c := Then(a, b);
    if a.thrown.None? {
      assert forall i :: |a.results| <= i < |c.results| ==> c.results[i] == b.results[i - |a.results|];
      assert forall i :: |a.errors| <= i < |c.errors| ==> c.errors[i] == b.errors[i - |a.errors|];
    }
  }

  lemma SoundGuard(exclude: seq<QueryItem>, filter: seq<FilterItem>, keyName: string, name: string, inner: Log)
    requires !IsBlank(keyName) && Sound(exclude, filter, inner)
    ensures Sound(exclude, filter, Guard(keyName, name, inner))
  {
    if inner.thrown.Some? {
      SoundThen(exclude, filter, Log(inner.results, inner.errors, Option.None), Catch(keyName, name, inner.thrown.value));
    }
  }

  /** The value loop of a key the exclusion test let through logs only sound items. */
  lemma {:induction false} ValuesFromSound(exclude: seq<QueryItem>, filter: seq<FilterItem>, key: Key, i: nat)
    requires !IsBlank(key.name) && i <= |key.values|
    requires Excluded(exclude, key.name) == Ok(false)
    ensures Sound(exclude, filter, ValuesFrom(filter, key, i))
    decreases |key.values| - i
  {
    if i < |key.values| {
      ValuesFromSound(exclude, filter, key, i + 1);
      SoundThen(exclude, filter, ValueStep(filter, key, key.values[i].name), ValuesFrom(filter, key, i + 1));
    }
  }

  lemma ValuesLogSound(exclude: seq<QueryItem>, filter: seq<FilterItem>, key: Key)
    requires !IsBlank(key.name)
    requires Excluded(exclude, key.name) == Ok(false)
    ensures Sound(exclude, filter, ValuesLog(filter, key))
  {
    if key.valueFailure.None? {
      ValuesFromSound(exclude, filter, key, 0);
    }
    SoundGuard(exclude, filter, key.name, ValuesLabel(), Values(filter, key));
  }

  /** The whole walk below a key logs only sound items: nothing from an excluded key,
      nothing the filter rejects, no invalid record. */
  lemma {:induction false} WalkSound(exclude: seq<QueryItem>, filter: seq<FilterItem>, key: Key)
    requires !IsBlank(key.name)
    ensures Sound(exclude, filter, Walk(exclude, filter, key))
    decreases key, 2, 0
  {
    if Excluded(exclude, key.name) == Ok(false) {
      ValuesLogSound(exclude, filter, key);
      SubKeysSound(exclude, filter, key);
      SoundThen(exclude, filter, ValuesLog(filter, key), SubKeysLog(exclude, filter, key));
    }
  }

  lemma {:induction false} SubKeysSound(exclude: seq<QueryItem>, filter: seq<FilterItem>, key: Key)
    requires !IsBlank(key.name)
    ensures Sound(exclude, filter, SubKeysLog(exclude, filter, key))
    decreases key, 1, 0
  {
    if key.subKeyFailure.None? {
      ChildrenSound(exclude, filter, key, 0);
    }
    SoundGuard(exclude, filter, key.name, SubKeysLabel(),
      match key.subKeyFailure
      case Some(e) => Throw(e)
      case None => ChildrenFrom(exclude, filter, key, 0));
  }

  lemma {:induction false} ChildrenSound(exclude: seq<QueryItem>, filter: seq<FilterItem>, key: Key, i: nat)
    requires !IsBlank(key.name) && i <= |key.subKeys|
    ensures Sound(exclude, filter, ChildrenFrom(exclude, filter, key, i))
    decreases key, 0, |key.subKeys| - i
  {
    if i < |key.subKeys| {
      ChildSound(exclude, filter, key, i);
      ChildrenSound(exclude, filter, key, i + 1);
      SoundThen(exclude, filter, ChildStep(exclude, filter, key, i), ChildrenFrom(exclude, filter, key, i + 1));
    }
  }

  lemma {:induction false} ChildSound(exclude: seq<QueryItem>, filter: seq<FilterItem>, key: Key, i: nat)
    requires !IsBlank(key.name) && i < |key.subKeys|
    ensures Sound(exclude, filter, ChildStep(exclude, filter, key, i))
    decreases key, 0, 0
  {
    var sub := key.subKeys[i];
    if sub.open.Ok? && sub.open.value.Some? && !IsBlank(sub.open.value.value.name) {
      var child := sub.open.value.value;
      WalkSound(exclude, filter, child);
      SoundGuard(exclude, filter, key.name, sub.name, Walk(exclude, filter, child));
    }
  }

  /** Nothing is logged for an excluded key, and so for none of its descendants. */
  lemma ExcludedKeyIsQuiet(exclude: seq<QueryItem>, filter: seq<FilterItem>, key: Key)
    requires !IsBlank(key.name)
    requires Excluded(exclude, key.name) == Ok(true)
    ensures Walk(exclude, filter, key) == Quiet
  {
  }

  /** The result the value loop adds for one value when there are no filter rules and the value formats. */
  lemma ValueListed(key: Key, valueName: string)
    requires !IsBlank(key.name)
    requires FormatValueData(key, valueName).Ok?
    ensures ValueStep([], key, valueName) == Log([NewResultItem(key.name, valueName, FormatValueData(key, valueName).value)], [], Option.None)
  {
  }

  /** Every value of a key from the `i`-th on that formats, as a result of the key, in order. */
  function Listing(key: Key, i: nat): (r: seq<ResultItem>)
    requires !IsBlank(key.name) && i <= |key.values|
    decreases |key.values| - i
  {
    if i == |key.values| then []
    else
      match FormatValueData(key, key.values[i].name)
      case Ok(data) => [NewResultItem(key.name, key.values[i].name, data)] + Listing(key, i + 1)
      case Err(_) => Listing(key, i + 1)
  }

  /** With no filter rules, a value loop that completes lists every value that formats,
      in order: the values that fail were logged and skipped. */
  lemma {:induction false} AllValuesListed(key: Key, i: nat)
    requires !IsBlank(key.name) && i <= |key.values|
    requires ValuesFrom([], key, i).thrown.None?
    ensures ValuesFrom([], key, i).results == Listing(key, i)
    decreases |key.values| - i
  {
    if i < |key.values| {
      var name := key.values[i].name;
      var step := ValueStep([], key, name);
      var rest := ValuesFrom([], key, i + 1);
      assert ValuesFrom([], key, i) == Then(step, rest);
      AllValuesListed(key, i + 1);
      match FormatValueData(key, name)
      case Ok(data) =>
        ValueListed(key, name);
      case Err(e) =>
        assert step.results == [];
    }
  }

  /** A recoverable failure while handling one value adds exactly one error, naming the
      value, and the loop goes on with the next value. */
  lemma ValueFailureContained(filter: seq<FilterItem>, key: Key, i: nat, e: Exception)
    requires !IsBlank(key.name) && i < |key.values|
    requires !IsBlank(key.values[i].name)
    requires ValueOutcome(filter, key, key.values[i].name) == Err(e) && Recoverable(e)
    ensures var rest := ValuesFrom(filter, key, i + 1);
            ValuesFrom(filter, key, i) == Log(rest.results, [NewErrorItem(key.name, key.values[i].name, e)] + rest.errors, rest.thrown)
  {
  }

  /** Any other failure while handling one value adds its error and ends the loop with that exception. */
  lemma ValueFailurePropagates(filter: seq<FilterItem>, key: Key, i: nat, e: Exception)
    requires !IsBlank(key.name) && i < |key.values|
    requires !IsBlank(key.values[i].name)
    requires ValueOutcome(filter, key, key.values[i].name) == Err(e) && !Recoverable(e)
    ensures ValuesFrom(filter, key, i) == Log([], [NewErrorItem(key.name, key.values[i].name, e)], Some(e))
  {
  }

  /** A failure of the default value (the one with the empty name) cannot be logged: the
      `ErrorItem` constructor rejects the blank name, and that rejection ends the loop. */
  lemma DefaultValueFailureEscapes(filter: seq<FilterItem>, key: Key, i: nat, e: Exception)
    requires !IsBlank(key.name) && i < |key.values|
    requires key.values[i].name == ""
    requires ValueOutcome(filter, key, "") == Err(e)
    ensures ValuesFrom(filter, key, i) == Throw(ContractFailure)
  {
  }

  /** So only exceptions that are not recoverable escape the walk of a key: the exclusion
      test throws `ArgumentException`, and both halves of the walk are guarded. */
  lemma WalkEscapesUnrecoverable(exclude: seq<QueryItem>, filter: seq<FilterItem>, key: Key)
    requires !IsBlank(key.name)
    ensures var w := Walk(exclude, filter, key);
            w.thrown.Some? ==> !Recoverable(w.thrown.value)
  {
    ExclusionFailureUnrecoverable(exclude, key.name);
    GuardEscapesUnrecoverable(key.name, ValuesLabel(), Values(filter, key));
    GuardEscapesUnrecoverable(key.name, SubKeysLabel(),
      match key.subKeyFailure
      case Some(e) => Throw(e)
      case None => ChildrenFrom(exclude, filter, key, 0));
  }

  /** The exclusion test fails only with the `ArgumentException` of an unknown root. */
  lemma ExclusionFailureUnrecoverable(exclude: seq<QueryItem>, name: string)
    requires !IsBlank(name)
    ensures Excluded(exclude, name).Err? ==> !Recoverable(Excluded(exclude, name).error)
  {
    if |exclude| > 0 {
      GetRootKeyTypeFirstMatch(name);
    }
  }

  /** A guarded part only ever lets an exception escape that is not recoverable: a
      recoverable one is logged and swallowed, and a blank label makes the `catch` block
      throw the contract failure instead. */
  lemma GuardEscapesUnrecoverable(keyName: string, name: string, inner: Log)
    requires !IsBlank(keyName)
    ensures var log := Guard(keyName, name, inner);
            log.thrown.Some? ==> !Recoverable(log.thrown.value)
  {
    if inner.thrown.Some? && !IsBlank(name) {
      GuardLogsOnce(keyName, name, inner);
    }
  }

  /** What one query item logs: nothing for a blank key name; exactly the walk of a key
      that opens; for a key that does not exist, no result and one error naming the item,
      and the loop goes on; a failure to open the key escapes unlogged. */
  lemma QueryStepLogs(hive: Hive, exclude: seq<QueryItem>, filter: seq<FilterItem>, item: QueryItem)
    ensures IsBlank(item.KeyName) ==> QueryStep(hive, exclude, filter, item) == Quiet
    ensures var found := New(hive, item.RootKey, item.KeyName);
            var step := QueryStep(hive, exclude, filter, item);
            && (!IsBlank(item.KeyName) && found.Err? ==> step == Throw(found.error))
            && (!IsBlank(item.KeyName) && found.Ok? && found.value.Some? && !IsBlank(found.value.value.name) ==>
                  step == Walk(exclude, filter, found.value.value))
            && (!IsBlank(item.KeyName) && found.Ok? && (found.value.None? || IsBlank(found.value.value.name)) ==>
                  step.results == [] && step.thrown.None? && |step.errors| == 1
                  && step.errors[0].KeyName == item.KeyName && step.errors[0].Name == QueryLabel()
                  && StartsWith(step.errors[0].Error, MissingKey(item).message))
  {
  }

  /** One query item logs only sound items. */
  lemma QueryStepSound(hive: Hive, exclude: seq<QueryItem>, filter: seq<FilterItem>, item: QueryItem)
    ensures Sound(exclude, filter, QueryStep(hive, exclude, filter, item))
  {
    if !IsBlank(item.KeyName) {
      var found := New(hive, item.RootKey, item.KeyName);
      if found.Ok? && found.value.Some? && !IsBlank(found.value.value.name) {
        WalkSound(exclude, filter, found.value.value);
      }
    }
  }

  /** The query loop logs only sound items: every result is valid, admitted by the filter
      and from a key the exclusion test let through, and every error is valid. */
  lemma {:induction false} QueriesSound(hive: Hive, exclude: seq<QueryItem>, filter: seq<FilterItem>, queries: seq<QueryItem>, i: nat)
    requires i <= |queries|
    ensures Sound(exclude, filter, QueriesFrom(hive, exclude, filter, queries, i))
    decreases |queries| - i
  {
    if i < |queries| {
      QueriesSound(hive, exclude, filter, queries, i + 1);
      QueryStepSound(hive, exclude, filter, queries[i]);
      SoundThen(exclude, filter, QueryStep(hive, exclude, filter, queries[i]), QueriesFrom(hive, exclude, filter, queries, i + 1));
    }
  }

  /** The query loop has no `catch`: an exception from one query item ends the loop, and
      the items after it are not queried. */
  lemma QueryFailureEndsLoop(hive: Hive, exclude: seq<QueryItem>, filter: seq<FilterItem>, queries: seq<QueryItem>, i: nat)
    requires i < |queries|
    requires QueryStep(hive, exclude, filter, queries[i]).thrown.Some?
    ensures QueriesFrom(hive, exclude, filter, queries, i) == QueryStep(hive, exclude, filter, queries[i])
  {
  }

  /** A completed query loop appends each item's log in turn: the first item's, then the rest's. */
  lemma QueriesInOrder(hive: Hive, exclude: seq<QueryItem>, filter: seq<FilterItem>, queries: seq<QueryItem>, i: nat)
    requires i < |queries|
    requires QueryStep(hive, exclude, filter, queries[i]).thrown.None?
    ensures var step := QueryStep(hive, exclude, filter, queries[i]);
            var rest := QueriesFrom(hive, exclude, filter, queries, i + 1);
            QueriesFrom(hive, exclude, filter, queries, i) == Log(step.results + rest.results, step.errors + rest.errors, rest.thrown)
  {
  }

  /** The walk below a subkey that throws is logged under the subkey's name after what it
      logged, and the exception ends the subkey loop: later siblings are not visited. */
  lemma ChildFailureEndsLoop(exclude: seq<QueryItem>, filter: seq<FilterItem>, key: Key, i: nat, child: Key)
    requires !IsBlank(key.name) && i < |key.subKeys|
    requires key.subKeys[i].open == Ok(Some(child)) && !IsBlank(child.name) && !IsBlank(key.subKeys[i].name)
    requires Walk(exclude, filter, child).thrown.Some?
    ensures var w := Walk(exclude, filter, child);
            ChildrenFrom(exclude, filter, key, i) ==
              Log(w.results, w.errors + [NewErrorItem(key.name, key.subKeys[i].name, w.thrown.value)], w.thrown)
  {
    WalkEscapesUnrecoverable(exclude, filter, child);
  }

  /** A subkey that cannot be opened ends the subkey loop: the siblings after it are not visited. */
  lemma OpenFailureEndsLoop(exclude: seq<QueryItem>, filter: seq<FilterItem>, key: Key, i: nat, e: Exception)
    requires !IsBlank(key.name) && i < |key.subKeys|
    requires key.subKeys[i].open == Err(e)
    ensures ChildrenFrom(exclude, filter, key, i) == Throw(e)
  {
  }

  /** A recoverable failure to list a key's subkeys is logged once under `QueryRegistrySubKeys`
      and the walk goes on past the key. */
  lemma SubKeyListFailureContained(exclude: seq<QueryItem>, filter: seq<FilterItem>, key: Key, e: Exception)
    requires !IsBlank(key.name)
    requires key.subKeyFailure == Some(e) && Recoverable(e)
    ensures SubKeysLog(exclude, filter, key) == Log([], [NewErrorItem(key.name, SubKeysLabel(), e)], Option.None)
  {
  }

  /** `log` ends as `tail` does: the same exception, and `tail`'s results and errors last. */
  predicate EndsWith(log: Log, tail: Log) {
    && log.thrown == tail.thrown
    && |tail.results| <= |log.results| && log.results[|log.results| - |tail.results|..] == tail.results
    && |tail.errors| <= |log.errors| && log.errors[|log.errors| - |tail.errors|..] == tail.errors
  }

  lemma ThenEndsWith(a: Log, b: Log, tail: Log)
    requires a.thrown.None? && EndsWith(b, tail)
    ensures EndsWith(Then(a, b), tail)
  {
    var c := Then(a, b);
    assert c.results[|c.results| - |tail.results|..] == b.results[|b.results| - |tail.results|..];
    assert c.errors[|c.errors| - |tail.errors|..] == b.errors[|b.errors| - |tail.errors|..];
  }

  /** When every subkey step from `k` up to `i` completes and step `i` throws, the subkey
      loop from `k` ends as step `i` does. */
  lemma {:induction false} LoopEndsAtFailure(exclude: seq<QueryItem>, filter: seq<FilterItem>, key: Key, k: nat, i: nat)
    requires !IsBlank(key.name) && k <= i < |key.subKeys|
    requires forall j :: k <= j < i ==> ChildStep(exclude, filter, key, j).thrown.None?
    requires ChildStep(exclude, filter, key, i).thrown.Some?
    ensures EndsWith(ChildrenFrom(exclude, filter, key, k), ChildStep(exclude, filter, key, i))
    decreases i - k
  {
    ChildrenFromUnfolds(exclude, filter, key, k);
    if k < i {
      LoopEndsAtFailure(exclude, filter, key, k + 1, i);
      ThenEndsWith(ChildStep(exclude, filter, key, k), ChildrenFrom(exclude, filter, key, k + 1), ChildStep(exclude, filter, key, i));
    } else {
      var c := ChildrenFrom(exclude, filter, key, k);
      assert c.results[|c.results| - |c.results|..] == c.results;
      assert c.errors[|c.errors| - |c.errors|..] == c.errors;
    }
  }

  /** A subkey whose walk throws, reached because every sibling before it completed: the
      subkey loop ends with that walk's log, its error under the subkey's name, and its
      exception. */
  lemma ChildFailureFrom(exclude: seq<QueryItem>, filter: seq<FilterItem>, key: Key, i: nat, child: Key)
    requires !IsBlank(key.name) && i < |key.subKeys|
    requires key.subKeys[i].open == Ok(Some(child)) && !IsBlank(child.name) && !IsBlank(key.subKeys[i].name)
    requires forall j :: 0 <= j < i ==> ChildStep(exclude, filter, key, j).thrown.None?
    requires Walk(exclude, filter, child).thrown.Some?
    ensures var w := Walk(exclude, filter, child);
            EndsWith(ChildrenFrom(exclude, filter, key, 0),
                     Log(w.results, w.errors + [NewErrorItem(key.name, key.subKeys[i].name, w.thrown.value)], w.thrown))
  {
    ChildFailureEndsLoop(exclude, filter, key, i, child);
    ChildrenFromUnfolds(exclude, filter, key, i);
    LoopEndsAtFailure(exclude, filter, key, 0, i);
  }

  /** The catch around a loop that ends with `tail` and an exception that is not recoverable:
      the guarded log ends with `tail` and one more error for that exception. */
  lemma GuardEndsWith(keyName: string, name: string, inner: Log, tail: Log)
    requires !IsBlank(keyName) && !IsBlank(name) && inner.thrown.Some? && !Recoverable(inner.thrown.value)
    requires EndsWith(inner, tail)
    ensures EndsWith(Guard(keyName, name, inner), Log(tail.results, tail.errors + [NewErrorItem(keyName, name, inner.thrown.value)], tail.thrown))
  {
    var log := Guard(keyName, name, inner);
    GuardLogsOnce(keyName, name, inner);
    assert log.errors[|log.errors| - (|tail.errors| + 1)..] == inner.errors[|inner.errors| - |tail.errors|..] + [NewErrorItem(keyName, name, inner.thrown.value)];
  }

  /** An exception from the walk of a subkey, reached because every sibling before it
      completed, is logged twice: under the subkey's name by the per-subkey catch, then under
      the `QueryRegistrySubKeys` label by the catch around the loop; and it escapes the parent.
      The parent's subkey log thus ends with the walk's results and errors and those two errors. */
  lemma FailureLoggedAtEachLevel(exclude: seq<QueryItem>, filter: seq<FilterItem>, key: Key, i: nat, child: Key)
    requires !IsBlank(key.name) && key.subKeyFailure.None? && i < |key.subKeys|
    requires key.subKeys[i].open == Ok(Some(child)) && !IsBlank(child.name) && !IsBlank(key.subKeys[i].name)
    requires forall j :: 0 <= j < i ==> ChildStep(exclude, filter, key, j).thrown.None?
    requires Walk(exclude, filter, child).thrown.Some?
    ensures var w := Walk(exclude, filter, child);
            var e := w.thrown.value;
            EndsWith(SubKeysLog(exclude, filter, key),
                     Log(w.results, w.errors + [NewErrorItem(key.name, key.subKeys[i].name, e), NewErrorItem(key.name, SubKeysLabel(), e)], w.thrown))
  {
    var w := Walk(exclude, filter, child);
    var e := w.thrown.value;
    var tail := Log(w.results, w.errors + [NewErrorItem(key.name, key.subKeys[i].name, e)], w.thrown);
    ChildFailureFrom(exclude, filter, key, i, child);
    WalkEscapesUnrecoverable(exclude, filter, child);
    GuardEndsWith(key.name, SubKeysLabel(), ChildrenFrom(exclude, filter, key, 0), tail);
    assert tail.errors + [NewErrorItem(key.name, SubKeysLabel(), e)]
        == w.errors + [NewErrorItem(key.name, key.subKeys[i].name, e), NewErrorItem(key.name, SubKeysLabel(), e)];
  }
}
