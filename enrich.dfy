/**
  `AddValueName(valueName)`: for the first result of every run of results with the
  same key name, the key is opened again from its name and, when it holds a non-empty
  value called `valueName`, a result for that value is inserted before the run.
  The specification is a function of the result list; the engine's method is proved
  to compute it.
*/
module Enrich {
  import opened Wrappers
  import opened Strings
  import opened Registry
  import opened OpenRegistryKey
  import opened Records
  import opened ValueFormat
  import opened Traversal

  /** What `OpenRegistryKey.New(rootKey, keyName)` throws for a blank root name. */
  const BlankRootKey := Exception(Other, "rootKey cannot be null, empty or contain only white space", Option.None)

  /** The value `valueName` of an opened key as a result for `keyName`: none when the key
      has no such value or its rendering is empty. */
  function ValueResult(key: Key, keyName: string, valueName: string): (r: Result<Option<ResultItem>, Exception>)
    requires !IsBlank(keyName) && !IsBlank(valueName)
    ensures r.Ok? && r.value.Some? ==> HasValueName(key, valueName) == Ok(true)
                                       && FormatValueData(key, valueName) == Ok(r.value.value.ValueData)
                                       && r.value.value == NewResultItem(keyName, valueName, r.value.value.ValueData)
                                       && r.value.value.ValueData != ""
    ensures HasValueName(key, valueName) == Ok(false) ==> r == Ok(Option.None)
    ensures HasValueName(key, valueName) == Ok(true) && FormatValueData(key, valueName).Ok?
            && FormatValueData(key, valueName).value != "" ==>
              r == Ok(Some(NewResultItem(keyName, valueName, FormatValueData(key, valueName).value)))
  {
    match HasValueName(key, valueName)
    case Err(e) => Err(e)
    case Ok(false) => Ok(Option.None)
    case Ok(true) =>
      match FormatValueData(key, valueName)
      case Err(e) => Err(e)
      case Ok(data) => if data == "" then Ok(Option.None) else Ok(Some(NewResultItem(keyName, valueName, data)))
  }

  /** The `try` body for a result that starts a run: the key name is split at its first
      backslash into a root name and a path; the key is opened; its value becomes a result. */
  function ProbeKey(hive: Hive, keyName: string, valueName: string): (r: Result<Option<ResultItem>, Exception>)
    requires !IsBlank(keyName) && !IsBlank(valueName)
    ensures IndexOf(keyName, '\\') <= 0 ==> r == Ok(Option.None)
    ensures r.Ok? && r.value.Some? ==> r.value.value.KeyName == keyName && r.value.value.ValueName == valueName
                                       && r.value.value.ValueData != "" && r.value.value.Valid()
  {
    var split := IndexOf(keyName, '\\');
    if split <= 0 then Ok(Option.None)
    else
      var rootKey := keyName[..split];
      var path := keyName[split + 1..];
      if IsBlank(rootKey) then Err(BlankRootKey)
      else
        match NewByName(hive, rootKey, path)
        case Err(e) => Err(e)
        case Ok(found) =>
          if found.None? || IsBlank(found.value.name) then Ok(Option.None)
          else ValueResult(found.value, keyName, valueName)
  }

  /** Splitting a key name undoes the join of a root name and a path: the probe opens
      `path` below the root that `rootKey` names. */
  lemma ProbeSplitsKeyName(hive: Hive, rootKey: string, path: string, valueName: string)
    requires !IsBlank(rootKey) && '\\' !in rootKey && !IsBlank(valueName)
    ensures !IsBlank(rootKey + "\\" + path)
    ensures ProbeKey(hive, rootKey + "\\" + path, valueName) ==
      match NewByName(hive, rootKey, path)
      case Err(e) => Err(e)
      case Ok(found) =>
        if found.None? || IsBlank(found.value.name) then Ok(Option.None)
        else ValueResult(found.value, rootKey + "\\" + path, valueName)
  {
    var keyName := rootKey + "\\" + path;
    assert keyName[|rootKey|] == '\\';
    assert keyName[..|rootKey|] == rootKey;
    assert keyName[|rootKey| + 1..] == path;
    assert !IsBlank(keyName) by {
      var j :| 0 <= j < |rootKey| && !IsWhiteSpace(rootKey[j]);
      assert keyName[j] == rootKey[j];
    }
    assert IndexOf(keyName, '\\') == |rootKey|;
  }

  lemma LongNameHasNoBackslash(root: RootKeyType)
    ensures '\\' !in LongName(root)
  {
    var name := LongName(root);
    forall j | 0 <= j < |name|
      ensures name[j] != '\\'
    {
      assert 'A' <= name[j] <= 'Z' || name[j] == '_';
    }
  }

  /** A key named by a root's long name and a path is probed under that root. */
  lemma ProbeByLongName(hive: Hive, root: RootKeyType, path: string, valueName: string)
    requires !IsBlank(valueName)
    ensures !IsBlank(LongName(root) + "\\" + path)
    ensures ProbeKey(hive, LongName(root) + "\\" + path, valueName) ==
      match New(hive, root, path)
      case Err(e) => Err(e)
      case Ok(found) =>
        if found.None? || IsBlank(found.value.name) then Ok(Option.None)
        else ValueResult(found.value, LongName(root) + "\\" + path, valueName)
  {
    NewByEitherName(hive, root, path);
    LongNameHasNoBackslash(root);
    ProbeSplitsKeyName(hive, LongName(root), path, valueName);
  }

  /** The key name the loop remembers after looking at `item`: the item's own key name
      unless that is blank. */
  function NextKey(keyName: string, item: ResultItem): (k: string)
    ensures !IsBlank(item.KeyName) ==> k == item.KeyName
    ensures IsBlank(item.KeyName) ==> k == keyName
  {
    if IsBlank(item.KeyName) then keyName else item.KeyName
  }

  /** The probe the loop makes for `item` when the item starts a run: none for a blank key name. */
  function ProbeOf(hive: Hive, valueName: string, item: ResultItem): (r: Result<Option<ResultItem>, Exception>)
    requires !IsBlank(valueName)
    ensures r != Ok(Option.None) ==> !IsBlank(item.KeyName)
    ensures r.Ok? && r.value.Some? ==> r.value.value.KeyName == item.KeyName && r.value.value.ValueName == valueName
                                       && r.value.value.ValueData != "" && r.value.value.Valid()
  {
    if IsBlank(item.KeyName) then Ok(Option.None) else ProbeKey(hive, item.KeyName, valueName)
  }

  /** The probe of every result, in list order, whether or not the result starts a run. */
  function Probes(hive: Hive, valueName: string, items: seq<ResultItem>): (r: seq<Result<Option<ResultItem>, Exception>>)
    requires !IsBlank(valueName)
    ensures |r| == |items|
    ensures forall k {:trigger r[k]} :: 0 <= k < |items| ==> r[k] == ProbeOf(hive, valueName, items[k])
  {
    seq(|items|, k requires 0 <= k < |items| => ProbeOf(hive, valueName, items[k]))
  }

  /** `probes` are the probes of `items`, one per result. */
  predicate ProbesOf(hive: Hive, valueName: string, items: seq<ResultItem>, probes: seq<Result<Option<ResultItem>, Exception>>)
    requires !IsBlank(valueName)
  {
    && |probes| == |items|
    && forall k {:trigger ProbeOf(hive, valueName, items[k])} :: 0 <= k < |items| ==> probes[k] == ProbeOf(hive, valueName, items[k])
  }

  /** What the loop inserts before `item` when it remembers `keyName`: nothing unless the
      item has a non-blank key name other than `keyName`, otherwise the item's probe. */
  function Select(probe: Result<Option<ResultItem>, Exception>, keyName: string, item: ResultItem): (r: Result<Option<ResultItem>, Exception>)
    ensures r != Ok(Option.None) ==> !IsBlank(item.KeyName) && item.KeyName != keyName && r == probe
    ensures !IsBlank(item.KeyName) && item.KeyName != keyName ==> r == probe
  {
    if IsBlank(item.KeyName) || item.KeyName == keyName then Ok(Option.None) else probe
  }

  /** The key name the loop remembers before the `i`-th result: the last non-blank key
      name so far, empty at the start. */
  function RunningKey(items: seq<ResultItem>, i: nat): (k: string)
    requires i <= |items|
    ensures k == "" || exists j :: 0 <= j < i && items[j].KeyName == k && !IsBlank(k)
  {
    if i == 0 then "" else NextKey(RunningKey(items, i - 1), items[i - 1])
  }

  /** What the loop inserts before the `i`-th result: nothing unless the result starts a
      run, otherwise the probe of its key name. */
  function Insertion(hive: Hive, valueName: string, items: seq<ResultItem>, i: nat): (r: Result<Option<ResultItem>, Exception>)
    requires !IsBlank(valueName) && i < |items|
    ensures r != Ok(Option.None) ==> !IsBlank(items[i].KeyName) && items[i].KeyName != RunningKey(items, i)
    ensures r.Ok? && r.value.Some? ==> r.value.value.KeyName == items[i].KeyName && r.value.value.ValueName == valueName
                                       && r.value.value.ValueData != "" && r.value.value.Valid()
  {
    Select(ProbeOf(hive, valueName, items[i]), RunningKey(items, i), items[i])
  }

  /** The outcome of every result's insertion, in list order. */
  function Insertions(hive: Hive, valueName: string, items: seq<ResultItem>): (r: seq<Result<Option<ResultItem>, Exception>>)
    requires !IsBlank(valueName)
    ensures |r| == |items|
    ensures Fits(valueName, r, items)
  {
    seq(|items|, i requires 0 <= i < |items| => Insertion(hive, valueName, items, i))
  }

  lemma InsertionAt(hive: Hive, valueName: string, items: seq<ResultItem>, i: nat)
    requires !IsBlank(valueName) && i < |items|
    ensures Insertions(hive, valueName, items)[i] == Insertion(hive, valueName, items, i)
  {
  }

  /** What the loop needs of the insertion outcomes: one per result; a failing or inserting
      one belongs to a result with a non-blank key name; an inserted result is valid and
      carries the added value name. */
  predicate Fits(valueName: string, insertions: seq<Result<Option<ResultItem>, Exception>>, items: seq<ResultItem>) {
    && |insertions| == |items|
    && (forall i {:trigger insertions[i]} :: 0 <= i < |items| && insertions[i] != Ok(Option.None) ==> !IsBlank(items[i].KeyName))
    && (forall i {:trigger insertions[i]} :: 0 <= i < |items| && insertions[i].Ok? && insertions[i].value.Some? ==>
          insertions[i].value.value.Valid() && insertions[i].value.value.KeyName == items[i].KeyName
          && insertions[i].value.value.ValueName == valueName)
  }

  /** One iteration: the insertion, if any, then the result itself; a failure is logged
      under the result's key name and, unless recoverable, ends the loop before the result is kept. */
  function EnrichStep(valueName: string, insertion: Result<Option<ResultItem>, Exception>, item: ResultItem): (r: Log)
    requires insertion.Err? ==> !IsBlank(item.KeyName)
  {
    match insertion
    case Ok(None) => Log([item], [], Option.None)
    case Ok(Some(r)) => Log([r, item], [], Option.None)
    case Err(e) => Then(Catch(item.KeyName, valueName, e), Log([item], [], Option.None))
  }

  /** The loop from the `i`-th result on: the new result list, the errors, the escaping exception. */
  function EnrichFrom(valueName: string, insertions: seq<Result<Option<ResultItem>, Exception>>, items: seq<ResultItem>, i: nat): (r: Log)
    requires Fits(valueName, insertions, items) && i <= |items|
    decreases |items| - i
  {
    if i == |items| then Quiet
    else Then(EnrichStep(valueName, insertions[i], items[i]), EnrichFrom(valueName, insertions, items, i + 1))
  }

  lemma EnrichFromUnfolds(valueName: string, insertions: seq<Result<Option<ResultItem>, Exception>>, items: seq<ResultItem>, i: nat)
    requires Fits(valueName, insertions, items) && i < |items|
    ensures EnrichFrom(valueName, insertions, items, i) ==
            Then(EnrichStep(valueName, insertions[i], items[i]), EnrichFrom(valueName, insertions, items, i + 1))
  {
  }

  /** The loop of `AddValueName` over a result list. */
  function Enrichment(hive: Hive, valueName: string, items: seq<ResultItem>): (r: Log)
    requires !IsBlank(valueName)
  {
    EnrichFrom(valueName, Insertions(hive, valueName, items), items, 0)
  }

  /** The loop from the `i`-th result on, as the loop runs it: the key name it remembers
      is carried from one iteration to the next, and `probes` are the results' probes. */
  function EnrichLoop(valueName: string, probes: seq<Result<Option<ResultItem>, Exception>>, items: seq<ResultItem>, i: nat, keyName: string): (r: Log)
    requires |probes| == |items| && i <= |items|
    decreases |items| - i
  {
    if i == |items| then Quiet
    else Then(EnrichStep(valueName, Select(probes[i], keyName, items[i]), items[i]),
              EnrichLoop(valueName, probes, items, i + 1, NextKey(keyName, items[i])))
  }

  lemma EnrichLoopUnfolds(valueName: string, probes: seq<Result<Option<ResultItem>, Exception>>, items: seq<ResultItem>, i: nat, keyName: string)
    requires |probes| == |items| && i < |items|
    ensures EnrichLoop(valueName, probes, items, i, keyName) ==
            Then(EnrichStep(valueName, Select(probes[i], keyName, items[i]), items[i]),
                 EnrichLoop(valueName, probes, items, i + 1, NextKey(keyName, items[i])))
  {
  }

  /** The `i`-th insertion is the `i`-th probe selected against the key name remembered before it. */
  lemma InsertionIsSelected(hive: Hive, valueName: string, items: seq<ResultItem>, i: nat)
    requires !IsBlank(valueName) && i < |items|
    ensures Insertions(hive, valueName, items)[i] == Select(Probes(hive, valueName, items)[i], RunningKey(items, i), items[i])
  {
    InsertionAt(hive, valueName, items, i);
  }

  /** Carrying the remembered key name from one iteration to the next computes the same
      loop as selecting every insertion against the key name before it. */
  lemma {:induction false} EnrichLoopAgrees(valueName: string, probes: seq<Result<Option<ResultItem>, Exception>>,
                                            insertions: seq<Result<Option<ResultItem>, Exception>>, items: seq<ResultItem>, i: nat)
    requires Fits(valueName, insertions, items) && |probes| == |items| && i <= |items|
    requires forall k {:trigger insertions[k]} :: 0 <= k < |items| ==> insertions[k] == Select(probes[k], RunningKey(items, k), items[k])
    ensures EnrichLoop(valueName, probes, items, i, RunningKey(items, i)) == EnrichFrom(valueName, insertions, items, i)
    decreases |items| - i
  {
    if i < |items| {
      EnrichLoopAgrees(valueName, probes, insertions, items, i + 1);
      assert RunningKey(items, i + 1) == NextKey(RunningKey(items, i), items[i]);
      EnrichLoopUnfolds(valueName, probes, items, i, RunningKey(items, i));
      EnrichFromUnfolds(valueName, insertions, items, i);
    }
  }

  /** The whole loop, as the loop runs it, is `Enrichment`. */
  lemma EnrichmentByLoop(hive: Hive, valueName: string, items: seq<ResultItem>)
    requires !IsBlank(valueName)
    ensures EnrichLoop(valueName, Probes(hive, valueName, items), items, 0, "") == Enrichment(hive, valueName, items)
  {
    var probes, insertions := Probes(hive, valueName, items), Insertions(hive, valueName, items);
    forall k | 0 <= k < |items|
      ensures insertions[k] == Select(probes[k], RunningKey(items, k), items[k])
    {
      InsertionIsSelected(hive, valueName, items, k);
    }
    EnrichLoopAgrees(valueName, probes, insertions, items, 0);
  }

  /** What `AddValueName` does to the result list: replaced by the new list when the
      loop completes, unchanged when an exception escapes. */
  function AddedValueName(hive: Hive, valueName: string, items: seq<ResultItem>): (r: seq<ResultItem>)
    requires !IsBlank(valueName)
    ensures |items| == 0 ==> r == []
  {
    var log := Enrichment(hive, valueName, items);
    if log.thrown.None? then log.results else items
  }

  /** The results a list of insertion outcomes adds. */
  function Extras(insertions: seq<Result<Option<ResultItem>, Exception>>): (extras: seq<Option<ResultItem>>)
    ensures |extras| == |insertions|
    ensures forall i {:trigger extras[i]} :: 0 <= i < |insertions| ==>
              extras[i] == if insertions[i].Ok? && insertions[i].value.Some? then insertions[i].value else Option.None
  {
    seq(|insertions|, i requires 0 <= i < |insertions| =>
      if insertions[i].Ok? && insertions[i].value.Some? then insertions[i].value else Option.None)
  }

  /** Each item preceded by its extra item, if it has one. */
  function Interleave(extras: seq<Option<ResultItem>>, items: seq<ResultItem>): (r: seq<ResultItem>)
    requires |extras| == |items|
  {
    if |items| == 0 then []
    else (if extras[0].Some? then [extras[0].value] else []) + [items[0]] + Interleave(extras[1..], items[1..])
  }

  /** How many extras there are. */
  function Count(extras: seq<Option<ResultItem>>): (r: nat) {
    if |extras| == 0 then 0 else (if extras[0].Some? then 1 else 0) + Count(extras[1..])
  }

  /** Where each item lands in the interleaving. */
  function Landing(extras: seq<Option<ResultItem>>, j: nat): (r: nat)
    requires j < |extras|
  {
    j + Count(extras[..j + 1])
  }

  lemma {:induction false} CountSplit(extras: seq<Option<ResultItem>>, j: nat)
    requires 0 < j <= |extras|
    ensures Count(extras[..j]) == (if extras[0].Some? then 1 else 0) + Count(extras[1..][..j - 1])
  {
    assert extras[..j][1..] == extras[1..][..j - 1];
  }

  /** An item's landing place is its place after the first item (and its extra), shifted
      by what lands before it. */
  lemma LandingStep(extras: seq<Option<ResultItem>>, j: nat)
    requires j < |extras|
    ensures Landing(extras, j) == (if extras[0].Some? then 1 else 0) + (if j == 0 then 0 else 1 + Landing(extras[1..], j - 1))
  {
    CountSplit(extras, j + 1);
    if j > 0 {
      assert extras[1..][..j] == extras[1..][..j - 1 + 1];
    } else {
      assert Count(extras[1..][..0]) == 0;
    }
  }

  /** Later items land later. */
  lemma {:induction false} LandingGrows(extras: seq<Option<ResultItem>>, j: nat, k: nat)
    requires j < k < |extras|
    ensures Landing(extras, j) < Landing(extras, k)
    decreases j
  {
    LandingStep(extras, j);
    LandingStep(extras, k);
    if j > 0 {
      LandingGrows(extras[1..], j - 1, k - 1);
    }
  }

  /** The interleaving holds every item and every extra. */
  lemma {:induction false} InterleaveLength(extras: seq<Option<ResultItem>>, items: seq<ResultItem>)
    requires |extras| == |items|
    ensures |Interleave(extras, items)| == |items| + Count(extras)
  {
    if |items| > 0 {
      InterleaveLength(extras[1..], items[1..]);
    }
  }

  /** Item `j` sits at its landing place. */
  lemma {:induction false} ItemLands(extras: seq<Option<ResultItem>>, items: seq<ResultItem>, j: nat)
    requires |extras| == |items| && j < |items|
    ensures Landing(extras, j) < |Interleave(extras, items)|
    ensures Interleave(extras, items)[Landing(extras, j)] == items[j]
    decreases j
  {
    LandingStep(extras, j);
    var head := (if extras[0].Some? then [extras[0].value] else []) + [items[0]];
    var rest := Interleave(extras[1..], items[1..]);
    assert Interleave(extras, items) == head + rest;
    if j > 0 {
      ItemLands(extras[1..], items[1..], j - 1);
      assert items[1..][j - 1] == items[j];
    }
  }

  /** Extra `j`, when there is one, sits just before item `j`. */
  lemma {:induction false} ExtraLands(extras: seq<Option<ResultItem>>, items: seq<ResultItem>, j: nat)
    requires |extras| == |items| && j < |items| && extras[j].Some?
    ensures 0 < Landing(extras, j) <= |Interleave(extras, items)|
    ensures Interleave(extras, items)[Landing(extras, j) - 1] == extras[j].value
    decreases j
  {
    LandingStep(extras, j);
    var head := (if extras[0].Some? then [extras[0].value] else []) + [items[0]];
    var rest := Interleave(extras[1..], items[1..]);
    assert Interleave(extras, items) == head + rest;
    if j > 0 {
      assert extras[1..][j - 1] == extras[j];
      ExtraLands(extras[1..], items[1..], j - 1);
    }
  }

  /** The interleaving holds the items in their order, each at its landing place, and
      the extras in between: nothing of the original list is lost or moved out of order. */
  lemma InterleaveKeepsItems(extras: seq<Option<ResultItem>>, items: seq<ResultItem>)
    requires |extras| == |items|
    ensures |Interleave(extras, items)| == |items| + Count(extras)
    ensures forall j :: 0 <= j < |items| ==> Landing(extras, j) < |Interleave(extras, items)|
                                              && Interleave(extras, items)[Landing(extras, j)] == items[j]
    ensures forall j :: 0 <= j < |items| && extras[j].Some? ==>
              0 < Landing(extras, j) && Interleave(extras, items)[Landing(extras, j) - 1] == extras[j].value
    ensures forall j, k :: 0 <= j < k < |items| ==> Landing(extras, j) < Landing(extras, k)
  {
    InterleaveLength(extras, items);
    forall j | 0 <= j < |items|
      ensures Landing(extras, j) < |Interleave(extras, items)| && Interleave(extras, items)[Landing(extras, j)] == items[j]
    {
      ItemLands(extras, items, j);
    }
    forall j | 0 <= j < |items| && extras[j].Some?
      ensures 0 < Landing(extras, j) && Interleave(extras, items)[Landing(extras, j) - 1] == extras[j].value
    {
      ExtraLands(extras, items, j);
    }
    forall j, k | 0 <= j < k < |items|
      ensures Landing(extras, j) < Landing(extras, k)
    {
      LandingGrows(extras, j, k);
    }
  }

  /** The completed loop interleaves the original results with the insertions. */
  lemma {:induction false} EnrichInterleaves(valueName: string, insertions: seq<Result<Option<ResultItem>, Exception>>, items: seq<ResultItem>, i: nat)
    requires Fits(valueName, insertions, items) && i <= |items|
    requires EnrichFrom(valueName, insertions, items, i).thrown.None?
    ensures EnrichFrom(valueName, insertions, items, i).results == Interleave(Extras(insertions)[i..], items[i..])
    decreases |items| - i
  {
    if i < |items| {
      EnrichInterleaves(valueName, insertions, items, i + 1);
      var extras := Extras(insertions)[i..];
      assert extras[1..] == Extras(insertions)[i + 1..];
      assert items[i..][1..] == items[i + 1..];
      var step := EnrichStep(valueName, insertions[i], items[i]);
      assert step.thrown.None?;
      StepResults(valueName, insertions[i], items[i]);
      assert step.results == (if extras[0].Some? then [extras[0].value] else []) + [items[i]];
    }
  }

  /** A step that completes keeps its result, preceded by the insertion it adds. */
  lemma StepResults(valueName: string, insertion: Result<Option<ResultItem>, Exception>, item: ResultItem)
    requires insertion.Err? ==> !IsBlank(item.KeyName)
    requires EnrichStep(valueName, insertion, item).thrown.None?
    ensures EnrichStep(valueName, insertion, item).results ==
            (if insertion.Ok? && insertion.value.Some? then [insertion.value.value] else []) + [item]
  {
    if insertion.Err? {
      assert [] + [item] == [item];
    }
  }

  /** An insertion belongs to the result it precedes: it has that result's key name, the
      added value name and non-empty data, and it precedes only the first result of a run. */
  lemma InsertionStartsRun(hive: Hive, valueName: string, items: seq<ResultItem>, i: nat)
    requires !IsBlank(valueName) && i < |items|
    requires Extras(Insertions(hive, valueName, items))[i].Some?
    ensures var r := Extras(Insertions(hive, valueName, items))[i].value;
            r.KeyName == items[i].KeyName && r.ValueName == valueName && r.ValueData != "" && r.Valid()
    ensures 0 < i && !IsBlank(items[i - 1].KeyName) ==> items[i - 1].KeyName != items[i].KeyName
  {
    InsertionAt(hive, valueName, items, i);
  }

  /** The first result of every run is probed: what is inserted before it is exactly
      what `ProbeKey` finds under its key name. */
  lemma RunStartProbed(hive: Hive, valueName: string, items: seq<ResultItem>, i: nat)
    requires !IsBlank(valueName) && i < |items|
    requires !IsBlank(items[i].KeyName) && items[i].KeyName != RunningKey(items, i)
    ensures Insertions(hive, valueName, items)[i] == ProbeKey(hive, items[i].KeyName, valueName)
  {
    InsertionAt(hive, valueName, items, i);
  }

  /** The value is added for every run whose key holds it: when the loop completes, the
      result `ProbeKey` finds for the first result of a run sits just before that result
      in the new list. */
  lemma {:induction false} ValueAddedAtRunStart(hive: Hive, valueName: string, items: seq<ResultItem>, i: nat, r: ResultItem)
    requires !IsBlank(valueName) && i < |items|
    requires !IsBlank(items[i].KeyName) && items[i].KeyName != RunningKey(items, i)
    requires ProbeKey(hive, items[i].KeyName, valueName) == Ok(Some(r))
    requires Enrichment(hive, valueName, items).thrown.None?
    ensures var extras := Extras(Insertions(hive, valueName, items));
            var added := AddedValueName(hive, valueName, items);
            0 < Landing(extras, i) < |added| && added[Landing(extras, i) - 1] == r && added[Landing(extras, i)] == items[i]
  {
    var ins := Insertions(hive, valueName, items);
    var extras := Extras(ins);
    RunStartProbed(hive, valueName, items, i);
    assert extras[i] == Some(r);
    EnrichInterleaves(valueName, ins, items, 0);
    assert extras[0..] == extras && items[0..] == items;
    ExtraLands(extras, items, i);
    ItemLands(extras, items, i);
  }

  /** Every result and every error of a log is valid. */
  predicate AllValid(log: Log) {
    && (forall j :: 0 <= j < |log.results| ==> log.results[j].Valid())
    && (forall j :: 0 <= j < |log.errors| ==> log.errors[j].Valid())
  }

  lemma AllValidThen(a: Log, b: Log)
    requires AllValid(a) && AllValid(b)
    ensures AllValid(Then(a, b))
  {
    var c := Then(a, b);
    if a.thrown.None? {
      assert forall j :: |a.results| <= j < |c.results| ==> c.results[j] == b.results[j - |a.results|];
      assert forall j :: |a.errors| <= j < |c.errors| ==> c.errors[j] == b.errors[j - |a.errors|];
    }
  }

  lemma StepValid(valueName: string, insertion: Result<Option<ResultItem>, Exception>, item: ResultItem)
    requires !IsBlank(valueName) && item.Valid()
    requires insertion.Ok? && insertion.value.Some? ==> insertion.value.value.Valid()
    ensures AllValid(EnrichStep(valueName, insertion, item))
  {
    if insertion.Err? {
      AllValidThen(Catch(item.KeyName, valueName, insertion.error), Log([item], [], Option.None));
    }
  }

  /** `StepValid` for the `i`-th result, with what the loop's requirement says of its insertion. */
  lemma StepValidAt(valueName: string, insertions: seq<Result<Option<ResultItem>, Exception>>, items: seq<ResultItem>, i: nat)
    requires Fits(valueName, insertions, items) && i < |items|
    requires !IsBlank(valueName) && items[i].Valid()
    ensures AllValid(EnrichStep(valueName, insertions[i], items[i]))
  {
    StepValid(valueName, insertions[i], items[i]);
  }

  /** The loop keeps every result valid and logs only valid errors. */
  lemma {:induction false} EnrichKeepsValid(valueName: string, insertions: seq<Result<Option<ResultItem>, Exception>>, items: seq<ResultItem>, i: nat)
    requires Fits(valueName, insertions, items) && i <= |items|
    requires !IsBlank(valueName)
    requires forall j :: 0 <= j < |items| ==> items[j].Valid()
    ensures AllValid(EnrichFrom(valueName, insertions, items, i))
    decreases |items| - i
  {
    if i < |items| {
      EnrichKeepsValid(valueName, insertions, items, i + 1);
      assert items[i].Valid();
      StepValidAt(valueName, insertions, items, i);
      AllValidThen(EnrichStep(valueName, insertions[i], items[i]), EnrichFrom(valueName, insertions, items, i + 1));
    }
  }

  /** Adding the same value name twice does not give the list of the first time: the
      first insertion is made again before itself. */
  lemma NotIdempotent(hive: Hive, valueName: string, items: seq<ResultItem>)
    requires !IsBlank(valueName) && |items| > 0
    requires Enrichment(hive, valueName, items).thrown.None?
    requires Extras(Insertions(hive, valueName, items))[0].Some?
    requires Enrichment(hive, valueName, AddedValueName(hive, valueName, items)).thrown.None?
    ensures var once := AddedValueName(hive, valueName, items);
            var r := Extras(Insertions(hive, valueName, items))[0].value;
            once[0] == r && |once| >= 2
            && AddedValueName(hive, valueName, once)[..2] == [r, r]
  {
    var ins := Insertions(hive, valueName, items);
    var once := AddedValueName(hive, valueName, items);
    var r := Extras(ins)[0].value;
    assert ins[0] == Ok(Some(r));
    assert once[..2] == [r, items[0]];
    var again := Insertions(hive, valueName, once);
    assert again[0] == Insertion(hive, valueName, once, 0) == Insertion(hive, valueName, items, 0);
    assert EnrichStep(valueName, again[0], once[0]) == Log([r, r], [], Option.None);
  }
}
