/**
 * The filter service: it asks each filter in a fixed order whether it
 * applies to the query, runs the ones that do over the same entries and
 * concatenates their results; when none applies it returns every entry with
 * its index.
 */
module FilterService {
  import opened Common
  import opened Filters

  /** The filters the service consults. */
  datatype FilterKind = Range | Last | From | On

  /**
   * The OnFilter's class is not part of this model: whether it applies to
   * the query, and what it returns when it runs, are given.
   */
  datatype OnFilterBehaviour = OnFilterBehaviour(applies: bool, results: seq<FilterResult>)

  /** The order in which the service builds its list of filters. */
  const DeclaredFilters: seq<FilterKind> := [Range, Last, From, On]

  /** `shouldExecute` of the filter of that kind. */
  predicate ShouldExecute(kind: FilterKind, params: FilterParams, on: OnFilterBehaviour)
  {
    match kind
    case Range => RangeShouldExecute(params)
    case Last => LastShouldExecute(params)
    case From => FromShouldExecute(params)
    case On => on.applies
  }

  /** `filters.filter(f => f.shouldExecute(params))`: the applicable filters, in their order. */
  function Matched(kinds: seq<FilterKind>, params: FilterParams, on: OnFilterBehaviour): seq<FilterKind>
  {
    if |kinds| == 0 then []
    else Only(kinds[0], params, on) + Matched(kinds[1..], params, on)
  }

  /** The filter of that kind alone when it applies, nothing otherwise. */
  function Only(kind: FilterKind, params: FilterParams, on: OnFilterBehaviour): seq<FilterKind>
  {
    if ShouldExecute(kind, params, on) then [kind] else []
  }

  /** What `execute` of the filter of that kind returns. */
  function Executed(kind: FilterKind, entries: seq<Entry>, params: FilterParams, calendar: Calendar, on: OnFilterBehaviour): seq<FilterResult>
    requires ShouldExecute(kind, params, on)
  {
    match kind
    case Range => RangeResults(entries, calendar, params.from.value, params.to.value)
    case Last => LastResults(entries, params.last.value)
    case From => FromResults(entries, calendar, params.from.value)
    case On => on.results
  }

  /** What each filter contributes to the service's list: its results when it applies, nothing otherwise. */
  function Runs(entries: seq<Entry>, params: FilterParams, calendar: Calendar, on: OnFilterBehaviour): FilterKind -> seq<FilterResult>
  {
    (k: FilterKind) => if ShouldExecute(k, params, on) then Executed(k, entries, params, calendar, on) else []
  }

  /** The contributions of the given filters, one after another in their order. */
  function Concatenated(kinds: seq<FilterKind>, run: FilterKind -> seq<FilterResult>): seq<FilterResult>
  {
    if |kinds| == 0 then [] else Concatenated(kinds[..|kinds| - 1], run) + run(kinds[|kinds| - 1])
  }

  /** What `filter` returns. */
  function Filtered(entries: seq<Entry>, params: FilterParams, calendar: Calendar, on: OnFilterBehaviour): seq<FilterResult>
  {
    var matched := Matched(DeclaredFilters, params, on);
    if |matched| > 0 then Concatenated(matched, Runs(entries, params, calendar, on)) else Tag(entries, Some(0))
  }

  /** Runs one applicable filter. */
  method Execute(kind: FilterKind, entries: array<Entry>, params: FilterParams, calendar: Calendar, on: OnFilterBehaviour)
    returns (results: seq<FilterResult>)
    requires ShouldExecute(kind, params, on)
    ensures (params.from.Some? ==> Sorted(Instants(entries[..], calendar.instant))) ==>
      results == Executed(kind, entries[..], params, calendar, on)
    ensures kind == Last || kind == On ==> results == Executed(kind, entries[..], params, calendar, on)
  {
    match kind
    case Range =>
      results := RangeExecute(entries, calendar, params.from.value, params.to.value);
    case Last =>
      results := LastResults(entries[..], params.last.value);
    case From =>
      results := FromExecute(entries, calendar, params.from.value);
    case On =>
      results := on.results;
  }

  /**
   * `FilterService.filter`: runs every applicable filter over the entries
   * and pushes its results onto one list; with no applicable filter, every
   * entry is returned with its index.
   */
  method Filter(entries: array<Entry>, params: FilterParams, calendar: Calendar, on: OnFilterBehaviour)
    returns (results: seq<FilterResult>)
    ensures (params.from.Some? ==> Sorted(Instants(entries[..], calendar.instant))) ==>
      results == Filtered(entries[..], params, calendar, on)
  {
    var matched := Matched(DeclaredFilters, params, on);
    MatchedSelectsApplicable(DeclaredFilters, params, on);
    var filterResults := ExecuteAll(matched, entries, params, calendar, on);
    results := if |matched| > 0 then filterResults else Tag(entries[..], Some(0));
  }

  /** The `forEach` inside `filter`: runs each given filter in turn and pushes its results onto one list. */
  method ExecuteAll(kinds: seq<FilterKind>, entries: array<Entry>, params: FilterParams, calendar: Calendar, on: OnFilterBehaviour)
    returns (filterResults: seq<FilterResult>)
    requires forall k :: k in kinds ==> ShouldExecute(k, params, on)
    ensures (params.from.Some? ==> Sorted(Instants(entries[..], calendar.instant))) ==>
      filterResults == Concatenated(kinds, Runs(entries[..], params, calendar, on))
  {
    ghost var snapshot := entries[..];
    ghost var sorted := params.from.Some? ==> Sorted(Instants(snapshot, calendar.instant));
    ghost var run := Runs(snapshot, params, calendar, on);
    filterResults := [];
    var i := 0;
    while i < |kinds|
      invariant 0 <= i <= |kinds|
      invariant sorted ==> filterResults == Concatenated(kinds[..i], run)
    {
      assert kinds[i] in kinds;
      var filtered := Execute(kinds[i], entries, params, calendar, on);
      if sorted {
        ConcatenatedStep(kinds, i, run, filterResults, filtered);
      }
      filterResults := filterResults + filtered;
      i := i + 1;
    }
    assert kinds[..i] == kinds;
  }

  /** The results of the filters that apply, in the service's order: Range, Last, From, On. */
  function InDeclaredOrder(entries: seq<Entry>, params: FilterParams, calendar: Calendar, on: OnFilterBehaviour): seq<FilterResult>
  {
    (if RangeShouldExecute(params) then RangeResults(entries, calendar, params.from.value, params.to.value) else [])
    + (if LastShouldExecute(params) then LastResults(entries, params.last.value) else [])
    + (if FromShouldExecute(params) then FromResults(entries, calendar, params.from.value) else [])
    + (if on.applies then on.results else [])
  }

  /** Concatenating the contributions of two lists of filters is concatenating the lists. */
  lemma {:induction false} ConcatenatedAppend(a: seq<FilterKind>, b: seq<FilterKind>, run: FilterKind -> seq<FilterResult>)
    ensures Concatenated(a + b, run) == Concatenated(a, run) + Concatenated(b, run)
    decreases |b|
  {
    if |b| > 0 {
      var init := b[..|b| - 1];
      assert (a + b)[..|a + b| - 1] == a + init;
      ConcatenatedAppend(a, init, run);
    } else {
      assert a + b == a;
    }
  }

  /** One more filter's contribution extends the concatenation of those before it. */
  lemma ConcatenatedStep(kinds: seq<FilterKind>, i: nat, run: FilterKind -> seq<FilterResult>, before: seq<FilterResult>, next: seq<FilterResult>)
    requires i < |kinds|
    requires before == Concatenated(kinds[..i], run) && next == run(kinds[i])
    ensures before + next == Concatenated(kinds[..i + 1], run)
  {
    assert kinds[..i + 1][..i] == kinds[..i];
  }

  /** The matched filters are exactly the applicable ones, in their order: a subsequence of the list. */
  lemma {:induction false} MatchedSelectsApplicable(kinds: seq<FilterKind>, params: FilterParams, on: OnFilterBehaviour)
    ensures var matched := Matched(kinds, params, on);
      && |matched| <= |kinds|
      && (forall k :: k in matched <==> k in kinds && ShouldExecute(k, params, on))
  {
    if |kinds| > 0 {
      MatchedSelectsApplicable(kinds[1..], params, on);
      assert forall k :: k in kinds <==> k == kinds[0] || k in kinds[1..];
    }
  }

  /** Matching a list with a filter in front matches that filter, then the rest. */
  lemma MatchedCons(kind: FilterKind, rest: seq<FilterKind>, params: FilterParams, on: OnFilterBehaviour)
    ensures Matched([kind] + rest, params, on) == Only(kind, params, on) + Matched(rest, params, on)
  {
    assert ([kind] + rest)[1..] == rest;
  }

  /** Which of the declared filters apply, spelled out. */
  lemma MatchedDeclared(params: FilterParams, on: OnFilterBehaviour)
    ensures Matched(DeclaredFilters, params, on)
         == Only(Range, params, on) + Only(Last, params, on) + Only(From, params, on) + Only(On, params, on)
  {
    var s3 := [On] + [];
    var s2 := [From] + s3;
    var s1 := [Last] + s2;
    assert DeclaredFilters == [Range] + s1;
    MatchedCons(On, [], params, on);
    MatchedCons(From, s3, params, on);
    MatchedCons(Last, s2, params, on);
    MatchedCons(Range, s1, params, on);
  }

  /**
   * When at least one filter applies, the service returns the applicable
   * filters' results one after another, in the order Range, Last, From, On,
   * each filter running over all the entries.
   */
  lemma FilterConcatenatesInDeclaredOrder(entries: seq<Entry>, params: FilterParams, calendar: Calendar, on: OnFilterBehaviour)
    requires exists k :: k in DeclaredFilters && ShouldExecute(k, params, on)
    ensures Filtered(entries, params, calendar, on) == InDeclaredOrder(entries, params, calendar, on)
  {
    var run := Runs(entries, params, calendar, on);
    var r, l, f, o := Only(Range, params, on), Only(Last, params, on), Only(From, params, on), Only(On, params, on);
    MatchedDeclared(params, on);
    var matched := Matched(DeclaredFilters, params, on);
    assert matched == r + l + f + o;
    ConcatenatedAppend(r + l + f, o, run);
    ConcatenatedAppend(r + l, f, run);
    ConcatenatedAppend(r, l, run);
    forall k | k in [Range, Last, From, On]
      ensures Concatenated(Only(k, params, on), run) == run(k)
    {
      if ShouldExecute(k, params, on) {
        assert Only(k, params, on)[..0] == [];
      }
    }
  }

  /** With no applicable filter, every entry comes back in order with its index as position. */
  lemma FilterFallsBackToEveryEntry(entries: seq<Entry>, params: FilterParams, calendar: Calendar, on: OnFilterBehaviour)
    requires !RangeShouldExecute(params) && !LastShouldExecute(params) && !FromShouldExecute(params) && !on.applies
    ensures var results := Filtered(entries, params, calendar, on);
      && |results| == |entries|
      && forall i :: 0 <= i < |entries| ==> results[i] == FilterResult(At(i), entries[i])
  {
    MatchedDeclared(params, on);
  }

  /**
   * A query with `from`, `to` and `last` runs both the RangeFilter and the
   * LastFilter (the FromFilter stays out): the range results come first and
   * the last `last` entries follow, then whatever the OnFilter returns.
   */
  lemma RangeAndLastTogether(entries: seq<Entry>, params: FilterParams, calendar: Calendar, on: OnFilterBehaviour)
    requires params.from.Some? && params.to.Some? && params.last.Some?
    ensures Filtered(entries, params, calendar, on)
         == RangeResults(entries, calendar, params.from.value, params.to.value)
          + LastResults(entries, params.last.value)
          + (if on.applies then on.results else [])
  {
    assert Range in DeclaredFilters && ShouldExecute(Range, params, on);
    FilterConcatenatesInDeclaredOrder(entries, params, calendar, on);
    RangeAndLastInDeclaredOrder(entries, params, calendar, on);
  }

  /** The declared order with the RangeFilter and the LastFilter applying and the FromFilter not. */
  lemma RangeAndLastInDeclaredOrder(entries: seq<Entry>, params: FilterParams, calendar: Calendar, on: OnFilterBehaviour)
    requires params.from.Some? && params.to.Some? && params.last.Some?
    ensures InDeclaredOrder(entries, params, calendar, on)
         == RangeResults(entries, calendar, params.from.value, params.to.value)
          + LastResults(entries, params.last.value)
          + (if on.applies then on.results else [])
  {
    assert !FromShouldExecute(params);
  }
}
