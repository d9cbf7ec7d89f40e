/**
 * The date filters of the journal: a modified binary search for the first
 * entry on or after a date, the walk to the edge of a run of entries with
 * equal dates, and the Range, From and Last filters that turn those indices
 * into tagged slices of the entry array.
 *
 * Dates are read through a `Calendar`, which stands for moment.js: it gives
 * the instant a date string denotes and the instants that `setToStartOfDay`
 * and `setToEndOfDay` produce. The JavaScript values `undefined` and NaN are
 * written out where the code produces them.
 */
module Filters {
  import opened Common

  /** Which end of a run of entries with equal dates the search reports. */
  datatype DuplicateStrategy = CheckLeft | CheckRight

  /**
   * What the filters ask of moment.js: the instant (in milliseconds) that a
   * date string denotes, and the instants of the strings that
   * `setToStartOfDay` and `setToEndOfDay` return for a date string.
   */
  datatype Calendar = Calendar(instant: string -> int, startOfDay: string -> int, endOfDay: string -> int)

  /** A position as JavaScript computes it: an integer, or NaN once `undefined` took part in the sum. */
  datatype Position = At(index: int) | NaN

  /** One matched entry and its position in the array that was filtered. */
  datatype FilterResult = FilterResult(position: Position, entry: Entry)

  /** A query; each field may be absent (`null` or `undefined`). */
  datatype FilterParams = FilterParams(from: Option<string>, to: Option<string>, on: Option<string>, last: Option<int>)

  /** The instants of the entries' dates, in array order. */
  function Instants(entries: seq<Entry>, instant: string -> int): (keys: seq<int>)
    ensures |keys| == |entries|
    ensures forall i :: 0 <= i < |entries| ==> keys[i] == instant(entries[i].date)
  {
    seq(|entries|, i requires 0 <= i < |entries| => instant(entries[i].date))
  }

  /** Chronological order; equal instants may follow each other. */
  ghost predicate Sorted(keys: seq<int>)
  {
    forall i, j :: 0 <= i <= j < |keys| ==> keys[i] <= keys[j]
  }

  /** The number of instants strictly before `x`. */
  function CountBefore(keys: seq<int>, x: int): (count: nat)
    ensures count <= |keys|
  {
    if |keys| == 0 then 0 else (if keys[0] < x then 1 else 0) + CountBefore(keys[1..], x)
  }

  /** In sorted instants, those before `x` are exactly the first `CountBefore(keys, x)`. */
  lemma {:induction false} CountBeforeIsPrefix(keys: seq<int>, x: int)
    requires Sorted(keys)
    ensures forall i :: 0 <= i < |keys| ==> (keys[i] < x <==> i < CountBefore(keys, x))
  {
    if |keys| > 0 {
      var rest := keys[1..];
      assert Sorted(rest);
      CountBeforeIsPrefix(rest, x);
      if keys[0] >= x && |rest| > 0 {
        assert !(rest[0] < x);
      }
      forall i | 0 < i < |keys| ensures keys[i] == rest[i - 1] { }
    }
  }

  /** Where all instants before index `g` lie before `x` and all from `g` on lie after it, `g` counts both the instants before `x` and those at or before it. */
  lemma GapIsCount(keys: seq<int>, x: int, g: int)
    requires Sorted(keys)
    requires 0 <= g <= |keys|
    requires forall i :: 0 <= i < g ==> keys[i] < x
    requires forall i :: g <= i < |keys| ==> x < keys[i]
    ensures CountBefore(keys, x) == g && CountBefore(keys, x + 1) == g
  {
    CountBeforeIsPrefix(keys, x);
    CountBeforeIsPrefix(keys, x + 1);
    if g < |keys| {
      assert !(keys[g] < x) && !(keys[g] < x + 1);
    }
    if g > 0 {
      assert keys[g - 1] < x;
    }
  }

  // ----- the binary search -----

  /**
   * The answer `findFirstOnOrAfterDate` gives on sorted instants, stated by
   * counting: -1 when every entry is before `x` (the empty array included);
   * 0 when `x` is before every entry; on an exact match, the edge of the run
   * of entries at `x` (undefined when that run reaches the array's end in the
   * strategy's direction); otherwise the first index after `x`, minus one for
   * `CheckRight`.
   */
  function FirstOnOrAfter(keys: seq<int>, x: int, strategy: DuplicateStrategy): (r: Option<int>)
    ensures r.Some? ==> -1 <= r.value < |keys|
  {
    var before := CountBefore(keys, x);
    var atOrBefore := CountBefore(keys, x + 1);
    if before < atOrBefore then
      // exact match: the entries at `x` are those in [before, atOrBefore)
      match strategy
      case CheckLeft => if before == 0 then None else Some(before)
      case CheckRight => if atOrBefore == |keys| then None else Some(atOrBefore - 1)
    else if before == |keys| then Some(-1)
    else if before == 0 then Some(0)
    else if strategy == CheckRight then Some(before - 1)
    else Some(before)
  }

  /**
   * `r` is what `handleDuplicateMatches` reports for the run of instants
   * equal to `keys[found]` that contains `found`: the index of the run's end
   * in the strategy's direction, or `undefined` (None) when the run reaches
   * the first or last index of the array.
   */
  ghost predicate IsRunEdge(keys: seq<int>, found: int, strategy: DuplicateStrategy, r: Option<int>)
    requires 0 <= found < |keys|
  {
    match strategy
    case CheckRight =>
      if forall j :: found <= j < |keys| ==> keys[j] == keys[found] then r == None
      else
        && r.Some? && found <= r.value < |keys| - 1
        && keys[r.value + 1] != keys[found]
        && forall j :: found <= j <= r.value ==> keys[j] == keys[found]
    case CheckLeft =>
      if forall j :: 0 <= j <= found ==> keys[j] == keys[found] then r == None
      else
        && r.Some? && 0 < r.value <= found
        && keys[r.value - 1] != keys[found]
        && forall j :: r.value <= j <= found ==> keys[j] == keys[found]
  }

  /** Walks from `foundIndex` towards one end of the array while the dates stay equal to the found one. */
  method HandleDuplicateMatches(entries: array<Entry>, instant: string -> int, foundIndex: int, strategy: DuplicateStrategy)
    returns (index: Option<int>)
    requires 0 <= foundIndex < entries.Length
    ensures index.Some? ==> 0 <= index.value < entries.Length
    ensures IsRunEdge(Instants(entries[..], instant), foundIndex, strategy, index)
  {
    ghost var keys := Instants(entries[..], instant);
    var incrementer := if strategy == CheckRight then 1 else -1;
    var startOn := if strategy == CheckRight then foundIndex + 1 else foundIndex - 1;
    var stopOn := if strategy == CheckRight then entries.Length else -1;
    var foundCreatedOn := instant(entries[foundIndex].date);

    var lastIndex := foundIndex;
    while startOn != stopOn
      invariant strategy == CheckRight ==> foundIndex <= lastIndex < entries.Length && startOn == lastIndex + 1
      invariant strategy == CheckLeft ==> 0 <= lastIndex <= foundIndex && startOn == lastIndex - 1
      invariant strategy == CheckRight ==> forall j :: foundIndex <= j <= lastIndex ==> keys[j] == foundCreatedOn
      invariant strategy == CheckLeft ==> forall j :: lastIndex <= j <= foundIndex ==> keys[j] == foundCreatedOn
      decreases if strategy == CheckRight then entries.Length - startOn else startOn + 1
    {
      var currentDate := entries[startOn].date;
      if foundCreatedOn != instant(currentDate) {
        return Some(lastIndex);
      }
      lastIndex := startOn;
      startOn := startOn + incrementer;
    }
    // the run reaches the end of the array: the source falls off its loop and returns undefined
    return None;
  }

  /** On sorted instants, the edge that `handleDuplicateMatches` reports after an exact hit is the answer `FirstOnOrAfter` gives. */
  lemma ExactHitIsFirstOnOrAfter(keys: seq<int>, x: int, middle: int, strategy: DuplicateStrategy, r: Option<int>)
    requires Sorted(keys)
    requires 0 <= middle < |keys| && keys[middle] == x
    requires IsRunEdge(keys, middle, strategy, r)
    ensures r == FirstOnOrAfter(keys, x, strategy)
  {
    CountBeforeIsPrefix(keys, x);
    CountBeforeIsPrefix(keys, x + 1);
    var before, atOrBefore := CountBefore(keys, x), CountBefore(keys, x + 1);
    assert before <= middle < atOrBefore;
    match strategy
    case CheckLeft =>
      if r.Some? {
        var v := r.value;
        assert keys[v - 1] < x && keys[v] == x;
      } else {
        assert keys[0] == x;
      }
    case CheckRight =>
      if r.Some? {
        var v := r.value;
        assert keys[v + 1] > x && keys[v] == x;
      } else {
        assert keys[|keys| - 1] == x;
      }
  }

  /**
   * `findFirstOnOrAfterDate`: a binary search that narrows `[left, right]`
   * until it meets the date or the interval empties. Whatever the order of
   * the entries, it ends with -1, an index of the array or `undefined`; on
   * entries in chronological order its answer is `FirstOnOrAfter`.
   */
  method FindFirstOnOrAfterDate(entries: array<Entry>, instant: string -> int, date: int, strategy: DuplicateStrategy)
    returns (index: Option<int>)
    ensures index.Some? ==> -1 <= index.value < entries.Length
    ensures Sorted(Instants(entries[..], instant)) ==> index == FirstOnOrAfter(Instants(entries[..], instant), date, strategy)
  {
    ghost var keys := Instants(entries[..], instant);
    ghost var sorted := Sorted(keys);
    var left := 0;
    var right := entries.Length - 1;

    while true
      invariant 0 <= left <= right + 1 <= entries.Length
      invariant sorted ==> forall i :: 0 <= i < left ==> keys[i] < date
      invariant sorted ==> forall i :: right < i < entries.Length ==> date < keys[i]
      decreases right + 1 - left
    {
      // not found: the date is after every entry
      if left > right && left >= entries.Length {
        if sorted {
          GapIsCount(keys, date, left);
        }
        return Some(-1);
      }

      // not found: the date is before every entry
      if left > right && right < 0 {
        if sorted {
          GapIsCount(keys, date, left);
        }
        return Some(0);
      }

      // not found: `left` is the first entry after the date
      if left > right {
        if sorted {
          GapIsCount(keys, date, left);
        }
        return if strategy == CheckRight then Some(left - 1) else Some(left);
      }

      var middle := (left + right) / 2;
      var entry := entries[middle];

      if instant(entry.date) < date {
        left := middle + 1;
        continue;
      }

      if instant(entry.date) > date {
        right := middle - 1;
        continue;
      }

      // neither before nor after: the same instant
      index := HandleDuplicateMatches(entries, instant, middle, strategy);
      if sorted {
        ExactHitIsFirstOnOrAfter(keys, date, middle, strategy, index);
      }
      return index;
    }
  }

  /** The search answers -1 exactly when every entry is before the date, the empty array included. */
  lemma FirstOnOrAfterNotFound(keys: seq<int>, x: int, strategy: DuplicateStrategy)
    requires Sorted(keys)
    ensures FirstOnOrAfter(keys, x, strategy) == Some(-1) <==> forall i :: 0 <= i < |keys| ==> keys[i] < x
  {
    CountBeforeIsPrefix(keys, x);
    CountBeforeIsPrefix(keys, x + 1);
    var before := CountBefore(keys, x);
    if before < |keys| {
      assert !(keys[before] < x);
    }
  }

  /** A date before every entry gives 0 under both strategies; `CheckRight` never yields -1 here. */
  lemma FirstOnOrAfterBeforeEverything(keys: seq<int>, x: int, strategy: DuplicateStrategy)
    requires Sorted(keys)
    requires |keys| > 0 && x < keys[0]
    ensures FirstOnOrAfter(keys, x, strategy) == Some(0)
  {
    GapIsCount(keys, x, 0);
  }

  /**
   * With no entry at the date and entries on both sides of it, `CheckLeft`
   * gives the first entry after the date and `CheckRight` the one before it.
   */
  lemma FirstOnOrAfterBetween(keys: seq<int>, x: int, strategy: DuplicateStrategy)
    requires Sorted(keys)
    requires forall i :: 0 <= i < |keys| ==> keys[i] != x
    requires |keys| > 0 && keys[0] < x < keys[|keys| - 1]
    ensures var r := FirstOnOrAfter(keys, x, strategy);
      && r.Some?
      && (strategy == CheckLeft ==> 0 < r.value < |keys| && keys[r.value - 1] < x < keys[r.value])
      && (strategy == CheckRight ==> 0 <= r.value < |keys| - 1 && keys[r.value] < x < keys[r.value + 1])
  {
    CountBeforeIsPrefix(keys, x);
    CountBeforeIsPrefix(keys, x + 1);
    var before := CountBefore(keys, x);
    assert 0 < before < |keys|;
    assert keys[before - 1] < x && !(keys[before] < x + 1);
  }

  /**
   * With an entry exactly at the date, `CheckLeft` gives the first entry of
   * the run at the date and `CheckRight` the last one, except that the
   * answer is undefined when that run starts at index 0 (`CheckLeft`) or
   * ends at the last index (`CheckRight`).
   */
  lemma FirstOnOrAfterExact(keys: seq<int>, x: int, strategy: DuplicateStrategy)
    requires Sorted(keys)
    requires exists i :: 0 <= i < |keys| && keys[i] == x
    ensures var r := FirstOnOrAfter(keys, x, strategy);
      && (strategy == CheckLeft ==>
            && (r.None? <==> keys[0] == x)
            && (r.Some? ==> 0 < r.value < |keys| && keys[r.value] == x && keys[r.value - 1] < x))
      && (strategy == CheckRight ==>
            && (r.None? <==> keys[|keys| - 1] == x)
            && (r.Some? ==> 0 <= r.value < |keys| - 1 && keys[r.value] == x && x < keys[r.value + 1]))
  {
    CountBeforeIsPrefix(keys, x);
    CountBeforeIsPrefix(keys, x + 1);
    var i :| 0 <= i < |keys| && keys[i] == x;
    var before, atOrBefore := CountBefore(keys, x), CountBefore(keys, x + 1);
    assert before <= i < atOrBefore;
    if before > 0 { assert keys[before - 1] < x; }
    assert keys[before] == x;
    assert keys[atOrBefore - 1] == x;
    if atOrBefore < |keys| { assert !(keys[atOrBefore] < x + 1); }
  }

  // ----- slicing and tagging -----

  /** How `Array.prototype.slice` reads an integer index: negative counts from the end; the result is clamped to `[0, n]`. */
  function RelativeIndex(x: int, n: nat): (r: nat)
    ensures r <= n
  {
    if x < 0 then (if n + x < 0 then 0 else n + x) else if x > n then n else x
  }

  /** `s.slice(start, end)` for integer arguments. */
  function Slice<T>(s: seq<T>, start: int, end: int): seq<T>
  {
    var lo, hi := RelativeIndex(start, |s|), RelativeIndex(end, |s|);
    if lo < hi then s[lo..hi] else []
  }

  /** The start argument of `slice(startIndex, …)`: `undefined` counts as 0. */
  function StartArgument(startIndex: Option<int>): int
  {
    if startIndex.Some? then startIndex.value else 0
  }

  /** The end argument of `slice(…, endIndex + 1)`: `undefined + 1` is NaN, which counts as 0. */
  function EndArgument(endIndex: Option<int>): int
  {
    if endIndex.Some? then endIndex.value + 1 else 0
  }

  /** `s.map((value, idx) => ({position: idx + offset, entry: value}))`; an undefined offset makes every position NaN. */
  function Tag(s: seq<Entry>, offset: Option<int>): (tagged: seq<FilterResult>)
    ensures |tagged| == |s|
  {
    seq(|s|, i requires 0 <= i < |s| => FilterResult(if offset.Some? then At(i + offset.value) else NaN, s[i]))
  }

  /** An interval of instants; a missing bound leaves that side open. */
  datatype Bounds = Bounds(lo: Option<int>, hi: Option<int>)

  /** Whether instant `k` lies within `bounds`, both ends included. */
  predicate Within(bounds: Bounds, k: int)
  {
    (bounds.lo.None? || bounds.lo.value <= k) && (bounds.hi.None? || k <= bounds.hi.value)
  }

  /**
   * The entries from index `i` on whose instant lies within `bounds`, each with
   * its own index as position: what a filter over a chronological array means.
   */
  function Select(entries: seq<Entry>, instant: string -> int, bounds: Bounds, i: nat): seq<FilterResult>
    decreases |entries| - i
  {
    if i >= |entries| then []
    else
      (if Within(bounds, instant(entries[i].date)) then [FilterResult(At(i), entries[i])] else [])
      + Select(entries, instant, bounds, i + 1)
  }

  /** Selecting from inside a window `[a, b)` of kept entries gives the rest of the window, tagged with their indices. */
  lemma {:induction false} SelectInsideWindow(entries: seq<Entry>, instant: string -> int, bounds: Bounds, a: nat, b: nat, i: nat)
    requires a <= i <= b <= |entries|
    requires forall j :: 0 <= j < |entries| ==> (Within(bounds, instant(entries[j].date)) <==> a <= j < b)
    ensures Select(entries, instant, bounds, i) == Tag(entries[i..b], Some(i))
    decreases |entries| - i
  {
    if i < b {
      SelectInsideWindow(entries, instant, bounds, a, b, i + 1);
      var tail := Tag(entries[i + 1..b], Some(i + 1));
      assert Tag(entries[i..b], Some(i)) == [FilterResult(At(i), entries[i])] + tail;
    } else if i < |entries| {
      SelectPastWindow(entries, instant, bounds, a, b, i);
    }
  }

  lemma {:induction false} SelectPastWindow(entries: seq<Entry>, instant: string -> int, bounds: Bounds, a: nat, b: nat, i: nat)
    requires a <= b <= i <= |entries|
    requires forall j :: 0 <= j < |entries| ==> (Within(bounds, instant(entries[j].date)) <==> a <= j < b)
    ensures Select(entries, instant, bounds, i) == []
    decreases |entries| - i
  {
    if i < |entries| {
      SelectPastWindow(entries, instant, bounds, a, b, i + 1);
    }
  }

  /** When the kept entries are exactly those in `[a, b)`, selecting them is tagging that slice with its offset. */
  lemma {:induction false} SelectWindow(entries: seq<Entry>, instant: string -> int, bounds: Bounds, a: nat, b: nat, i: nat)
    requires i <= a <= b <= |entries|
    requires forall j :: 0 <= j < |entries| ==> (Within(bounds, instant(entries[j].date)) <==> a <= j < b)
    ensures Select(entries, instant, bounds, i) == Tag(entries[a..b], Some(a))
    decreases a - i
  {
    if i < a {
      SelectWindow(entries, instant, bounds, a, b, i + 1);
    } else {
      SelectInsideWindow(entries, instant, bounds, a, b, i);
    }
  }

  // ----- the filters -----

  /**
   * `isDefined`: neither `undefined` nor `null`. Both are `None` here, so a
   * parameter is defined exactly when it holds a value, falsy ones (0, "")
   * included.
   */
  predicate IsDefined<T>(value: Option<T>): (defined: bool)
    ensures defined <==> value != None
  {
    value.Some?
  }

  /** `RangeFilter.shouldExecute`: both bounds given, whatever their values. */
  predicate RangeShouldExecute(params: FilterParams): (applies: bool)
    ensures applies <==> params.from.Some? && params.to.Some?
  {
    IsDefined(params.from) && IsDefined(params.to)
  }

  /** `FromFilter.shouldExecute`: a lower bound and no upper bound; never together with the RangeFilter. */
  predicate FromShouldExecute(params: FilterParams): (applies: bool)
    ensures applies ==> !RangeShouldExecute(params)
  {
    IsDefined(params.from) && !IsDefined(params.to)
  }

  /** `LastFilter.shouldExecute`: a count given, 0 included. */
  predicate LastShouldExecute(params: FilterParams): (applies: bool)
    ensures applies <==> params.last.Some?
    ensures params.last == Some(0) ==> applies
  {
    IsDefined(params.last)
  }

  /** What `RangeFilter.execute` returns. */
  function RangeResults(entries: seq<Entry>, calendar: Calendar, from: string, to: string): seq<FilterResult>
  {
    var keys := Instants(entries, calendar.instant);
    var startIndex := FirstOnOrAfter(keys, calendar.startOfDay(from), CheckLeft);
    var found := FirstOnOrAfter(keys, calendar.endOfDay(to), CheckRight);
    var endIndex := if startIndex.Some? && startIndex.value >= 0 && found == Some(-1) then Some(|entries| - 1) else found;
    Tag(Slice(entries, StartArgument(startIndex), EndArgument(endIndex)), startIndex)
  }

  /** `RangeFilter.execute`: the entries from the start of `from`'s day to the end of `to`'s day, each with its position. */
  method RangeExecute(entries: array<Entry>, calendar: Calendar, from: string, to: string) returns (results: seq<FilterResult>)
    ensures Sorted(Instants(entries[..], calendar.instant)) ==> results == RangeResults(entries[..], calendar, from, to)
  {
    var startIndex := FindFirstOnOrAfterDate(entries, calendar.instant, calendar.startOfDay(from), CheckLeft);
    var endIndex := FindFirstOnOrAfterDate(entries, calendar.instant, calendar.endOfDay(to), CheckRight);
    if startIndex.Some? && startIndex.value >= 0 && endIndex == Some(-1) {
      endIndex := Some(entries.Length - 1);
    }
    var filtered := Slice(entries[..], StartArgument(startIndex), EndArgument(endIndex));
    results := Tag(filtered, startIndex);
  }

  /** What `FromFilter.execute` returns. */
  function FromResults(entries: seq<Entry>, calendar: Calendar, from: string): seq<FilterResult>
  {
    var startIndex := FirstOnOrAfter(Instants(entries, calendar.instant), calendar.instant(from), CheckLeft);
    if startIndex == Some(-1) then []
    else Tag(Slice(entries, StartArgument(startIndex), |entries|), startIndex)
  }

  /** `FromFilter.execute`: the entries on or after `from`, each with its position. */
  method FromExecute(entries: array<Entry>, calendar: Calendar, from: string) returns (results: seq<FilterResult>)
    ensures Sorted(Instants(entries[..], calendar.instant)) ==> results == FromResults(entries[..], calendar, from)
  {
    var startIndex := FindFirstOnOrAfterDate(entries, calendar.instant, calendar.instant(from), CheckLeft);

    // no entries found
    if startIndex == Some(-1) {
      return [];
    }

    results := Tag(Slice(entries[..], StartArgument(startIndex), entries.Length), startIndex);
  }

  /**
   * What `LastFilter.execute` returns: `slice(-1 * last)` when there are more
   * entries than `last`, all of them otherwise, each positioned by
   * `calculatePosition`. For a positive count these are the newest
   * `min(last, n)` entries in order, each with its index. A count of 0 gives
   * every entry (`slice(-0)` is the whole array), each position shifted by the
   * array's length; a negative count drops the first `-last` entries and
   * shifts the positions by `n - last`.
   */
  function LastResults(entries: seq<Entry>, last: int): (results: seq<FilterResult>)
    ensures last > 0 ==>
      var m := if last < |entries| then last else |entries|;
      results == Tag(entries[|entries| - m..], Some(|entries| - m))
    ensures last == 0 ==> results == Tag(entries, Some(|entries|))
    ensures last < 0 ==>
      var k := if -last < |entries| then -last else |entries|;
      results == Tag(entries[k..], Some(|entries| - last))
  {
    var n := |entries|;
    var newest := if n > last then Slice(entries, -1 * last, n) else entries;
    assert n <= last ==> entries[0..] == entries;
    assert last == 0 ==> entries[0..n] == entries;
    seq(|newest|, i requires 0 <= i < |newest| =>
      FilterResult(At(if n > last then n - last + i else i), newest[i]))
  }

  // ----- what the filters return -----

  /**
   * On sorted entries the RangeFilter returns exactly the entries from the
   * start of `from`'s day to the end of `to`'s day, duplicates at either
   * bound included, each with its index — provided no entry sits exactly at
   * the start bound on index 0 or at the end bound on the last index, and
   * the first entry is not after the end bound.
   */
  lemma RangeIsWindow(entries: seq<Entry>, calendar: Calendar, from: string, to: string)
    requires Sorted(Instants(entries, calendar.instant))
    requires |entries| > 0 ==>
      && calendar.instant(entries[0].date) != calendar.startOfDay(from)
      && calendar.instant(entries[|entries| - 1].date) != calendar.endOfDay(to)
      && calendar.instant(entries[0].date) <= calendar.endOfDay(to)
    ensures RangeResults(entries, calendar, from, to)
         == Select(entries, calendar.instant, Bounds(Some(calendar.startOfDay(from)), Some(calendar.endOfDay(to))), 0)
  {
    RangeResultsByCount(entries, calendar, from, to);
    SelectBetween(entries, calendar.instant, calendar.startOfDay(from), calendar.endOfDay(to));
  }

  /**
   * The entries from the first at or after `lo` to the last at or before
   * `hi` in sorted entries, each tagged with its index.
   */
  function Window(entries: seq<Entry>, instant: string -> int, lo: int, hi: int): seq<FilterResult>
  {
    var keys := Instants(entries, instant);
    var p, q := CountBefore(keys, lo), CountBefore(keys, hi + 1);
    var a := if p <= q then p else q;
    Tag(entries[a..q], Some(a))
  }

  /** Under the conditions of `RangeIsWindow`, the RangeFilter returns the entries from the first at or after the start bound to the last at or before the end bound. */
  lemma RangeResultsByCount(entries: seq<Entry>, calendar: Calendar, from: string, to: string)
    requires Sorted(Instants(entries, calendar.instant))
    requires |entries| > 0 ==>
      && calendar.instant(entries[0].date) != calendar.startOfDay(from)
      && calendar.instant(entries[|entries| - 1].date) != calendar.endOfDay(to)
      && calendar.instant(entries[0].date) <= calendar.endOfDay(to)
    ensures RangeResults(entries, calendar, from, to) == Window(entries, calendar.instant, calendar.startOfDay(from), calendar.endOfDay(to))
  {
    var keys := Instants(entries, calendar.instant);
    var lo, hi := calendar.startOfDay(from), calendar.endOfDay(to);
    StartSearchCounts(keys, lo);
    EndSearchCounts(keys, hi);
    var p, q := CountBefore(keys, lo), CountBefore(keys, hi + 1);
    var found := FirstOnOrAfter(keys, hi, CheckRight);
    if p < |entries| {
      assert RangeResults(entries, calendar, from, to) == Tag(Slice(entries, p, q), Some(p));
      if q < p {
        assert Slice(entries, p, q) == [] == entries[q..q];
      }
    } else {
      assert RangeResults(entries, calendar, from, to) == Tag(Slice(entries, -1, EndArgument(found)), Some(-1));
      assert Slice(entries, -1, EndArgument(found)) == [];
    }
  }

  /** Without an entry exactly at `lo` on index 0, the start search answers the count of entries before `lo`, or -1 when that is all of them. */
  lemma StartSearchCounts(keys: seq<int>, lo: int)
    requires Sorted(keys)
    requires |keys| > 0 ==> keys[0] != lo
    ensures var p: int := CountBefore(keys, lo);
      FirstOnOrAfter(keys, lo, CheckLeft) == if p == |keys| then Some(-1) else Some(p)
  {
    CountBeforeIsPrefix(keys, lo);
    CountBeforeIsPrefix(keys, lo + 1);
    var p := CountBefore(keys, lo);
    if 0 < p < |keys| {
      assert keys[p - 1] < lo;
    }
  }

  /**
   * Without an entry exactly at `hi` on the last index, and with the first
   * entry not after `hi`, the end search answers the index of the last entry
   * at or before `hi`, or -1 when every entry is.
   */
  lemma EndSearchCounts(keys: seq<int>, hi: int)
    requires Sorted(keys)
    requires |keys| > 0 ==> keys[|keys| - 1] != hi && keys[0] <= hi
    ensures var q: int := CountBefore(keys, hi + 1);
      && (|keys| > 0 ==> q > 0)
      && FirstOnOrAfter(keys, hi, CheckRight) == if q == |keys| then Some(-1) else Some(q - 1)
  {
    CountBeforeIsPrefix(keys, hi);
    CountBeforeIsPrefix(keys, hi + 1);
    var b, q := CountBefore(keys, hi), CountBefore(keys, hi + 1);
    if q < |keys| {
      assert !(keys[q] < hi + 1) && !(keys[q] < hi);
    }
    assert b <= q;
    if |keys| > 0 {
      assert keys[0] < hi + 1;
      if q == |keys| {
        assert keys[q - 1] < hi;
        assert b == q;
      }
    }
  }

  /** On sorted entries the entries from `lo` to `hi` are a window: those from the first at or after `lo` to the last at or before `hi`. */
  lemma SelectBetween(entries: seq<Entry>, instant: string -> int, lo: int, hi: int)
    requires Sorted(Instants(entries, instant))
    ensures Select(entries, instant, Bounds(Some(lo), Some(hi)), 0) == Window(entries, instant, lo, hi)
  {
    var keys := Instants(entries, instant);
    CountBeforeIsPrefix(keys, lo);
    CountBeforeIsPrefix(keys, hi + 1);
    var p, q := CountBefore(keys, lo), CountBefore(keys, hi + 1);
    var a := if p <= q then p else q;
    var bounds := Bounds(Some(lo), Some(hi));
    forall j | 0 <= j < |entries|
      ensures Within(bounds, instant(entries[j].date)) <==> a <= j < q
    {
      assert instant(entries[j].date) == keys[j];
    }
    SelectWindow(entries, instant, bounds, a, q, 0);
  }

  /** On sorted entries the entries from `x` on are a suffix: those from the first at or after `x`. */
  lemma SelectFrom(entries: seq<Entry>, instant: string -> int, x: int)
    requires Sorted(Instants(entries, instant))
    ensures var p := CountBefore(Instants(entries, instant), x);
      Select(entries, instant, Bounds(Some(x), None), 0) == Tag(entries[p..], Some(p))
  {
    var keys := Instants(entries, instant);
    CountBeforeIsPrefix(keys, x);
    var p := CountBefore(keys, x);
    var bounds := Bounds(Some(x), None);
    forall j | 0 <= j < |entries|
      ensures Within(bounds, instant(entries[j].date)) <==> p <= j < |entries|
    {
      assert instant(entries[j].date) == keys[j];
    }
    SelectWindow(entries, instant, bounds, p, |entries|, 0);
  }

  /**
   * When the first entry is after both bounds, the RangeFilter still returns
   * that entry: the end search answers 0 for a date before every entry.
   */
  lemma RangeBeforeEverythingKeepsFirstEntry(entries: seq<Entry>, calendar: Calendar, from: string, to: string)
    requires Sorted(Instants(entries, calendar.instant))
    requires |entries| > 0
    requires calendar.startOfDay(from) < calendar.instant(entries[0].date)
    requires calendar.endOfDay(to) < calendar.instant(entries[0].date)
    ensures RangeResults(entries, calendar, from, to) == [FilterResult(At(0), entries[0])]
  {
    var keys := Instants(entries, calendar.instant);
    FirstOnOrAfterBeforeEverything(keys, calendar.startOfDay(from), CheckLeft);
    FirstOnOrAfterBeforeEverything(keys, calendar.endOfDay(to), CheckRight);
  }

  /** When the last entry sits exactly at the end bound, the RangeFilter returns nothing: the end index is undefined. */
  lemma RangeEndingOnLastEntryIsEmpty(entries: seq<Entry>, calendar: Calendar, from: string, to: string)
    requires Sorted(Instants(entries, calendar.instant))
    requires |entries| > 0 && calendar.instant(entries[|entries| - 1].date) == calendar.endOfDay(to)
    ensures RangeResults(entries, calendar, from, to) == []
  {
    var keys := Instants(entries, calendar.instant);
    FirstOnOrAfterExact(keys, calendar.endOfDay(to), CheckRight);
  }

  /** When the first entry sits exactly at the start bound, every position the RangeFilter reports is NaN. */
  lemma RangeStartingOnFirstEntryLosesPositions(entries: seq<Entry>, calendar: Calendar, from: string, to: string)
    requires Sorted(Instants(entries, calendar.instant))
    requires |entries| > 0 && calendar.instant(entries[0].date) == calendar.startOfDay(from)
    ensures forall r :: r in RangeResults(entries, calendar, from, to) ==> r.position == NaN
  {
    var keys := Instants(entries, calendar.instant);
    FirstOnOrAfterExact(keys, calendar.startOfDay(from), CheckLeft);
  }

  /**
   * On sorted entries the FromFilter returns exactly the entries on or after
   * `from`, each with its index, unless the first entry sits exactly at `from`.
   */
  lemma FromIsSuffix(entries: seq<Entry>, calendar: Calendar, from: string)
    requires Sorted(Instants(entries, calendar.instant))
    requires |entries| > 0 ==> calendar.instant(entries[0].date) != calendar.instant(from)
    ensures FromResults(entries, calendar, from)
         == Select(entries, calendar.instant, Bounds(Some(calendar.instant(from)), None), 0)
  {
    var keys := Instants(entries, calendar.instant);
    var x := calendar.instant(from);
    FromResultsByCount(entries, calendar, from);
    SelectFrom(entries, calendar.instant, x);
  }

  /** Without an entry exactly at `from` on index 0, the FromFilter returns the entries from the first at or after `from`. */
  lemma FromResultsByCount(entries: seq<Entry>, calendar: Calendar, from: string)
    requires Sorted(Instants(entries, calendar.instant))
    requires |entries| > 0 ==> calendar.instant(entries[0].date) != calendar.instant(from)
    ensures var p := CountBefore(Instants(entries, calendar.instant), calendar.instant(from));
      FromResults(entries, calendar, from) == Tag(entries[p..], Some(p))
  {
    var keys := Instants(entries, calendar.instant);
    var x := calendar.instant(from);
    var p := CountBefore(keys, x);
    StartSearchCounts(keys, x);
    if p < |entries| {
      assert Slice(entries, p, |entries|) == entries[p..];
    }
  }

  /** When the first entry sits exactly at `from`, the FromFilter returns every entry, each at position NaN. */
  lemma FromStartingOnFirstEntryLosesPositions(entries: seq<Entry>, calendar: Calendar, from: string)
    requires Sorted(Instants(entries, calendar.instant))
    requires |entries| > 0 && calendar.instant(entries[0].date) == calendar.instant(from)
    ensures FromResults(entries, calendar, from) == Tag(entries, None)
  {
    var keys := Instants(entries, calendar.instant);
    FirstOnOrAfterExact(keys, calendar.instant(from), CheckLeft);
    assert entries[0..|entries|] == entries;
  }
}
