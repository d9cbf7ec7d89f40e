/**
 * The journal: a file name and a database tree. Adding an entry asks the
 * root for a year node, a month node and a weekday node (all three directly
 * under the root) and hangs a leaf keyed by the entry's timestamp under the
 * weekday node.
 */
module Journals {
  import opened Common
  import opened Text
  import opened TreeNodes

  /**
   * The three keys `addEntry` derives from the entry's date with
   * `Number.prototype.toString`: the year, the zero-based month and the
   * weekday (`moment.day()`, 0 for Sunday).
   */
  function EntryKeys(year: int, month: int, weekday: int): (keys: seq<string>)
    ensures |keys| == 3
  {
    [DecimalString(year), DecimalString(month), DecimalString(weekday)]
  }

  /**
   * The keys that successive `createChildUnlessExists` calls on one node add
   * before the first one throws: each call throws on a key already present,
   * whether it was there before or was added by an earlier call.
   */
  function Created(existing: set<string>, keys: seq<string>): seq<string>
    decreases |keys|
  {
    if |keys| == 0 || keys[0] in existing then []
    else [keys[0]] + Created(existing + {keys[0]}, keys[1..])
  }

  /**
   * The created keys are a prefix of the requested ones, each new and
   * different from those before it, and the prefix stops only at a key that
   * is already present.
   */
  lemma {:induction false} CreatedIsLongestNewPrefix(existing: set<string>, keys: seq<string>)
    ensures var made := Created(existing, keys);
      && |made| <= |keys| && made == keys[..|made|]
      && (forall i :: 0 <= i < |made| ==> made[i] !in existing && made[i] !in made[..i])
      && (|made| < |keys| ==> keys[|made|] in existing || keys[|made|] in made)
    decreases |keys|
  {
    if |keys| > 0 && keys[0] !in existing {
      var rest := Created(existing + {keys[0]}, keys[1..]);
      CreatedIsLongestNewPrefix(existing + {keys[0]}, keys[1..]);
      var made := [keys[0]] + rest;
      assert made == keys[..|made|];
      forall i | 0 < i < |made| ensures made[i] !in existing && made[i] !in made[..i] {
        assert made[..i] == [keys[0]] + rest[..i - 1];
      }
    }
  }

  /** `Created` for three keys, spelled out. */
  lemma CreatedThree(existing: set<string>, a: string, b: string, c: string)
    ensures Created(existing, [a, b, c])
         == if a in existing then []
            else if b in existing || b == a then [a]
            else if c in existing || c == a || c == b then [a, b]
            else [a, b, c]
  {
    assert [a, b, c][1..] == [b, c];
    assert [b, c][1..] == [c];
    assert [c][1..] == [];
    if a !in existing {
      var e1 := existing + {a};
      if b !in e1 {
        var e2 := e1 + {b};
        if c !in e2 {
          assert Created(e2, [c]) == [c];
        } else {
          assert Created(e2, [c]) == [];
        }
      }
    }
  }

  /** The keys `addEntry` adds under the root, case by case. */
  lemma AddedThree(existing: set<string>, year: string, month: string, weekday: string)
    ensures Added(existing, year, month, weekday)
        == if year in existing then []
           else if month in existing || month == year then [year]
           else if weekday in existing || weekday == year || weekday == month then [year, month]
           else [year, month, weekday]
  {
    CreatedThree(existing, year, month, weekday);
  }

  /** A node as `createChildUnlessExists` makes it under the root: the key, no entry, no children. */
  ghost predicate Bare(node: TreeNode, key: string)
    reads node
  {
    node.key == key && node.value == None && node.keys == [] && node.index == map[]
  }

  class Journal {
    var filename: string
    var database: TreeNode

    /** Keeps the given database and file name. */
    constructor(database: TreeNode, filename: string)
      ensures this.database == database && this.filename == filename
    {
      this.filename := filename;
      this.database := database;
    }

    /**
     * The three `createChildUnlessExists` calls on the root that open
     * `addEntry`: the year, month and weekday nodes are created in turn, and
     * the first key already under the root ends the run with its error.
     */
    method CreateDayNode(year: string, month: string, weekday: string)
      returns (day: Result<TreeNode>, ghost made: seq<string>, ghost added: map<string, TreeNode>)
      requires database.Valid()
      modifies database
      ensures made == Added(old(database.index).Keys, year, month, weekday)
      ensures database.Valid()
      ensures database.index == old(database.index) + added
      ensures forall k :: k in added <==> k in made
      ensures forall k :: k in added ==> fresh(added[k]) && Bare(added[k], k)
      ensures day.Ok? <==> |made| == 3
      ensures day.Ok? ==> weekday in added && day.value == added[weekday]
      ensures day.Err? ==> |made| < 3 && day.message == DuplicateKeyMessage([year, month, weekday][|made|])
    {
      ghost var before := database.index;
      AddedThree(before.Keys, year, month, weekday);
      added, made := map[], [];

      var yearNode := database.CreateChildUnlessExists(year, None);
      if yearNode.Err? {
        day := Err(yearNode.message);
      } else {
        added, made := added[year := yearNode.value], [year];
        var monthNode := database.CreateChildUnlessExists(month, None);
        if monthNode.Err? {
          day := Err(monthNode.message);
        } else {
          assert month != year;
          added, made := added[month := monthNode.value], [year, month];
          day := database.CreateChildUnlessExists(weekday, None);
          if day.Ok? {
            assert weekday != year && weekday != month;
            added, made := added[weekday := day.value], [year, month, weekday];
          }
        }
      }
      assert database.index == before + added;
    }

    /**
     * `addEntry`, with the date's year, month, weekday and ISO timestamp
     * given. It throws as soon as one of the three keys is already under the
     * root, after adding the ones before it; otherwise the weekday node gets
     * a single leaf holding the entry under its timestamp.
     */
    method AddEntry(entry: Entry, year: string, month: string, weekday: string, timestamp: string)
      returns (outcome: Outcome, ghost made: seq<string>, ghost added: map<string, TreeNode>)
      requires database.Valid()
      modifies database
      ensures made == Added(old(database.index).Keys, year, month, weekday)
      ensures database.Valid()
      ensures database.index == old(database.index) + added
      ensures forall k :: k in added <==> k in made
      ensures forall k :: k in added ==> fresh(added[k]) && added[k].key == k && added[k].value == None
      ensures outcome == Pass <==> |made| == 3
      ensures outcome.Fail? ==> |made| < 3 && outcome == Fail(DuplicateKeyMessage([year, month, weekday][|made|]))
      ensures forall k :: k in added && (outcome.Fail? || k != weekday) ==> added[k].keys == [] && added[k].index == map[]
      ensures outcome == Pass ==>
        && weekday in added
        && var day := added[weekday];
        && day.keys == [timestamp] && day.index.Keys == {timestamp}
        && fresh(day.index[timestamp])
        && day.index[timestamp].key == timestamp
        && day.index[timestamp].value == Some(entry)
    {
      var dayNode;
      dayNode, made, added := CreateDayNode(year, month, weekday);
      if dayNode.Err? {
        return Fail(dayNode.message), made, added;
      }

      var leaf := new TreeNode(timestamp, Some(entry));
      outcome := dayNode.value.AddChild(leaf);
      assert dayNode.value.keys == Sort([] + [timestamp]) == [timestamp];
    }
  }

  /** The keys `addEntry` adds under the root: the longest run of its three keys that can be created. */
  function Added(existing: set<string>, year: string, month: string, weekday: string): seq<string>
  {
    Created(existing, [year, month, weekday])
  }

  /**
   * `addEntry` succeeds exactly when none of the three keys is under the
   * root yet and the three are pairwise different: in particular it fails
   * for any entry whose year already has one, and for any date whose
   * zero-based month number equals its weekday number.
   */
  lemma AddEntrySucceedsIff(existing: set<string>, year: int, month: int, weekday: int)
    ensures var keys := EntryKeys(year, month, weekday);
      (|Added(existing, keys[0], keys[1], keys[2])| == 3) <==>
        (&& DecimalString(year) !in existing
         && DecimalString(month) !in existing
         && DecimalString(weekday) !in existing
         && year != month && year != weekday && month != weekday)
    ensures DecimalString(year) in existing ==> Added(existing, DecimalString(year), DecimalString(month), DecimalString(weekday)) == []
  {
    DecimalStringInjective(year, month);
    DecimalStringInjective(year, weekday);
    DecimalStringInjective(month, weekday);
    CreatedThree(existing, DecimalString(year), DecimalString(month), DecimalString(weekday));
  }
}
