/**
 * A node of the journal's database tree: a key, an optional entry, and an
 * index of children by key together with the children's keys kept sorted.
 */
module TreeNodes {
  import opened Common
  import opened Text

  /** The message `addChild` throws for a key that is already indexed. */
  function DuplicateKeyMessage(key: string): string
  {
    "Index '" + key + "' already exists"
  }

  /** `keys` lists the elements of `domain`, each exactly once. */
  predicate Enumerates(keys: seq<string>, domain: set<string>)
    decreases |keys|
  {
    if |keys| == 0 then domain == {}
    else keys[0] in domain && Enumerates(keys[1..], domain - {keys[0]})
  }

  /** Listing a set's elements once each is having the same multiset as the set. */
  lemma {:induction false} EnumeratesIffSameMultiset(keys: seq<string>, domain: set<string>)
    ensures Enumerates(keys, domain) <==> multiset(keys) == multiset(domain)
    decreases |keys|
  {
    if |keys| == 0 {
      if domain != {} {
        var x :| x in domain;
        assert x in multiset(domain);
      }
    } else {
      var x, rest := keys[0], keys[1..];
      assert keys == [x] + rest;
      EnumeratesIffSameMultiset(rest, domain - {x});
      assert multiset(keys) == multiset{x} + multiset(rest);
      if x in domain {
        assert multiset(domain) == multiset(domain - {x}) + multiset{x} by {
          forall y ensures multiset(domain)[y] == (multiset(domain - {x}) + multiset{x})[y] {
            if y == x {
              assert y !in domain - {x};
            } else {
              assert y in domain <==> y in domain - {x};
            }
          }
        }
        assert multiset(rest) == multiset(keys) - multiset{x};
        assert multiset(domain - {x}) == multiset(domain) - multiset{x};
      } else {
        assert x in multiset(keys) && x !in multiset(domain);
      }
    }
  }

  class TreeNode {
    const key: string
    /** The entry a leaf holds; `null` (None) for the year, month and day nodes. */
    const value: Option<Entry>
    /** The children's keys, in `Array.prototype.sort` order. */
    var keys: seq<string>
    /** The children by key. */
    var index: map<string, TreeNode>

    /** `keys` lists exactly the indexed keys, each once, in ascending order. */
    ghost predicate Valid()
      reads this
    {
      && Ascending(keys)
      && Enumerates(keys, index.Keys)
    }

    /** A new node with the given key and value and no children. */
    constructor(key: string, value: Option<Entry>)
      ensures this.key == key && this.value == value
      ensures keys == [] && index == map[]
      ensures Valid()
    {
      this.key := key;
      this.value := value;
      keys := [];
      index := map[];
    }

    /**
     * `addChild`: throws when the child's key is already indexed, changing
     * nothing; otherwise indexes the child and pushes its key onto `keys`,
     * which is then sorted.
     */
    method AddChild(node: TreeNode) returns (outcome: Outcome)
      requires Valid()
      modifies this
      ensures Valid()
      ensures node.key in old(index) ==> outcome == Fail(DuplicateKeyMessage(node.key)) && unchanged(this)
      ensures node.key !in old(index) ==>
        && outcome == Pass
        && index == old(index)[node.key := node]
        && keys == Sort(old(keys) + [node.key])
    {
      if node.key in index {
        return Fail(DuplicateKeyMessage(node.key));
      }

      EnumeratesIffSameMultiset(keys, index.Keys);
      index := index[node.key := node];
      keys := keys + [node.key];
      keys := Sort(keys);
      outcome := Pass;
      EnumeratesIffSameMultiset(keys, index.Keys);
    }

    /**
     * `findChild` reads `this.index[key]`, a property lookup on a `Map`
     * object rather than `Map.get`; no key stored with `set` is such a
     * property, so the lookup is `undefined` and the result `null`, even for
     * an indexed key.
     */
    function FindChild(key: string): (child: TreeNode?)
      reads this
      ensures child == null
      ensures key in index ==> child != index[key]
    {
      null
    }

    /**
     * `createChildUnlessExists`: since `findChild` finds nothing, always
     * creates a node with the key and value and adds it, so it throws
     * exactly when the key is already indexed.
     */
    method CreateChildUnlessExists(key: string, value: Option<Entry>) returns (result: Result<TreeNode>)
      requires Valid()
      modifies this
      ensures Valid()
      ensures key in old(index) ==> result == Err(DuplicateKeyMessage(key)) && unchanged(this)
      ensures key !in old(index) ==>
        && result.Ok? && fresh(result.value)
        && result.value.key == key && result.value.value == value
        && result.value.keys == [] && result.value.index == map[]
        && index == old(index)[key := result.value]
    {
      var child := FindChild(key);
      if child == null {
        var created := new TreeNode(key, value);
        var outcome := AddChild(created);
        if outcome.Fail? {
          return Err(outcome.message);
        }
        child := created;
      }
      return Ok(child);
    }
  }

  /** In a valid node, `keys` and the index hold the same keys, and no key twice. */
  lemma KeysMatchIndex(node: TreeNode)
    requires node.Valid()
    ensures forall k :: k in node.keys <==> k in node.index
    ensures forall i, j :: 0 <= i < j < |node.keys| ==> node.keys[i] != node.keys[j]
  {
    EnumeratesIffSameMultiset(node.keys, node.index.Keys);
    forall k ensures k in node.keys <==> k in node.index {
      assert k in node.keys <==> k in multiset(node.keys);
    }
    forall i, j | 0 <= i < j < |node.keys| ensures node.keys[i] != node.keys[j] {
      var s := node.keys;
      assert s == s[..j] + [s[j]] + s[j + 1..];
      assert multiset(s)[s[j]] >= multiset(s[..j])[s[j]] + 1;
      assert multiset(s)[s[j]] <= 1;
      assert s[j] !in s[..j];
      assert s[i] in s[..j];
    }
  }
}
