/** The multimap: a binary search tree from `int` keys to lists of `int`
    values, kept in one array that grows to complete-tree sizes. */
module MultiMap {
  import opened Tree

  /** What `realloc` leaves in the slots it adds. Their contents are
      indeterminate; the model fills them with one fixed node that looks
      valid, so it is `alloc_mm_node`'s own loop that makes them invalid. */
  const Garbage: Node := Node(true, 0, [])

  /** `findMaxI`: the largest index of the smallest complete tree that has
      slot `index`. */
  method FindMaxI(index: nat) returns (r: int)
    requires index <= MAX_INDEX
    ensures r == CompleteMax(index)
    ensures index <= r <= MAX_INDEX && r + 2 == Pow2(BitLength(index + 1))
    ensures forall e: nat :: Pow2(e) - 2 >= index ==> r <= Pow2(e) - 2
  {
    var depth := 0;
    var i: nat := index + 1;
    while i != 0
      invariant depth + BitLength(i) == BitLength(index + 1)
      decreases i
    {
      assert BitLength(i) == 1 + BitLength(i / 2);
      i := i / 2;
      depth := depth + 1;
    }
    assert depth == BitLength(index + 1);
    r := Pow2(depth) - 2;
    assert r == CompleteMax(index);
    CompleteMaxLeast(index);
    CompleteMaxBounded(index);
  }

  /** The array after `alloc_mm_node` has made room for slot `j`: unchanged
      when `j` is in range, otherwise extended with vacant slots to the
      smallest complete tree that has slot `j`. */
  function Grown(s: seq<Node>, j: nat): (g: seq<Node>)
    ensures j < |g| && |s| <= |g| && g[..|s|] == s
    ensures |g| == if j < |s| then |s| else CompleteMax(j) + 1
    ensures forall x :: |s| <= x < |g| ==> g[x] == Vacant
  {
    CompleteMaxLeast(j);
    if j < |s| then s else s + seq(CompleteMax(j) + 1 - |s|, _ => Vacant)
  }

  /** The array after `find_mm_node` has created the node for `k` in the
      dead slot `j`. */
  function Placed(s: seq<Node>, j: nat, k: int): seq<Node>
  {
    var g := Grown(s, j);
    g[j := Node(true, k, [])]
  }

  /** Creating the node changes slot `j` only, gives it key `k` and no
      values, and leaves every dead slot vacant. */
  lemma PlacedSettles(s: seq<Node>, j: nat, k: int)
    requires Vacated(s) && !Live(s, j)
    ensures SameBut(s, Placed(s, j, k), j) && At(Placed(s, j, k), j) == Node(true, k, [])
    ensures Vacated(Placed(s, j, k))
  {
    var t := Placed(s, j, k);
    forall x: nat | x != j
      ensures At(t, x) == At(s, x)
    {
      var g := Grown(s, j);
      if x < |s| {
        assert g[..|s|][x] == s[x];
      }
    }
  }

  /** The array invariant of the multimap: a complete-tree size within
      32-bit index range, search-tree order, live slots closed under
      parents, dead slots vacant. */
  ghost predicate Shaped(s: seq<Node>)
  {
    && |s| - 1 <= MAX_INDEX && (|s| == 0 || CompleteMax(|s| - 1) == |s| - 1)
    && Bst(s, 0) && Closed(s) && Vacated(s)
  }

  /** Creating the node for a new key where its search stops keeps the
      invariant and maps the key to no values. */
  lemma PlacedValid(s: seq<Node>, key: int)
    requires Shaped(s)
    requires var j := Search(s, key, 0); !Live(s, j) && j <= MAX_INDEX
    ensures var j := Search(s, key, 0); var t := Placed(s, j, key);
      && Shaped(t) && Contents(t, 0) == Contents(s, 0)[key := []] && Search(t, key, 0) == j
      && |t| == (if j < |s| then |s| else CompleteMax(j) + 1)
  {
    var j := Search(s, key, 0);
    var t := Placed(s, j, key);
    SearchParent(s, key, 0);
    PlacedSettles(s, j, key);
    Settle(s, t, key, [], 0);
    SettleClosed(s, t, j);
    PlacedSize(s, j, key);
  }

  /** The array `find_mm_node` leaves keeps a complete-tree size in range. */
  lemma PlacedSize(s: seq<Node>, j: nat, key: int)
    requires |s| - 1 <= MAX_INDEX && (|s| == 0 || CompleteMax(|s| - 1) == |s| - 1) && j <= MAX_INDEX
    ensures var t := Placed(s, j, key);
      && |t| - 1 <= MAX_INDEX && (|t| == 0 || CompleteMax(|t| - 1) == |t| - 1)
      && |t| == (if j < |s| then |s| else CompleteMax(j) + 1)
  {
    CompleteMaxFixed(j);
    CompleteMaxBounded(j);
  }

  /** What `find_mm_node` from the root leaves behind in array `t` and
      returns as `r`, started on array `s`: the live slot holding `key`, a
      node created for `key` where the search stops (when `create` is set or
      that slot is the root), or -1. */
  ghost predicate Found(s: seq<Node>, key: int, create: bool, r: int, t: seq<Node>)
  {
    var j := Search(s, key, 0);
    if Live(s, j) then r == j && t == s
    else if j == 0 || create then r == j && t == Placed(s, j, key)
    else r == -1 && t == s
  }

  /** A node `find_mm_node` returns holds `key` and the values the multimap
      had for it; the search for `key` now stops there; and the multimap
      changed at most by gaining `key` with no values. Without a node, `key`
      is absent and nothing changed. */
  lemma FoundItems(s: seq<Node>, key: int, create: bool, r: int, t: seq<Node>)
    requires Shaped(s) && Found(s, key, create, r, t)
    requires create ==> Search(s, key, 0) <= MAX_INDEX
    ensures r >= 0 ==> r < |t| && t[r].valid && t[r].key == key && Search(t, key, 0) == r
    ensures r >= 0 ==> t[r].values == Get(Contents(s, 0), key) && Contents(t, 0) == Contents(s, 0)[key := t[r].values]
    ensures r < 0 ==> r == -1 && t == s && key !in Contents(s, 0)
    ensures |t| == |s| || |t| == 2 * |s| + 1
  {
    SearchCorrect(s, key, 0);
    var j := Search(s, key, 0);
    if !Live(s, j) && (j == 0 || create) {
      PlacedValid(s, key);
      if |s| <= j {
        SearchBound(s, key);
        GrowOneLevel(|s|, j);
      }
    }
  }

  /** What `mm_add_value` leaves: the multimap with `value` appended to the
      values of `key`, an array grown by at most one level. */
  lemma Added(s0: seq<Node>, key: int, r: int, s: seq<Node>, value: int)
    requires Shaped(s0) && Shaped(s) && (|s| == |s0| || |s| == 2 * |s0| + 1)
    requires 0 <= r < |s| && s[r].valid && s[r].key == key && Search(s, key, 0) == r
    requires s[r].values == Get(Contents(s0, 0), key) && Contents(s, 0) == Contents(s0, 0)[key := s[r].values]
    ensures var t := s[r := s[r].(values := s[r].values + [value])];
      && Shaped(t) && (|t| == |s0| || |t| == 2 * |s0| + 1)
      && Contents(t, 0) == Contents(s0, 0)[key := Get(Contents(s0, 0), key) + [value]]
  {
    var t := s[r := s[r].(values := s[r].values + [value])];
    AppendValid(s, key, r, value);
    UpdateTwice(Contents(s0, 0), key, s[r].values, s[r].values + [value]);
    assert |t| == |s|;
  }

  /** A second update of the same key overrides the first. */
  lemma UpdateTwice(c: map<int, seq<int>>, k: int, a: seq<int>, b: seq<int>)
    ensures c[k := a][k := b] == c[k := b]
  {
  }

  /** Appending a value to the list of the live slot holding `key` keeps the
      invariant and appends the value to the key's values. */
  lemma AppendValid(s: seq<Node>, key: int, j: nat, value: int)
    requires Shaped(s) && j == Search(s, key, 0) && Live(s, j) && s[j].key == key
    ensures var t := s[j := s[j].(values := s[j].values + [value])];
      && Shaped(t) && Contents(t, 0) == Contents(s, 0)[key := s[j].values + [value]]
  {
    var t := s[j := s[j].(values := s[j].values + [value])];
    assert SameBut(s, t, j) && At(t, j) == Node(true, key, s[j].values + [value]);
    Settle(s, t, key, s[j].values + [value], 0);
    SettleClosed(s, t, j);
  }

  /** The slot holding `value` in `values`, if any: the scan loop of
      `mm_contains_pair` over the key's value list. */
  method Scan(values: seq<int>, value: int) returns (found: bool)
    ensures found <==> value in values
  {
    var i := 0;
    while i < |values|
      invariant 0 <= i <= |values|
      invariant value !in values[..i]
    {
      if values[i] == value {
        return true;
      }
      i := i + 1;
    }
    return false;
  }

  class MultiMap {
    /** The largest slot index; -1 while the array is empty. */
    var maxI: int
    /** The array of slots the C code reaches through `root`. */
    var root: seq<Node>

    /** The array has `maxI + 1` slots, a complete-tree size no larger than
        32-bit index arithmetic reaches; its live slots form a search tree
        closed under parents, and its dead slots are vacant. */
    ghost predicate Valid()
      reads this
    {
      -1 <= maxI && |root| == maxI + 1 && Shaped(root)
    }

    /** The multimap as a map from each key to its values. */
    ghost function Items(): map<int, seq<int>>
      reads this
    {
      Contents(root, 0)
    }

    /** `init_multimap`: no slots. */
    constructor ()
      ensures Valid() && maxI == -1 && root == [] && Items() == map[]
    {
      maxI := -1;
      root := [];
    }

    /** `alloc_mm_node`: grows the array when slot `nodeI` lies past its
        end, marks every new slot invalid, then marks slot `nodeI` valid. */
    method AllocNode(nodeI: nat)
      requires -1 <= maxI && |root| == maxI + 1 && nodeI <= MAX_INDEX
      modifies this
      ensures maxI == (if old(maxI) < nodeI then CompleteMax(nodeI) else old(maxI)) && |root| == maxI + 1
      ensures root == Grown(old(root), nodeI)[nodeI := Grown(old(root), nodeI)[nodeI].(valid := true)]
      ensures nodeI < |root| && root[nodeI].valid
      ensures forall x :: 0 <= x < |old(root)| && x != nodeI ==> root[x] == old(root)[x]
      ensures forall x :: |old(root)| <= x < |root| && x != nodeI ==> root[x] == Vacant
    {
      if maxI < nodeI {
        var newMaxI := FindMaxI(nodeI);
        ghost var s := root;
        root := root + seq(newMaxI - maxI, _ => Garbage);
        for i := maxI + 1 to newMaxI + 1
          invariant |root| == newMaxI + 1 && root[..|s|] == s
          invariant forall x :: |s| <= x < i ==> root[x] == Vacant
          invariant forall x :: i <= x <= newMaxI ==> root[x] == Garbage
        {
          root := root[i := root[i].(valid := false)];
        }
        maxI := newMaxI;
        assert root == Grown(s, nodeI);
      }
      root := root[nodeI := root[nodeI].(valid := true)];
    }

    /** `find_mm_node`: follows the search path for `key` from slot `nodeI`.
        A live slot holding `key` is returned; at the first dead slot a node
        for `key` is created when `create` is set, and also when that slot
        is the root, whatever `create` says; otherwise -1 (NULL). */
    method FindNode(key: int, nodeI: nat, create: bool) returns (r: int)
      requires Valid()
      requires Search(root, key, nodeI) == Search(root, key, 0)
      requires create ==> Search(root, key, 0) <= MAX_INDEX
      modifies this
      ensures Valid() && Found(old(root), key, create, r, root)
      decreases Rank(root, nodeI)
    {
      ghost var s := root;
      if nodeI > maxI || !root[nodeI].valid {
        if nodeI == 0 || create {
          AllocNode(nodeI);
          root := root[nodeI := root[nodeI].(key := key)];
          assert root == Placed(s, nodeI, key);
          PlacedValid(s, key);
          r := nodeI;
          assert Found(s, key, create, r, root);
          return;
        }
        r := -1;
        assert Found(s, key, create, r, root);
        return;
      }
      if root[nodeI].key == key {
        r := nodeI;
        assert Found(s, key, create, r, root);
        return;
      }
      var childI := 2 * nodeI + 1 + (if root[nodeI].key < key then 1 else 0);
      assert childI == if root[nodeI].key < key then Right(nodeI) else Left(nodeI);
      assert Search(root, key, childI) == Search(root, key, nodeI);
      r := FindNode(key, childI, create);
    }

    /** `mm_add_value`: finds or creates the node for `key` and appends
        `value` to its list. */
    method AddValue(key: int, value: int)
      requires Valid() && Search(root, key, 0) <= MAX_INDEX
      modifies this
      ensures Valid()
      ensures Items() == old(Items())[key := Get(old(Items()), key) + [value]]
      ensures maxI == old(maxI) || maxI == 2 * old(maxI) + 2
    {
      ghost var s0 := root;
      var node := FindNode(key, 0, true);
      FoundItems(s0, key, true, node, root);
      Added(s0, key, node, root, value);
      root := root[node := root[node].(values := root[node].values + [value])];
    }

    /** `mm_contains_key`: whether `key` has a node. On an empty multimap the
        lookup creates the root for `key`, so the answer is yes. */
    method ContainsKey(key: int) returns (found: bool)
      requires Valid()
      modifies this
      ensures Valid()
      ensures found <==> key in old(Items()) || old(Items()) == map[]
      ensures Items() == if old(Items()) == map[] then map[key := []] else old(Items())
    {
      EmptySubtree(root, 0);
      ghost var s0 := root;
      var node := FindNode(key, 0, false);
      FoundItems(s0, key, false, node, root);
      found := node != -1;
    }

    /** `mm_contains_pair`: whether `value` is in the list of `key`. On an
        empty multimap the lookup creates the root for `key` as in
        `mm_contains_key`. */
    method ContainsPair(key: int, value: int) returns (found: bool)
      requires Valid()
      modifies this
      ensures Valid()
      ensures found <==> key in old(Items()) && value in old(Items())[key]
      ensures Items() == if old(Items()) == map[] then map[key := []] else old(Items())
    {
      EmptySubtree(root, 0);
      ghost var s0 := root;
      var node := FindNode(key, 0, false);
      FoundItems(s0, key, false, node, root);
      if node == -1 {
        return false;
      }
      found := Scan(root[node].values, value);
    }

    /** The search `find_mm_node` makes when it creates nothing: the live
        slot in the subtree at `nodeI` that holds `key`, or -1. */
    method Locate(key: int, nodeI: nat) returns (r: int)
      requires |root| == maxI + 1 && Bst(root, nodeI)
      ensures r >= 0 <==> key in Contents(root, nodeI)
      ensures r >= 0 ==> r < |root| && root[r].key == key && root[r].values == Contents(root, nodeI)[key]
      decreases Rank(root, nodeI)
    {
      if nodeI > maxI || !root[nodeI].valid {
        return -1;
      }
      SearchCorrect(root, key, nodeI);
      if root[nodeI].key == key {
        return nodeI;
      }
      var childI := 2 * nodeI + 1 + (if root[nodeI].key < key then 1 else 0);
      SearchCorrect(root, key, childI);
      r := Locate(key, childI);
    }

    /** `mm_contains_key` as its comment describes it: whether `key` has a
        node, creating nothing. */
    method HasKey(key: int) returns (found: bool)
      requires Valid()
      ensures found <==> key in Items()
    {
      var node := Locate(key, 0);
      found := node >= 0;
    }

    /** `mm_contains_pair` over a lookup that creates nothing. */
    method HasPair(key: int, value: int) returns (found: bool)
      requires Valid()
      ensures found <==> key in Items() && value in Items()[key]
    {
      var node := Locate(key, 0);
      if node < 0 {
        return false;
      }
      found := Scan(root[node].values, value);
    }

    /** `mm_traverse_helper`: the pairs of the subtree at `nodeI` in order,
        the left subtree first, then the node's values, then the right
        subtree. */
    method TraverseHelper(nodeI: nat) returns (out: seq<(int, int)>)
      requires |root| == maxI + 1
      ensures out == InOrder(root, nodeI)
      decreases Rank(root, nodeI)
    {
      if nodeI > maxI || !root[nodeI].valid {
        return [];
      }
      var node := root[nodeI];
      var left := TraverseHelper(2 * nodeI + 1);
      var mid := [];
      var i := 0;
      while i < |node.values|
        invariant 0 <= i <= |node.values|
        invariant mid == Pairs(node.key, node.values[..i])
      {
        mid := mid + [(node.key, node.values[i])];
        i := i + 1;
      }
      assert node.values[..i] == node.values;
      var right := TraverseHelper(2 * nodeI + 2);
      out := left + mid + right;
    }

    /** `mm_traverse`: every (key, value) pair, keys non-decreasing (so each
        key's pairs are contiguous), and each key's values in the order they
        were added. */
    method Traverse() returns (out: seq<(int, int)>)
      requires Valid()
      ensures out == InOrder(root, 0)
      ensures SortedKeys(out)
      ensures forall k :: ValuesFor(out, k) == Get(Items(), k)
    {
      out := TraverseHelper(0);
      InOrderSorted(root, 0);
      forall k
        ensures ValuesFor(out, k) == Get(Items(), k)
      {
        InOrderValues(root, 0, k);
      }
    }
  }
}
