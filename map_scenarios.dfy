/** Concrete runs of the multimap. */
module MapScenarios {
  import opened Tree
  import opened MultiMap

  /** `findMaxI(5)` is 6: a tree with slot 5 needs seven slots. */
  method FindMaxIFive() returns (r: int)
    ensures r == 6
  {
    r := FindMaxI(5);
  }

  /** `mm_contains_key` on a new multimap answers yes, and afterwards the
      key is there: the lookup created the root for it. */
  method EmptyLookupInserts() returns (found: bool, after: bool)
    ensures found && after
  {
    var mm := new MultiMap();
    found := mm.ContainsKey(7);
    after := mm.HasKey(7);
  }

  /** The lookup that creates nothing answers no on a new multimap and
      leaves it empty. */
  method EmptyLookupCorrected() returns (found: bool, after: bool)
    ensures !found && !after
  {
    var mm := new MultiMap();
    found := mm.HasKey(7);
    after := mm.HasKey(7);
  }

  /** One `mm_add_value` on a multimap of at most fifteen slots: the key
      gains the value and the slot count at most doubles. */
  method Add(mm: MultiMap, key: int, value: int, ghost before: map<int, seq<int>>)
    requires mm.Valid() && mm.maxI <= 14 && mm.Items() == before
    modifies mm
    ensures mm.Valid() && mm.maxI <= 2 * old(mm.maxI) + 2
    ensures mm.Items() == before[key := Get(before, key) + [value]]
  {
    SearchBound(mm.root, key);
    mm.AddValue(key, value);
  }

  /** Adds (5, 1) and (3, 2) to a new multimap. */
  method HalfFilled() returns (mm: MultiMap)
    ensures fresh(mm) && mm.Valid() && mm.maxI <= 2
    ensures mm.Items() == map[5 := [1], 3 := [2]]
  {
    mm := new MultiMap();
    Add(mm, 5, 1, map[]);
    assert Get(map[], 5) + [1] == [1];
    assert map[][5 := Get(map[], 5) + [1]] == map[5 := [1]];
    Add(mm, 3, 2, map[5 := [1]]);
    assert Get(map[5 := [1]], 3) + [2] == [2];
    assert map[5 := [1]][3 := Get(map[5 := [1]], 3) + [2]] == map[5 := [1], 3 := [2]];
  }

  /** Then adds (8, 3): a third key. */
  method ThreeKeys() returns (mm: MultiMap)
    ensures fresh(mm) && mm.Valid() && mm.maxI <= 6
    ensures mm.Items() == map[5 := [1], 3 := [2], 8 := [3]]
  {
    mm := HalfFilled();
    Add(mm, 8, 3, map[5 := [1], 3 := [2]]);
    assert Get(map[5 := [1], 3 := [2]], 8) + [3] == [3];
    assert map[5 := [1], 3 := [2]][8 := [3]] == map[5 := [1], 3 := [2], 8 := [3]];
  }

  /** Then adds (5, 4): a second value for a key already there. */
  method Filled() returns (mm: MultiMap)
    ensures fresh(mm) && mm.Valid() && mm.maxI <= 14
    ensures mm.Items() == map[5 := [1, 4], 3 := [2], 8 := [3]]
  {
    mm := ThreeKeys();
    Add(mm, 5, 4, map[5 := [1], 3 := [2], 8 := [3]]);
    assert Get(map[5 := [1], 3 := [2], 8 := [3]], 5) + [4] == [1, 4];
    ghost var m := map[5 := [1], 3 := [2], 8 := [3]][5 := [1, 4]];
    assert m.Keys == {5, 3, 8} && m[5] == [1, 4] && m[3] == [2] && m[8] == [3];
    assert m == map[5 := [1, 4], 3 := [2], 8 := [3]];
  }

  /** Queries on the filled multimap, and its traversal: keys ascending,
      each key's values in the order they were added. */
  method FilledQueries() returns (pair54: bool, pair52: bool, key4: bool, out: seq<(int, int)>)
    ensures pair54 && !pair52 && !key4
    ensures SortedKeys(out)
    ensures ValuesFor(out, 3) == [2] && ValuesFor(out, 5) == [1, 4] && ValuesFor(out, 8) == [3]
    ensures ValuesFor(out, 4) == []
  {
    var mm := Filled();
    pair54 := mm.ContainsPair(5, 4);
    pair52 := mm.ContainsPair(5, 2);
    key4 := mm.ContainsKey(4);
    out := mm.Traverse();
  }
}
