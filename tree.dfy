/** The array encoding of the multimap's binary search tree: slot `i` holds a
    node, its children sit in slots `2i + 1` and `2i + 2`, and a slot past
    the end of the array or marked invalid ends a branch. Everything here is
    pure: the search path of a key, the keys and contents of a subtree, the
    search-tree order, the in-order traversal and the complete-tree sizes the
    array grows to. */
module Tree {

  /** One slot of the array: `valid`, `key` and the key's value list. */
  datatype Node = Node(valid: bool, key: int, values: seq<int>)

  /** An invalid slot as the model keeps it. */
  const Vacant: Node := Node(false, 0, [])

  /** The largest index 32-bit arithmetic can grow the array to: for larger
      indices `1 << depth` in `findMaxI` overflows an `int`. */
  const MAX_INDEX: int := 0x3FFF_FFFE

  function Left(i: nat): nat { 2 * i + 1 }
  function Right(i: nat): nat { 2 * i + 2 }
  function Parent(i: nat): nat requires i > 0 { (i - 1) / 2 }

  /** The slot `i` holds a node: `!(nodeI > maxI || valid == 0)`. */
  predicate Live(s: seq<Node>, i: nat)
  {
    i < |s| && s[i].valid
  }

  /** Slot `i`, with the slots past the end read as vacant. */
  function At(s: seq<Node>, i: nat): Node
  {
    if i < |s| then s[i] else Vacant
  }

  function Rank(s: seq<Node>, i: nat): nat
  {
    if i < |s| then |s| - i else 0
  }

  /** The slot where the search for `k` from slot `i` stops: a live slot
      holding `k`, or the first dead slot on the path. */
  function Search(s: seq<Node>, k: int, i: nat): (j: nat)
    ensures j >= i
    decreases Rank(s, i)
  {
    if !Live(s, i) || s[i].key == k then i
    else Search(s, k, if s[i].key < k then Right(i) else Left(i))
  }

  /** The keys stored in the subtree rooted at slot `i`. */
  ghost function Keys(s: seq<Node>, i: nat): set<int>
    decreases Rank(s, i)
  {
    if !Live(s, i) then {} else {s[i].key} + Keys(s, Left(i)) + Keys(s, Right(i))
  }

  /** What the subtree rooted at slot `i` maps each of its keys to. */
  ghost function Contents(s: seq<Node>, i: nat): map<int, seq<int>>
    decreases Rank(s, i)
  {
    if !Live(s, i) then map[]
    else Contents(s, Left(i)) + Contents(s, Right(i)) + map[s[i].key := s[i].values]
  }

  /** The values `k` has in `c`: none when `k` is absent. */
  function Get(c: map<int, seq<int>>, k: int): seq<int>
  {
    if k in c then c[k] else []
  }

  /** Search-tree order: every key in a left subtree is smaller than the key
      above it, every key in a right subtree larger. */
  ghost predicate Bst(s: seq<Node>, i: nat)
    decreases Rank(s, i)
  {
    Live(s, i) ==>
      && (forall x :: x in Keys(s, Left(i)) ==> x < s[i].key)
      && (forall x :: x in Keys(s, Right(i)) ==> s[i].key < x)
      && Bst(s, Left(i)) && Bst(s, Right(i))
  }

  /** Every live slot's parent is live. */
  ghost predicate Closed(s: seq<Node>)
  {
    forall x :: 0 < x < |s| && s[x].valid ==> Live(s, Parent(x))
  }

  /** Every dead slot is vacant. */
  ghost predicate Vacated(s: seq<Node>)
  {
    forall x :: 0 <= x < |s| && !s[x].valid ==> s[x] == Vacant
  }

  /** Slot `j` lies in the subtree rooted at slot `i`. */
  predicate InSubtree(j: nat, i: nat)
    decreases j
  {
    j == i || (j > i && InSubtree(Parent(j), i))
  }

  /** `t` equals `s` at every slot but `j`. */
  ghost predicate SameBut(s: seq<Node>, t: seq<Node>, j: nat)
  {
    forall x: nat :: x != j ==> At(t, x) == At(s, x)
  }

  /** The pairs `mm_traverse` passes to its callback for one node. */
  function Pairs(k: int, vs: seq<int>): (t: seq<(int, int)>)
    ensures |t| == |vs| && forall p :: 0 <= p < |vs| ==> t[p] == (k, vs[p])
  {
    seq(|vs|, p requires 0 <= p < |vs| => (k, vs[p]))
  }

  /** The in-order traversal of the subtree rooted at slot `i`: the left
      subtree, the node's own values, the right subtree. */
  function InOrder(s: seq<Node>, i: nat): seq<(int, int)>
    decreases Rank(s, i)
  {
    if !Live(s, i) then []
    else InOrder(s, Left(i)) + Pairs(s[i].key, s[i].values) + InOrder(s, Right(i))
  }

  /** The values paired with `k` in `t`, in order. */
  function ValuesFor(t: seq<(int, int)>, k: int): seq<int>
  {
    if t == [] then [] else (if t[0].0 == k then [t[0].1] else []) + ValuesFor(t[1..], k)
  }

  /** The keys of `t` never decrease. */
  predicate SortedKeys(t: seq<(int, int)>)
  {
    forall p, q :: 0 <= p < q < |t| ==> t[p].0 <= t[q].0
  }

  // ---------------------------------------------------------------------
  // Slot arithmetic

  lemma {:induction false} ChildInSubtree(j: nat, i: nat, c: nat)
    requires c == Left(i) || c == Right(i)
    requires InSubtree(j, c)
    ensures InSubtree(j, i)
    decreases j
  {
    if j != c {
      ChildInSubtree(Parent(j), i, c);
    }
  }

  /** The subtrees of the two children of a slot share no slot. */
  lemma {:induction false} ChildrenDisjoint(j: nat, i: nat)
    ensures !(InSubtree(j, Left(i)) && InSubtree(j, Right(i)))
    decreases j
  {
    if InSubtree(j, Left(i)) && InSubtree(j, Right(i)) {
      ChildrenDisjoint(Parent(j), i);
    }
  }

  // ---------------------------------------------------------------------
  // The search path

  /** The search stops inside the subtree it starts from. */
  lemma {:induction false} SearchInSubtree(s: seq<Node>, k: int, i: nat)
    ensures InSubtree(Search(s, k, i), i)
    decreases Rank(s, i)
  {
    if Live(s, i) && s[i].key != k {
      var c := if s[i].key < k then Right(i) else Left(i);
      SearchInSubtree(s, k, c);
      ChildInSubtree(Search(s, k, c), i, c);
    }
  }

  /** Where the search stops below its start, the slot above is live: a new
      node is always hung under an existing one. */
  lemma {:induction false} SearchParent(s: seq<Node>, k: int, i: nat)
    ensures var j := Search(s, k, i); j == i || (j > 0 && Live(s, Parent(j)))
    decreases Rank(s, i)
  {
    if Live(s, i) && s[i].key != k {
      var c := if s[i].key < k then Right(i) else Left(i);
      SearchParent(s, k, c);
    }
  }

  /** The search from the root stops at most one level below the array. */
  lemma SearchBound(s: seq<Node>, k: int)
    ensures Search(s, k, 0) <= 2 * |s|
  {
    SearchParent(s, k, 0);
  }

  /** A subtree holds a node exactly when its root slot is live. */
  lemma EmptySubtree(s: seq<Node>, i: nat)
    ensures Contents(s, i) == map[] <==> !Live(s, i)
  {
    if Live(s, i) {
      assert s[i].key in Contents(s, i);
    }
  }

  /** The keys of a subtree are the keys its contents map. */
  lemma {:induction false} ContentsKeys(s: seq<Node>, i: nat)
    ensures Contents(s, i).Keys == Keys(s, i)
    decreases Rank(s, i)
  {
    if Live(s, i) {
      ContentsKeys(s, Left(i));
      ContentsKeys(s, Right(i));
    }
  }

  /** In a search tree the search for `k` stops at a live slot exactly when
      `k` is one of the subtree's keys; that slot holds `k` and its values are
      the ones the subtree maps `k` to. */
  lemma {:induction false} SearchCorrect(s: seq<Node>, k: int, i: nat)
    requires Bst(s, i)
    ensures var j := Search(s, k, i);
      && (Live(s, j) <==> k in Contents(s, i))
      && (Live(s, j) ==> s[j].key == k && Contents(s, i)[k] == s[j].values)
    decreases Rank(s, i)
  {
    if Live(s, i) && s[i].key != k {
      ContentsKeys(s, Left(i));
      ContentsKeys(s, Right(i));
      if s[i].key < k {
        SearchCorrect(s, k, Right(i));
        assert k !in Keys(s, Left(i));
      } else {
        SearchCorrect(s, k, Left(i));
        assert k !in Keys(s, Right(i));
      }
    }
  }

  // ---------------------------------------------------------------------
  // Changing one slot

  /** A subtree that does not contain slot `j` is not affected by a change
      to slot `j`. */
  lemma {:induction false} FrameSubtree(s: seq<Node>, t: seq<Node>, j: nat, x: nat)
    requires SameBut(s, t, j) && !InSubtree(j, x)
    ensures Keys(t, x) == Keys(s, x) && Contents(t, x) == Contents(s, x)
    ensures Bst(t, x) == Bst(s, x) && InOrder(t, x) == InOrder(s, x)
    decreases Rank(s, x)
  {
    assert At(t, x) == At(s, x);
    if Live(s, x) {
      if InSubtree(j, Left(x)) {
        ChildInSubtree(j, x, Left(x));
      }
      if InSubtree(j, Right(x)) {
        ChildInSubtree(j, x, Right(x));
      }
      FrameSubtree(s, t, j, Left(x));
      FrameSubtree(s, t, j, Right(x));
    }
  }

  /** The children of a dead slot are dead in a closed array. */
  lemma DeadChildren(s: seq<Node>, j: nat)
    requires Closed(s) && !Live(s, j)
    ensures !Live(s, Left(j)) && !Live(s, Right(j))
  {
    assert Parent(Left(j)) == j && Parent(Right(j)) == j;
  }

  /** Updating key `k` in the right subtree of a node, or adding it there,
      updates it in the whole subtree. */
  lemma UpdateRight(L: map<int, seq<int>>, R: map<int, seq<int>>, key: int, v: seq<int>, k: int, vs: seq<int>)
    requires k !in L && k != key
    ensures L + R[k := vs] + map[key := v] == (L + R + map[key := v])[k := vs]
  {
  }

  /** Updating key `k` in the left subtree of a node, or adding it there,
      updates it in the whole subtree. */
  lemma UpdateLeft(L: map<int, seq<int>>, R: map<int, seq<int>>, key: int, v: seq<int>, k: int, vs: seq<int>)
    requires k !in R && k != key
    ensures L[k := vs] + R + map[key := v] == (L + R + map[key := v])[k := vs]
  {
  }

  /** Replacing the values of a node's own key. */
  lemma UpdateTop(L: map<int, seq<int>>, R: map<int, seq<int>>, k: int, v: seq<int>, vs: seq<int>)
    ensures (L + R + map[k := v])[k := vs] == L + R + map[k := vs]
  {
  }

  /** The slot where the search stops, written with a live node for `k`. */
  lemma SettleHere(s: seq<Node>, t: seq<Node>, k: int, vs: seq<int>, j: nat)
    requires Bst(s, j) && Closed(s)
    requires !Live(s, j) || s[j].key == k
    requires SameBut(s, t, j) && At(t, j) == Node(true, k, vs)
    ensures Bst(t, j)
    ensures Contents(t, j) == Contents(s, j)[k := vs]
    ensures Keys(t, j) == Keys(s, j) + {k}
    ensures Search(t, k, j) == j
  {
    FrameSubtree(s, t, j, Left(j));
    FrameSubtree(s, t, j, Right(j));
    assert At(t, j) == t[j];
    if !Live(s, j) {
      DeadChildren(s, j);
      assert Contents(t, j) == map[k := vs];
      assert Contents(s, j)[k := vs] == map[k := vs];
    } else {
      assert Contents(t, j) == Contents(s, Left(j)) + Contents(s, Right(j)) + map[k := vs];
      UpdateTop(Contents(s, Left(j)), Contents(s, Right(j)), k, s[j].values, vs);
    }
  }

  /** Writing a live node with key `k` and values `vs` into the slot where
      the search for `k` stops, whether it was dead (a new key) or held `k`
      already, keeps the search-tree order and maps `k` to `vs`; no other
      key changes, and the search then stops at that slot. */
  lemma {:induction false} Settle(s: seq<Node>, t: seq<Node>, k: int, vs: seq<int>, i: nat)
    requires Bst(s, i) && Closed(s)
    requires var j := Search(s, k, i); SameBut(s, t, j) && At(t, j) == Node(true, k, vs)
    ensures Bst(t, i)
    ensures Contents(t, i) == Contents(s, i)[k := vs]
    ensures Keys(t, i) == Keys(s, i) + {k}
    ensures Search(t, k, i) == Search(s, k, i)
    decreases Rank(s, i)
  {
    var j := Search(s, k, i);
    if j == i {
      SettleHere(s, t, k, vs, j);
    } else {
      assert At(t, i) == At(s, i);
      var key := s[i].key;
      var c, d := if key < k then Right(i) else Left(i), if key < k then Left(i) else Right(i);
      Settle(s, t, k, vs, c);
      SearchInSubtree(s, k, c);
      ChildrenDisjoint(j, i);
      FrameSubtree(s, t, j, d);
      ContentsKeys(s, d);
      if key < k {
        SettleRight(s, t, k, vs, i);
      } else {
        SettleLeft(s, t, k, vs, i);
      }
    }
  }

  /** One step up the search path, from the right child. */
  lemma SettleRight(s: seq<Node>, t: seq<Node>, k: int, vs: seq<int>, i: nat)
    requires Live(s, i) && Bst(s, i) && s[i].key < k && At(t, i) == At(s, i)
    requires Bst(t, Right(i)) && Contents(t, Right(i)) == Contents(s, Right(i))[k := vs]
    requires Keys(t, Right(i)) == Keys(s, Right(i)) + {k}
    requires Keys(t, Left(i)) == Keys(s, Left(i)) && Contents(t, Left(i)) == Contents(s, Left(i))
    requires Bst(t, Left(i)) == Bst(s, Left(i)) && Contents(s, Left(i)).Keys == Keys(s, Left(i))
    ensures Bst(t, i)
    ensures Contents(t, i) == Contents(s, i)[k := vs]
    ensures Keys(t, i) == Keys(s, i) + {k}
  {
    assert t[i] == s[i];
    UpdateRight(Contents(s, Left(i)), Contents(s, Right(i)), s[i].key, s[i].values, k, vs);
  }

  /** One step up the search path, from the left child. */
  lemma SettleLeft(s: seq<Node>, t: seq<Node>, k: int, vs: seq<int>, i: nat)
    requires Live(s, i) && Bst(s, i) && k < s[i].key && At(t, i) == At(s, i)
    requires Bst(t, Left(i)) && Contents(t, Left(i)) == Contents(s, Left(i))[k := vs]
    requires Keys(t, Left(i)) == Keys(s, Left(i)) + {k}
    requires Keys(t, Right(i)) == Keys(s, Right(i)) && Contents(t, Right(i)) == Contents(s, Right(i))
    requires Bst(t, Right(i)) == Bst(s, Right(i)) && Contents(s, Right(i)).Keys == Keys(s, Right(i))
    ensures Bst(t, i)
    ensures Contents(t, i) == Contents(s, i)[k := vs]
    ensures Keys(t, i) == Keys(s, i) + {k}
  {
    assert t[i] == s[i];
    UpdateLeft(Contents(s, Left(i)), Contents(s, Right(i)), s[i].key, s[i].values, k, vs);
  }

  /** The dead children of a settled slot keep the array closed, and the
      slot it hangs under is live. */
  lemma SettleClosed(s: seq<Node>, t: seq<Node>, j: nat)
    requires Closed(s) && SameBut(s, t, j) && At(t, j).valid
    requires j == 0 || Live(s, Parent(j))
    ensures Closed(t)
  {
    forall x | 0 < x < |t| && t[x].valid
      ensures Live(t, Parent(x))
    {
      assert At(t, x) == t[x];
      if x != j {
        assert At(t, x) == At(s, x);
        if Parent(x) != j {
          assert At(t, Parent(x)) == At(s, Parent(x));
        }
      } else {
        assert At(t, Parent(j)) == At(s, Parent(j));
      }
    }
  }

  // ---------------------------------------------------------------------
  // Traversal

  lemma {:induction false} ValuesForAppend(a: seq<(int, int)>, b: seq<(int, int)>, k: int)
    ensures ValuesFor(a + b, k) == ValuesFor(a, k) + ValuesFor(b, k)
  {
    if a == [] {
      assert a + b == b;
    } else {
      ValuesForAppend(a[1..], b, k);
      assert (a + b)[0] == a[0] && (a + b)[1..] == a[1..] + b;
    }
  }

  lemma {:induction false} ValuesForPairs(key: int, vs: seq<int>, k: int)
    ensures ValuesFor(Pairs(key, vs), k) == if key == k then vs else []
  {
    if vs != [] {
      ValuesForPairs(key, vs[1..], k);
      assert Pairs(key, vs)[1..] == Pairs(key, vs[1..]);
    }
  }

  lemma {:induction false} ValuesForAbsent(t: seq<(int, int)>, k: int)
    requires forall p :: 0 <= p < |t| ==> t[p].0 != k
    ensures ValuesFor(t, k) == []
  {
    if t != [] {
      assert forall p :: 0 <= p < |t| - 1 ==> t[1..][p] == t[p + 1];
      ValuesForAbsent(t[1..], k);
    }
  }

  /** Every key the traversal of a subtree visits is one of its keys. */
  lemma {:induction false} InOrderKeys(s: seq<Node>, i: nat)
    ensures forall p :: 0 <= p < |InOrder(s, i)| ==> InOrder(s, i)[p].0 in Keys(s, i)
    decreases Rank(s, i)
  {
    if Live(s, i) {
      InOrderKeys(s, Left(i));
      InOrderKeys(s, Right(i));
      var a, m, b := InOrder(s, Left(i)), Pairs(s[i].key, s[i].values), InOrder(s, Right(i));
      assert InOrder(s, i) == a + m + b;
      forall p | 0 <= p < |a + m + b|
        ensures (a + m + b)[p].0 in Keys(s, i)
      {
        if p < |a| {
          assert (a + m + b)[p] == a[p];
        } else if p < |a| + |m| {
          assert (a + m + b)[p] == m[p - |a|];
        } else {
          assert (a + m + b)[p] == b[p - |a| - |m|];
        }
      }
    }
  }

  /** The traversal of a search tree visits keys in ascending order: the
      pairs of one key are adjacent and come before those of larger keys. */
  lemma {:induction false} InOrderSorted(s: seq<Node>, i: nat)
    requires Bst(s, i)
    ensures SortedKeys(InOrder(s, i))
    decreases Rank(s, i)
  {
    if Live(s, i) {
      InOrderSorted(s, Left(i));
      InOrderSorted(s, Right(i));
      InOrderKeys(s, Left(i));
      InOrderKeys(s, Right(i));
      var key := s[i].key;
      var a, m, b := InOrder(s, Left(i)), Pairs(key, s[i].values), InOrder(s, Right(i));
      var t := a + m + b;
      assert InOrder(s, i) == t;
      assert forall p :: 0 <= p < |a| ==> a[p].0 < key;
      assert forall p :: 0 <= p < |b| ==> key < b[p].0;
      forall p, q | 0 <= p < q < |t|
        ensures t[p].0 <= t[q].0
      {
        var kp := if p < |a| then a[p].0 else if p < |a| + |m| then key else b[p - |a| - |m|].0;
        var kq := if q < |a| then a[q].0 else if q < |a| + |m| then key else b[q - |a| - |m|].0;
        assert t[p].0 == kp && t[q].0 == kq;
      }
    }
  }

  lemma ValuesForSplit(a: seq<(int, int)>, m: seq<(int, int)>, b: seq<(int, int)>, k: int)
    ensures ValuesFor(a + m + b, k) == ValuesFor(a, k) + ValuesFor(m, k) + ValuesFor(b, k)
  {
    ValuesForAppend(a + m, b, k);
    ValuesForAppend(a, m, k);
  }

  lemma GetUnion(L: map<int, seq<int>>, R: map<int, seq<int>>, key: int, v: seq<int>, k: int)
    ensures Get(L + R + map[key := v], k) == if k == key then v else if k in R then R[k] else Get(L, k)
  {
  }

  /** Keys outside a subtree have no values in its traversal. */
  lemma InOrderAbsent(s: seq<Node>, i: nat, k: int)
    requires k !in Keys(s, i)
    ensures ValuesFor(InOrder(s, i), k) == []
  {
    InOrderKeys(s, i);
    ValuesForAbsent(InOrder(s, i), k);
  }

  /** The traversal of a search tree visits each key's values exactly as
      the key's list holds them, in insertion order. */
  lemma {:induction false} InOrderValues(s: seq<Node>, i: nat, k: int)
    requires Bst(s, i)
    ensures ValuesFor(InOrder(s, i), k) == Get(Contents(s, i), k)
    decreases Rank(s, i)
  {
    if Live(s, i) {
      var key := s[i].key;
      InOrderValues(s, Left(i), k);
      InOrderValues(s, Right(i), k);
      ValuesForSplit(InOrder(s, Left(i)), Pairs(key, s[i].values), InOrder(s, Right(i)), k);
      ValuesForPairs(key, s[i].values, k);
      GetUnion(Contents(s, Left(i)), Contents(s, Right(i)), key, s[i].values, k);
      ContentsKeys(s, Left(i));
      ContentsKeys(s, Right(i));
      if k < key {
        InOrderAbsent(s, Right(i), k);
      } else if key < k {
        InOrderAbsent(s, Left(i), k);
      } else {
        InOrderAbsent(s, Left(i), k);
        InOrderAbsent(s, Right(i), k);
      }
    }
  }

  // ---------------------------------------------------------------------
  // Complete-tree sizes

  function Pow2(e: nat): (r: nat)
    ensures r >= 1
  {
    if e == 0 then 1 else 2 * Pow2(e - 1)
  }

  /** The number of times `n` can be halved before it reaches zero. */
  function BitLength(n: nat): nat
  {
    if n == 0 then 0 else 1 + BitLength(n / 2)
  }

  lemma {:induction false} BitLengthBounds(n: nat)
    requires n >= 1
    ensures BitLength(n) >= 1 && Pow2(BitLength(n) - 1) <= n < Pow2(BitLength(n))
  {
    if n >= 2 {
      BitLengthBounds(n / 2);
    }
  }

  lemma {:induction false} Pow2Monotone(a: nat, b: nat)
    requires a <= b
    ensures Pow2(a) <= Pow2(b)
    decreases b
  {
    if a < b {
      Pow2Monotone(a, b - 1);
    }
  }

  lemma {:induction false} BitLengthAt(n: nat, e: nat)
    requires e >= 1 && Pow2(e - 1) <= n < Pow2(e)
    ensures BitLength(n) == e
  {
    BitLengthBounds(n);
    var b := BitLength(n);
    if b < e {
      Pow2Monotone(b, e - 1);
    } else if b > e {
      Pow2Monotone(e, b - 1);
    }
  }

  /** The largest index of the smallest complete tree that has slot `i`:
      what `findMaxI(i)` returns. */
  function CompleteMax(i: nat): int
  {
    Pow2(BitLength(i + 1)) - 2
  }

  /** `CompleteMax(i)` is at least `i`, two less than a power of two, and the
      least such number. */
  lemma CompleteMaxLeast(i: nat)
    ensures CompleteMax(i) >= i
    ensures CompleteMax(i) + 2 == Pow2(BitLength(i + 1))
    ensures forall e: nat :: Pow2(e) - 2 >= i ==> CompleteMax(i) <= Pow2(e) - 2
  {
    BitLengthBounds(i + 1);
    forall e: nat | Pow2(e) - 2 >= i
      ensures CompleteMax(i) <= Pow2(e) - 2
    {
      Pow2Least(BitLength(i + 1), e, i);
    }
  }

  lemma Pow2Least(b: nat, e: nat, i: nat)
    requires b >= 1 && Pow2(b - 1) <= i + 1 && i + 2 <= Pow2(e)
    ensures Pow2(b) <= Pow2(e)
  {
    if e < b {
      Pow2Monotone(e, b - 1);
      assert false;
    }
    Pow2Monotone(b, e);
  }

  /** A complete tree's largest index is its own complete size. */
  lemma CompleteMaxFixed(i: nat)
    ensures CompleteMax(CompleteMax(i)) == CompleteMax(i)
  {
    CompleteMaxLeast(i);
    var b := BitLength(i + 1);
    BitLengthBounds(i + 1);
    assert Pow2(b) == 2 * Pow2(b - 1);
    BitLengthAt(Pow2(b) - 1, b);
  }

  lemma {:induction false} Pow2Add(a: nat, b: nat)
    ensures Pow2(a + b) == Pow2(a) * Pow2(b)
    decreases a
  {
    if a > 0 {
      Pow2Add(a - 1, b);
    }
  }

  lemma Pow2Thirty()
    ensures Pow2(30) == MAX_INDEX + 2
  {
    assert Pow2(1) == 2 && Pow2(2) == 4 && Pow2(3) == 8 && Pow2(4) == 16 && Pow2(5) == 32;
    Pow2Add(5, 5);
    assert Pow2(10) == 1024;
    Pow2Add(10, 10);
    assert Pow2(20) == 1048576;
    Pow2Add(20, 10);
    assert Pow2(30) == 1048576 * 1024;
  }

  /** Growing a complete tree of `n` slots to hold a slot `j` at most one
      level below it adds exactly one level. */
  lemma GrowOneLevel(n: nat, j: nat)
    requires n == 0 || CompleteMax(n - 1) == n - 1
    requires n <= j <= 2 * n
    ensures CompleteMax(j) + 1 == 2 * n + 1
  {
    if n > 0 {
      var b := BitLength(n);
      assert Pow2(b) == n + 1;
      assert Pow2(b + 1) == 2 * Pow2(b);
      BitLengthAt(j + 1, b + 1);
    }
  }

  /** Indices up to `MAX_INDEX` grow the array to at most `MAX_INDEX`. */
  lemma CompleteMaxBounded(i: nat)
    requires i <= MAX_INDEX
    ensures CompleteMax(i) <= MAX_INDEX
  {
    Pow2Thirty();
    CompleteMaxLeast(i);
    BitLengthBounds(i + 1);
    if BitLength(i + 1) > 30 {
      Pow2Monotone(30, BitLength(i + 1) - 1);
    }
    Pow2Monotone(BitLength(i + 1), 30);
  }
}
