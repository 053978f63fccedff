/** The allocator's state seen abstractly, as the block layout together with
    the free list in list order, and what `myalloc` and `myfree` do to it. */
module Pool {
  import opened Bytes
  import opened Layout

  ghost predicate Distinct(s: seq<int>)
  {
    forall a, b :: 0 <= a < b < |s| ==> s[a] != s[b]
  }

  /** `s` without the first occurrence of `x`. */
  function Remove(s: seq<int>, x: int): (r: seq<int>)
  {
    if s == [] then [] else if s[0] == x then s[1..] else [s[0]] + Remove(s[1..], x)
  }

  /** The list after unlinking position `k` of `s`. */
  function Unlinked(s: seq<int>, k: int): seq<int>
    requires 0 <= k < |s|
  {
    s[..k] + s[k + 1..]
  }

  function Elems(s: seq<int>): set<int>
  {
    set x | x in s
  }

  lemma {:induction false} RemoveAtIndex(s: seq<int>, k: int)
    requires 0 <= k < |s| && Distinct(s)
    ensures Remove(s, s[k]) == Unlinked(s, k)
  {
    if k > 0 {
      RemoveAtIndex(s[1..], k - 1);
      assert s[1..][..k - 1] == s[1..k];
      assert s[1..][k - 1 + 1..] == s[k + 1..];
      assert [s[0]] + s[1..k] == s[..k];
    }
  }

  /** Removing an element of a duplicate-free list removes exactly it. */
  lemma {:induction false} RemoveElems(s: seq<int>, x: int)
    requires Distinct(s)
    ensures Distinct(Remove(s, x)) && Elems(Remove(s, x)) == Elems(s) - {x}
  {
    if s != [] {
      RemoveElems(s[1..], x);
      if s[0] != x {
        var r := Remove(s, x);
        assert r == [s[0]] + Remove(s[1..], x);
        assert s[0] !in Elems(s[1..]) by {
          assert forall j :: 1 <= j < |s| ==> s[j] != s[0];
        }
        assert s[0] !in Elems(Remove(s[1..], x));
        assert s[0] !in Remove(s[1..], x);
        assert Elems(r) == {s[0]} + Elems(Remove(s[1..], x));
        forall a, b | 0 <= a < b < |r|
          ensures r[a] != r[b]
        {
          if a == 0 {
            assert r[b] in Remove(s[1..], x);
          } else {
            assert r[a] == Remove(s[1..], x)[a - 1] && r[b] == Remove(s[1..], x)[b - 1];
          }
        }
        assert Elems(s) == {s[0]} + Elems(s[1..]);
      } else {
        assert forall j :: 1 <= j < |s| ==> s[j] != x;
        assert Elems(s) == {s[0]} + Elems(s[1..]);
      }
    }
  }

  /** Removing a value that is absent changes nothing. */
  lemma {:induction false} RemoveAbsent(s: seq<int>, x: int)
    requires x !in s
    ensures Remove(s, x) == s
  {
    if s != [] {
      RemoveAbsent(s[1..], x);
    }
  }

  /** Pushing a new element on a duplicate-free list keeps it duplicate-free. */
  lemma PushElems(s: seq<int>, x: int)
    requires Distinct(s) && x !in s
    ensures Distinct([x] + s) && Elems([x] + s) == Elems(s) + {x}
  {
    var l := [x] + s;
    forall a, b | 0 <= a < b < |l|
      ensures l[a] != l[b]
    {
      if a > 0 {
        assert l[a] == s[a - 1] && l[b] == s[b - 1];
      } else {
        assert l[b] in s;
      }
    }
  }

  /** The free list holds every free block exactly once and nothing else. */
  ghost predicate Listed(bs: seq<Block>, fl: seq<int>)
  {
    Distinct(fl) && Elems(fl) == FreeOffsets(bs)
  }

  /** The invariant of the pool between operations. */
  ghost predicate Inv(bs: seq<Block>, fl: seq<int>, n: int)
  {
    Wf(bs, n) && Listed(bs, fl) && NoAdjacentFree(bs)
  }

  /** The pool right after `init_myalloc`. */
  lemma InitInv(n: int)
    requires n >= MIN_PAYLOAD + OVERHEAD
    ensures Inv([Block(0, n - OVERHEAD, true)], [0], n)
  {
    var bs := [Block(0, n - OVERHEAD, true)];
    assert FreeOffsets(bs) == {0} by {
      assert bs[0].free && bs[0].off == 0;
    }
    assert Elems([0]) == {0};
  }

  // ---------------------------------------------------------------------
  // myalloc

  /** `MAX(size, sizeof(node) - sizeof(int))` for a non-negative request. */
  function Clamp(size: int): (k: int)
    ensures k >= size && k >= MIN_PAYLOAD && (k == size || k == MIN_PAYLOAD)
  {
    if size > MIN_PAYLOAD then size else MIN_PAYLOAD
  }

  /** The same `MAX` as C evaluates it: `sizeof` yields the unsigned 64-bit
      `size_t`, so a negative `size` is compared as `size + 2^64`, wins, and is
      converted back to the same negative `int`. */
  function ClampAsWritten(size: int): (k: int)
    requires IsInt32(size)
  {
    var u := if size < 0 then size + TWO64 else size;
    if u > MIN_PAYLOAD then size else MIN_PAYLOAD
  }

  /** For the sizes callers may pass the two agree. */
  lemma ClampAsWrittenAgrees(size: int)
    requires 0 <= size <= INT32_MAX
    ensures ClampAsWritten(size) == Clamp(size)
  {
  }

  /** A negative request stays negative: the block would get a payload
      below the 20 bytes a `node` needs, where the intended `MAX` gives 20. */
  lemma ClampAsWrittenNegative(size: int)
    requires INT32_MIN <= size < 0
    ensures ClampAsWritten(size) == size && ClampAsWritten(size) < MIN_PAYLOAD
    ensures Clamp(size) == MIN_PAYLOAD
  {
  }

  /** Whether allocating `k` bytes from block `b` splits it. */
  predicate Splits(b: Block, k: int)
  {
    b.space > k + SPLIT_SLACK
  }

  /** The layout after `myalloc` split the excess off the free block `i`, if any. */
  function SplitIf(bs: seq<Block>, i: int, k: int): seq<Block>
    requires 0 <= i < |bs|
  {
    if Splits(bs[i], k) then SplitAt(bs, i, k) else bs
  }

  /** The free list after `myalloc` pushed the split remainder, if any. */
  function PushIf(bs: seq<Block>, i: int, k: int, fl: seq<int>): seq<int>
    requires 0 <= i < |bs|
  {
    if Splits(bs[i], k) then [bs[i].off + k + OVERHEAD] + fl else fl
  }

  /** The layout after `myalloc` took `k` bytes from the free block `i`. */
  function AllocBlocks(bs: seq<Block>, i: int, k: int): seq<Block>
    requires 0 <= i < |bs|
  {
    Mark(SplitIf(bs, i, k), i, false)
  }

  /** The free list after `myalloc` took `k` bytes from the free block `i`. */
  function AllocList(bs: seq<Block>, i: int, k: int, fl: seq<int>): seq<int>
    requires 0 <= i < |bs|
  {
    Remove(PushIf(bs, i, k, fl), bs[i].off)
  }

  /** The offset of the remainder a split leaves is no block's offset. */
  lemma RemainderFresh(bs: seq<Block>, n: int, i: int, k: int)
    requires Wf(bs, n) && 0 <= i < |bs| && 0 <= k && k + OVERHEAD < bs[i].space
    ensures bs[i].off + k + OVERHEAD !in FreeOffsets(bs)
  {
    Ordered(bs, n);
  }

  lemma AllocWf(bs: seq<Block>, n: int, i: int, k: int)
    requires Wf(bs, n) && 0 <= i < |bs| && MIN_PAYLOAD <= k <= bs[i].space
    ensures Wf(AllocBlocks(bs, i, k), n)
  {
    if Splits(bs[i], k) {
      SplitWf(bs, n, i, k);
      MarkWf(SplitAt(bs, i, k), n, i, false);
    } else {
      MarkWf(bs, n, i, false);
    }
  }

  lemma AllocNoAdjacentFree(bs: seq<Block>, n: int, i: int, k: int)
    requires Wf(bs, n) && NoAdjacentFree(bs) && 0 <= i < |bs| && bs[i].free && MIN_PAYLOAD <= k <= bs[i].space
    ensures NoAdjacentFree(AllocBlocks(bs, i, k))
  {
    var r := AllocBlocks(bs, i, k);
    if Splits(bs[i], k) {
      forall j | 0 <= j < |r| - 1
        ensures !(r[j].free && r[j + 1].free)
      {
        if j > i + 1 {
          assert r[j] == bs[j - 1] && r[j + 1] == bs[j];
        } else if j == i + 1 {
          assert r[j + 1] == bs[i + 1];
        }
      }
    }
  }

  lemma AllocListed(bs: seq<Block>, n: int, fl: seq<int>, i: int, k: int)
    requires Wf(bs, n) && Listed(bs, fl) && 0 <= i < |bs| && bs[i].free && MIN_PAYLOAD <= k <= bs[i].space
    ensures Listed(AllocBlocks(bs, i, k), AllocList(bs, i, k, fl))
  {
    var h := bs[i].off;
    if Splits(bs[i], k) {
      var rem := h + k + OVERHEAD;
      var s := SplitAt(bs, i, k);
      RemainderFresh(bs, n, i, k);
      FreeOffsetsSplit(bs, n, i, k);
      SplitWf(bs, n, i, k);
      FreeOffsetsMark(s, n, i, false);
      var l := [rem] + fl;
      assert rem !in fl by {
        assert rem !in Elems(fl);
      }
      PushElems(fl, rem);
      RemoveElems(l, h);
    } else {
      FreeOffsetsMark(bs, n, i, false);
      RemoveElems(fl, h);
    }
  }

  /** `myalloc` taking `k >= 20` bytes from a free block keeps the invariant. */
  lemma AllocInv(bs: seq<Block>, fl: seq<int>, n: int, i: int, k: int)
    requires Inv(bs, fl, n) && 0 <= i < |bs| && bs[i].free && MIN_PAYLOAD <= k <= bs[i].space
    ensures Inv(AllocBlocks(bs, i, k), AllocList(bs, i, k, fl), n)
  {
    AllocWf(bs, n, i, k);
    AllocNoAdjacentFree(bs, n, i, k);
    AllocListed(bs, n, fl, i, k);
  }

  /** What the caller of `myalloc` gets: block `i` allocated with payload at
      least the request, exactly the request when split, and a split remainder
      of more than 20 bytes at the front of the free list. */
  lemma AllocResult(bs: seq<Block>, n: int, fl: seq<int>, i: int, k: int)
    requires Wf(bs, n) && Listed(bs, fl) && 0 <= i < |bs| && bs[i].free && MIN_PAYLOAD <= k <= bs[i].space
    ensures var r := AllocBlocks(bs, i, k);
      && r[i].off == bs[i].off && !r[i].free && r[i].space >= k
      && (Splits(bs[i], k) ==> r[i].space == k && r[i + 1].free && r[i + 1].space > MIN_PAYLOAD
                                && AllocList(bs, i, k, fl)[0] == r[i + 1].off)
      && (!Splits(bs[i], k) ==> r[i].space == bs[i].space)
      && bs[i].off !in AllocList(bs, i, k, fl)
  {
    AllocListed(bs, n, fl, i, k);
    AllocWf(bs, n, i, k);
    var r := AllocBlocks(bs, i, k);
    FreeOffsetsMember(r, n, i);
  }

  // ---------------------------------------------------------------------
  // findHead over the whole pool

  /** No free block has `size` bytes of payload. */
  ghost predicate NoFit(bs: seq<Block>, size: int)
  {
    forall j :: 0 <= j < |bs| && bs[j].free ==> bs[j].space < size
  }

  /** With every free block listed, `findHead` finds nothing iff no free
      block has `size` bytes. */
  lemma BestFitNone(bs: seq<Block>, n: int, fl: seq<int>, size: int)
    requires Wf(bs, n) && Listed(bs, fl)
    ensures BestFit(ListSpaces(bs, fl), size) == -1 <==> NoFit(bs, size)
  {
    var sp := ListSpaces(bs, fl);
    BestFitCorrect(sp, size);
    if BestFit(sp, size) != -1 {
      BestFitChoice(bs, n, fl, size);
    } else {
      forall j | 0 <= j < |bs| && bs[j].free
        ensures bs[j].space < size
      {
        assert bs[j].off in FreeOffsets(bs);
        var c :| 0 <= c < |fl| && fl[c] == bs[j].off;
        IndexOfBlock(bs, n, j);
        assert sp[c] == bs[j].space;
      }
    }
  }

  /** Otherwise it finds a free block with at least `size` bytes and no
      larger than any other such block. */
  lemma BestFitChoice(bs: seq<Block>, n: int, fl: seq<int>, size: int)
    requires Wf(bs, n) && Listed(bs, fl) && BestFit(ListSpaces(bs, fl), size) != -1
    ensures var i := IndexOf(bs, fl[BestFit(ListSpaces(bs, fl), size)]);
      && 0 <= i && bs[i].free && bs[i].space >= size
      && (forall j :: 0 <= j < |bs| && bs[j].free && bs[j].space >= size ==> bs[i].space <= bs[j].space)
  {
    var sp := ListSpaces(bs, fl);
    BestFitCorrect(sp, size);
    var b := BestFit(sp, size);
    assert fl[b] in Elems(fl);
    var i :| 0 <= i < |bs| && bs[i].free && bs[i].off == fl[b];
    IndexOfBlock(bs, n, i);
    assert sp[b] == bs[i].space;
    forall j | 0 <= j < |bs| && bs[j].free && bs[j].space >= size
      ensures bs[i].space <= bs[j].space
    {
      assert bs[j].off in FreeOffsets(bs);
      var c :| 0 <= c < |fl| && fl[c] == bs[j].off;
      IndexOfBlock(bs, n, j);
      assert sp[c] == bs[j].space;
    }
  }

  /** `findHead` is called before the request is raised to 20 bytes; since no
      payload is smaller than 20 bytes, it picks the same node either way. */
  lemma BestFitClamp(sp: seq<int>, size: int)
    requires size >= 0 && forall j :: 0 <= j < |sp| ==> sp[j] >= MIN_PAYLOAD
    ensures BestFit(sp, size) == BestFit(sp, Clamp(size))
  {
    BestFitCorrect(sp, size);
    BestFitCorrect(sp, Clamp(size));
    var r, r' := BestFit(sp, size), BestFit(sp, Clamp(size));
    if r != -1 && r' != -1 {
      assert IsBestFit(sp, Clamp(size), r);
      BestFitUnique(sp, Clamp(size), r, r');
    }
  }

  /** The payloads of the list nodes are all at least 20 bytes. */
  lemma ListSpacesMin(bs: seq<Block>, n: int, fl: seq<int>)
    requires Wf(bs, n) && Listed(bs, fl)
    ensures forall j :: 0 <= j < |fl| ==> ListSpaces(bs, fl)[j] >= MIN_PAYLOAD
  {
    forall j | 0 <= j < |fl|
      ensures ListSpaces(bs, fl)[j] >= MIN_PAYLOAD
    {
      assert fl[j] in Elems(fl);
      var i :| 0 <= i < |bs| && bs[i].free && bs[i].off == fl[j];
      IndexOfBlock(bs, n, i);
    }
  }

  // ---------------------------------------------------------------------
  // myfree

  /** The block before `i` is free. */
  predicate PrevFree(bs: seq<Block>, i: int)
    requires 0 <= i < |bs|
  {
    i > 0 && bs[i - 1].free
  }

  /** The block after `i` is free. */
  predicate NextFree(bs: seq<Block>, i: int)
    requires 0 <= i < |bs|
  {
    i + 1 < |bs| && bs[i + 1].free
  }

  /** The layout after `myfree` released block `i` and coalesced it with its free neighbours. */
  function FreeBlocks(bs: seq<Block>, i: int): (r: seq<Block>)
    requires 0 <= i < |bs|
  {
    var m := Mark(bs, i, true);
    if PrevFree(bs, i) && NextFree(bs, i) then MergeAt(MergeAt(m, i - 1), i - 1)
    else if PrevFree(bs, i) then MergeAt(m, i - 1)
    else if NextFree(bs, i) then MergeAt(m, i)
    else m
  }

  /** The free list after `myfree` released block `i`: pushed on the front,
      taken off again when merged into its predecessor, and the successor
      taken off when merged into it. */
  function FreeList(bs: seq<Block>, i: int, fl: seq<int>): seq<int>
    requires 0 <= i < |bs|
  {
    var pushed := [bs[i].off] + fl;
    var back := if PrevFree(bs, i) then Remove(pushed, bs[i].off) else pushed;
    if NextFree(bs, i) then Remove(back, bs[i + 1].off) else back
  }

  /** The index the released block ends up in. */
  function FreedIndex(bs: seq<Block>, i: int): int
    requires 0 <= i < |bs|
  {
    if PrevFree(bs, i) then i - 1 else i
  }

  lemma FreeWf(bs: seq<Block>, n: int, i: int)
    requires Wf(bs, n) && 0 <= i < |bs|
    ensures Wf(FreeBlocks(bs, i), n)
  {
    var m := Mark(bs, i, true);
    MarkWf(bs, n, i, true);
    if PrevFree(bs, i) {
      MergeWf(m, n, i - 1);
      if NextFree(bs, i) {
        MergeWf(MergeAt(m, i - 1), n, i - 1);
      }
    } else if NextFree(bs, i) {
      MergeWf(m, n, i);
    }
  }

  /** The released block absorbs exactly its free neighbours: it starts where
      the free predecessor (or the block itself) starts and ends where the free
      successor (or the block itself) ends; blocks further out are untouched. */
  ghost predicate FreedShape(bs: seq<Block>, i: int, r: seq<Block>)
    requires 0 <= i < |bs|
  {
    var j := FreedIndex(bs, i);
    var hi := if NextFree(bs, i) then i + 1 else i;
    && 0 <= j < |r| && r[j].free
    && r[j].off == bs[j].off && End(r[j]) == End(bs[hi])
    && |r| == |bs| - (hi - j)
    && (forall t :: 0 <= t < j ==> r[t] == bs[t])
    && (forall t :: j < t < |r| ==> r[t] == bs[t + hi - j])
  }

  lemma FreeShapeBoth(bs: seq<Block>, i: int)
    requires 0 < i < |bs| - 1 && bs[i - 1].free && bs[i + 1].free
    requires bs[i].off == End(bs[i - 1]) && bs[i + 1].off == End(bs[i])
    ensures FreedShape(bs, i, FreeBlocks(bs, i))
  {
    var m := Mark(bs, i, true);
    var m1 := MergeAt(m, i - 1);
    var r := MergeAt(m1, i - 1);
    assert r == FreeBlocks(bs, i);
    forall t | i - 1 < t < |r|
      ensures r[t] == bs[t + 2]
    {
      assert r[t] == m1[t + 1] == m[t + 2];
    }
  }

  lemma FreeShapePrev(bs: seq<Block>, i: int)
    requires 0 < i < |bs| && bs[i - 1].free && !NextFree(bs, i)
    requires bs[i].off == End(bs[i - 1])
    ensures FreedShape(bs, i, FreeBlocks(bs, i))
  {
    var m := Mark(bs, i, true);
    var r := MergeAt(m, i - 1);
    assert r == FreeBlocks(bs, i);
    forall t | i - 1 < t < |r|
      ensures r[t] == bs[t + 1]
    {
      assert r[t] == m[t + 1];
    }
  }

  lemma FreeShapeNext(bs: seq<Block>, i: int)
    requires 0 <= i < |bs| - 1 && !PrevFree(bs, i) && bs[i + 1].free
    requires bs[i + 1].off == End(bs[i])
    ensures FreedShape(bs, i, FreeBlocks(bs, i))
  {
    var m := Mark(bs, i, true);
    var r := MergeAt(m, i);
    assert r == FreeBlocks(bs, i);
    forall t | i < t < |r|
      ensures r[t] == bs[t + 1]
    {
      assert r[t] == m[t + 1];
    }
  }

  lemma FreeShapeNone(bs: seq<Block>, i: int)
    requires 0 <= i < |bs| && !PrevFree(bs, i) && !NextFree(bs, i)
    ensures FreedShape(bs, i, FreeBlocks(bs, i))
  {
  }

  lemma FreeShape(bs: seq<Block>, n: int, i: int)
    requires Wf(bs, n) && 0 <= i < |bs|
    ensures FreedShape(bs, i, FreeBlocks(bs, i))
  {
    if PrevFree(bs, i) && NextFree(bs, i) {
      FreeShapeBoth(bs, i);
    } else if PrevFree(bs, i) {
      FreeShapePrev(bs, i);
    } else if NextFree(bs, i) {
      FreeShapeNext(bs, i);
    } else {
      FreeShapeNone(bs, i);
    }
  }

  /** One adjacent pair of the layout after `myfree`. */
  lemma FreePairNotBothFree(bs: seq<Block>, i: int, r: seq<Block>, t: int)
    requires NoAdjacentFree(bs) && 0 <= i < |bs|
    requires FreedShape(bs, i, r)
    requires 0 <= t < |r| - 1
    ensures !(r[t].free && r[t + 1].free)
  {
    var j := FreedIndex(bs, i);
    var hi := if NextFree(bs, i) then i + 1 else i;
    if t + 1 < j {
      assert r[t] == bs[t] && r[t + 1] == bs[t + 1];
    } else if t + 1 == j {
      var a, b := bs[t], bs[t + 1];
      assert r[t] == a && !(a.free && b.free);
    } else if t == j {
      var a, b := bs[hi], bs[hi + 1];
      assert r[t + 1] == b && !(a.free && b.free);
    } else {
      var a, b := bs[t + hi - j], bs[t + hi - j + 1];
      assert r[t] == a && r[t + 1] == b && !(a.free && b.free);
    }
  }

  lemma FreeNoAdjacentFree(bs: seq<Block>, n: int, i: int)
    requires Wf(bs, n) && NoAdjacentFree(bs) && 0 <= i < |bs|
    ensures NoAdjacentFree(FreeBlocks(bs, i))
  {
    var r := FreeBlocks(bs, i);
    FreeShape(bs, n, i);
    forall t | 0 <= t < |r| - 1
      ensures !(r[t].free && r[t + 1].free)
    {
      FreePairNotBothFree(bs, i, r, t);
    }
  }

  lemma FreeListed(bs: seq<Block>, n: int, fl: seq<int>, i: int)
    requires Wf(bs, n) && Listed(bs, fl) && 0 <= i < |bs| && !bs[i].free
    ensures Listed(FreeBlocks(bs, i), FreeList(bs, i, fl))
  {
    var o := bs[i].off;
    var m := Mark(bs, i, true);
    MarkWf(bs, n, i, true);
    FreeOffsetsMember(bs, n, i);
    FreeOffsetsMark(bs, n, i, true);
    var pushed := [o] + fl;
    assert Distinct(pushed) by {
      forall a, b | 0 <= a < b < |pushed|
        ensures pushed[a] != pushed[b]
      {
        if a > 0 {
          assert pushed[a] == fl[a - 1] && pushed[b] == fl[b - 1];
        } else {
          assert pushed[b] in Elems(fl);
        }
      }
    }
    assert Elems(pushed) == FreeOffsets(m);
    var back := if PrevFree(bs, i) then Remove(pushed, o) else pushed;
    var mb := if PrevFree(bs, i) then MergeAt(m, i - 1) else m;
    var jb := if PrevFree(bs, i) then i - 1 else i;
    if PrevFree(bs, i) {
      RemoveElems(pushed, o);
      FreeOffsetsMerge(m, n, i - 1);
      MergeWf(m, n, i - 1);
    }
    assert Distinct(back) && Elems(back) == FreeOffsets(mb);
    if NextFree(bs, i) {
      assert mb[jb].free && mb[jb + 1] == bs[i + 1];
      RemoveElems(back, bs[i + 1].off);
      FreeOffsetsMerge(mb, n, jb);
    }
  }

  /** `FreeBlocks` and `FreeList` as the three steps `myfree` takes: mark and
      push, merge into a free predecessor, absorb a free successor. */
  lemma FreeSteps(bs: seq<Block>, n: int, i: int, fl: seq<int>)
    requires Wf(bs, n) && Listed(bs, fl) && 0 <= i < |bs| && !bs[i].free
    ensures var m := Mark(bs, i, true);
      var j := FreedIndex(bs, i);
      var mb := if PrevFree(m, i) then MergeAt(m, i - 1) else m;
      var lb := if PrevFree(m, i) then Remove([bs[i].off] + fl, bs[i].off) else [bs[i].off] + fl;
      && (PrevFree(m, i) <==> PrevFree(bs, i))
      && 0 <= j < |mb| && (NextFree(mb, j) <==> NextFree(bs, i))
      && (NextFree(mb, j) ==> mb[j + 1] == bs[i + 1] && bs[i + 1].off in lb)
      && FreeBlocks(bs, i) == (if NextFree(mb, j) then MergeAt(mb, j) else mb)
      && FreeList(bs, i, fl) == (if NextFree(mb, j) then Remove(lb, mb[j + 1].off) else lb)
  {
    var m := Mark(bs, i, true);
    if NextFree(bs, i) {
      assert bs[i + 1].off in Elems(fl) by {
        FreeOffsetsMember(bs, n, i + 1);
      }
      var pushed := [bs[i].off] + fl;
      if PrevFree(m, i) {
        assert bs[i + 1].off != bs[i].off;
        assert Distinct(pushed) by {
          FreeOffsetsMember(bs, n, i);
          PushElems(fl, bs[i].off);
        }
        RemoveElems(pushed, bs[i].off);
      }
    }
  }

  /** `myfree` on an allocated block keeps the invariant. */
  lemma FreeInv(bs: seq<Block>, fl: seq<int>, n: int, i: int)
    requires Inv(bs, fl, n) && 0 <= i < |bs| && !bs[i].free
    ensures Inv(FreeBlocks(bs, i), FreeList(bs, i, fl), n)
  {
    FreeWf(bs, n, i);
    FreeNoAdjacentFree(bs, n, i);
    FreeListed(bs, n, fl, i);
  }

  // ---------------------------------------------------------------------
  // The failure path of myrealloc: undoing myfree

  /** The free list after `myrealloc` undid `myfree` of block `i`: the
      successor that was merged away is pushed back on the front, every other
      node keeps its place. */
  function RollbackList(bs: seq<Block>, i: int, fl: seq<int>): seq<int>
    requires 0 <= i < |bs|
  {
    if NextFree(bs, i) then [bs[i + 1].off] + Remove(fl, bs[i + 1].off) else fl
  }

  /** The undone list holds the same free blocks as before, once each. */
  lemma RollbackListed(bs: seq<Block>, n: int, i: int, fl: seq<int>)
    requires Wf(bs, n) && Listed(bs, fl) && 0 <= i < |bs| && !bs[i].free
    ensures Listed(bs, RollbackList(bs, i, fl)) && bs[i].off !in RollbackList(bs, i, fl)
  {
    FreeOffsetsMember(bs, n, i);
    assert bs[i].off !in Elems(fl);
    if NextFree(bs, i) {
      var x := bs[i + 1].off;
      FreeOffsetsMember(bs, n, i + 1);
      RemoveElems(fl, x);
      assert x !in Elems(Remove(fl, x));
      PushElems(Remove(fl, x), x);
      assert x != bs[i].off by {
        OrderedFrom(bs, n, i, i + 1);
      }
    }
  }

  lemma {:induction false} RemoveSub(s: seq<int>, x: int)
    ensures Elems(Remove(s, x)) <= Elems(s)
  {
    if s != [] {
      RemoveSub(s[1..], x);
      var r := Remove(s, x);
      forall y | y in Elems(r)
        ensures y in Elems(s)
      {
        if s[0] != x {
          assert r == [s[0]] + Remove(s[1..], x);
          if y != s[0] {
            assert y in Remove(s[1..], x);
            assert y in Elems(Remove(s[1..], x));
          }
        }
        assert y in s;
      }
    }
  }

  /** The lists the undo passes through hold only nodes of `[h] + fl`. */
  lemma RollbackElems(h: int, fl: seq<int>, x: int)
    requires x in fl
    ensures Elems([x] + Remove(fl, x)) <= Elems([h] + fl)
    ensures Elems([x] + ([h] + Remove(fl, x))) <= Elems([h] + fl)
  {
    RemoveSub(fl, x);
    forall y | y in Elems([x] + ([h] + Remove(fl, x)))
      ensures y in Elems([h] + fl)
    {
      if y != x && y != h {
        assert y in Remove(fl, x);
        assert y in Elems(Remove(fl, x));
      }
    }
  }

  /** Splitting the block both neighbours were merged into at the size of the
      predecessor leaves the released block merged with its successor. */
  lemma MergeTwiceSplit(bs: seq<Block>, i: int)
    requires 0 < i < |bs| - 1 && bs[i - 1].free
    requires bs[i].off == End(bs[i - 1]) && bs[i + 1].off == End(bs[i])
    ensures SplitAt(MergeAt(MergeAt(bs, i - 1), i - 1), i - 1, bs[i - 1].space) == MergeAt(bs, i)
  {
    var r := SplitAt(MergeAt(MergeAt(bs, i - 1), i - 1), i - 1, bs[i - 1].space);
    var e := MergeAt(bs, i);
    assert |r| == |e|;
    forall t | 0 <= t < |r|
      ensures r[t] == e[t]
    {
      if t > i {
        assert r[t] == MergeAt(MergeAt(bs, i - 1), i - 1)[t - 1] == MergeAt(bs, i - 1)[t] == bs[t + 1];
      }
    }
  }

  /** Undoing `myfree` when both neighbours were merged in: split at the
      predecessor's size, then at the block's own size. */
  lemma UndoBoth(bs: seq<Block>, n: int, i: int)
    requires Wf(bs, n) && 0 < i < |bs| - 1 && !bs[i].free && bs[i - 1].free && bs[i + 1].free
    ensures var fb, m := FreeBlocks(bs, i), Mark(bs, i, true);
      && |fb| == |bs| - 2 && fb[i - 1].free && fb[i - 1].off == bs[i - 1].off
      && fb[i - 1].space == bs[i - 1].space + OVERHEAD + bs[i].space + OVERHEAD + bs[i + 1].space
      && Foot(fb[i - 1]) == Foot(bs[i + 1])
      && SplitAt(fb, i - 1, bs[i - 1].space) == MergeAt(m, i)
      && MergeAt(m, i)[i] == Block(bs[i].off, bs[i].space + OVERHEAD + bs[i + 1].space, true)
      && Foot(MergeAt(m, i)[i]) == Foot(bs[i + 1])
      && SplitAt(MergeAt(m, i), i, bs[i].space) == m
  {
    var m := Mark(bs, i, true);
    MergeTwiceSplit(m, i);
    SplitUndoesMerge(m, i);
  }

  /** Undoing `myfree` when only the predecessor was merged in. */
  lemma UndoPrev(bs: seq<Block>, n: int, i: int)
    requires Wf(bs, n) && 0 < i < |bs| && !bs[i].free && bs[i - 1].free
    ensures var fb, m := FreeBlocks(bs, i), Mark(bs, i, true);
      PrevFree(bs, i) && !NextFree(bs, i) ==>
      && |fb| == |bs| - 1 && fb[i - 1].free && fb[i - 1].off == bs[i - 1].off
      && fb[i - 1].space == bs[i - 1].space + OVERHEAD + bs[i].space
      && Foot(fb[i - 1]) == Foot(bs[i])
      && SplitAt(fb, i - 1, bs[i - 1].space) == m
  {
    SplitUndoesMerge(Mark(bs, i, true), i - 1);
  }

  /** Undoing `myfree` when only the successor was merged in. */
  lemma UndoNext(bs: seq<Block>, n: int, i: int)
    requires Wf(bs, n) && 0 <= i < |bs| - 1 && !bs[i].free && bs[i + 1].free && !PrevFree(bs, i)
    ensures var fb, m := FreeBlocks(bs, i), Mark(bs, i, true);
      && |fb| == |bs| - 1 && fb[i].free && fb[i].off == bs[i].off
      && fb[i].space == bs[i].space + OVERHEAD + bs[i + 1].space
      && Foot(fb[i]) == Foot(bs[i + 1])
      && SplitAt(fb, i, bs[i].space) == m
  {
    SplitUndoesMerge(Mark(bs, i, true), i);
  }

  /** Re-marking the re-split block allocated restores the layout. */
  lemma UnmarkRestores(bs: seq<Block>, i: int)
    requires 0 <= i < |bs| && !bs[i].free
    ensures Mark(Mark(bs, i, true), i, false) == bs
  {
    assert Mark(Mark(bs, i, true), i, false)[i] == bs[i];
  }

  // ---------------------------------------------------------------------
  // checkMem

  /** Bytes spanned by the allocated blocks of `bs`. */
  function AllocSpan(bs: seq<Block>): int
  {
    if bs == [] then 0 else AllocSpan(bs[..|bs| - 1]) + (if bs[|bs| - 1].free then 0 else bs[|bs| - 1].space + OVERHEAD)
  }

  /** Bytes spanned by the free blocks of `bs`. */
  function FreeSpan(bs: seq<Block>): int
  {
    if bs == [] then 0 else FreeSpan(bs[..|bs| - 1]) + (if bs[|bs| - 1].free then bs[|bs| - 1].space + OVERHEAD else 0)
  }

  lemma {:induction false} SpanPrefix(bs: seq<Block>, n: int, k: int)
    requires Tiled(bs, n) && 0 < k <= |bs|
    ensures AllocSpan(bs[..k]) + FreeSpan(bs[..k]) == End(bs[k - 1])
  {
    if k > 1 {
      SpanPrefix(bs, n, k - 1);
      assert bs[..k][..k - 1] == bs[..k - 1];
    } else {
      assert bs[..1][..0] == [];
    }
  }

  /** The blocks of a tiled arena add up to the arena: `checkMem() == MEMORY_SIZE`. */
  lemma SpanTotal(bs: seq<Block>, n: int)
    requires Tiled(bs, n)
    ensures AllocSpan(bs) + FreeSpan(bs) == n
  {
    SpanPrefix(bs, n, |bs|);
    assert bs[..|bs|] == bs;
  }
}
