/** The boundary-tag pool allocator of myalloc/myalloc.c over one byte arena.

    Every block is `[int tag][payload][int tag]`; the tag is the payload size,
    positive when the block is free and negative when it is allocated.  A free
    block keeps a `node` (LP64: `space` at 0, padding at 4, `next` at 8, `prev`
    at 16) in its first 24 bytes, and the free blocks form a doubly linked
    list headed by `freeList`.  Links are stored as 8-byte addresses
    `base + offset`, with NULL as 0, where `base` is the address of the arena. */
module MyAlloc {
  import opened Bytes
  import opened Layout
  import opened Pool

  /** The NULL node pointer, as an offset. */
  const NULL: int := -1

  /** The value a link field holds for the node at offset `x`. */
  function Addr(base: int, x: int): int
  {
    if x == NULL then 0 else base + x
  }

  // ---------------------------------------------------------------------
  // What the bytes of the arena must say

  /** Both tags of `b` hold `Tag(b)`. */
  ghost predicate BlockTagsOK(m: seq<byte>, b: Block)
  {
    && 0 <= b.off && 0 <= b.space && End(b) <= |m|
    && Int32At(m, b.off) == Tag(b)
    && Int32At(m, Foot(b)) == Tag(b)
  }

  ghost predicate TagsOK(m: seq<byte>, bs: seq<Block>)
  {
    forall i {:trigger BlockTagsOK(m, bs[i])} :: 0 <= i < |bs| ==> BlockTagsOK(m, bs[i])
  }

  /** Free-list nodes are far enough apart that their `node` headers do not overlap. */
  ghost predicate Spaced(s: seq<int>)
  {
    forall a, b {:trigger Apart(s[a], s[b])} :: 0 <= a < |s| && 0 <= b < |s| && a != b ==> Apart(s[a], s[b])
  }

  /** Nodes at `x` and `y` do not overlap. */
  predicate Apart(x: int, y: int)
  {
    x + NODE <= y || y + NODE <= x
  }

  function NextOf(fl: seq<int>, k: int): int
  {
    if 0 <= k && k + 1 < |fl| then fl[k + 1] else NULL
  }

  function PrevOf(fl: seq<int>, k: int): int
  {
    if 0 < k <= |fl| then fl[k - 1] else NULL
  }

  /** The node at `x` links forward to `nx` and back to `pv`. */
  ghost predicate LinksAre(m: seq<byte>, base: int, x: int, nx: int, pv: int)
  {
    && 0 <= x && x + NODE <= |m|
    && U64At(m, x + 8) == Addr(base, nx)
    && U64At(m, x + 16) == Addr(base, pv)
  }

  /** Position `k` of the list `fl` is linked to its neighbours in the list. */
  ghost predicate NodeOK(m: seq<byte>, base: int, fl: seq<int>, k: int)
  {
    0 <= k < |fl| && LinksAre(m, base, fl[k], NextOf(fl, k), PrevOf(fl, k))
  }

  /** The links stored in the arena spell out the list `fl`, headed by `head`. */
  ghost predicate ListOK(m: seq<byte>, base: int, fl: seq<int>, head: int)
  {
    && head == (if fl == [] then NULL else fl[0])
    && Spaced(fl)
    && (forall k :: 0 <= k < |fl| ==> 0 <= fl[k] && fl[k] + NODE <= |m|)
    && (forall k :: 0 <= k < |fl| ==> NodeOK(m, base, fl, k))
  }

  /** The bytes that changed between `m` and `m'` lie in link fields of the nodes `xs`. */
  ghost predicate InLinkSlots(xs: seq<int>, q: int)
  {
    exists k :: 0 <= k < |xs| && xs[k] + 8 <= q < xs[k] + NODE
  }

  ghost predicate LinksOnly(m: seq<byte>, m': seq<byte>, xs: seq<int>)
  {
    |m| == |m'| && forall q :: 0 <= q < |m| && m'[q] != m[q] ==> InLinkSlots(xs, q)
  }

  /** The bytes that changed between `m` and `m'` lie in the tags at offsets `ps`. */
  ghost predicate InTagSlots(ps: seq<int>, q: int)
  {
    exists t :: 0 <= t < |ps| && ps[t] <= q < ps[t] + TAG
  }

  ghost predicate TagsOnly(m: seq<byte>, m': seq<byte>, ps: seq<int>)
  {
    |m| == |m'| && forall q :: 0 <= q < |m| && m'[q] != m[q] ==> InTagSlots(ps, q)
  }

  /** The bytes that changed lie in the tags at `ps` or the link fields of the nodes `xs`. */
  ghost predicate ChangedOnly(m: seq<byte>, m': seq<byte>, ps: seq<int>, xs: seq<int>)
  {
    |m| == |m'| && forall q :: 0 <= q < |m| && m'[q] != m[q] ==> InTagSlots(ps, q) || InLinkSlots(xs, q)
  }

  lemma ChangedCompose(m0: seq<byte>, m1: seq<byte>, m2: seq<byte>, ps: seq<int>, xs: seq<int>)
    requires TagsOnly(m0, m1, ps) && LinksOnly(m1, m2, xs)
    ensures ChangedOnly(m0, m2, ps, xs)
  {
  }

  lemma TagsChanged(m: seq<byte>, m': seq<byte>, ps: seq<int>, xs: seq<int>)
    requires TagsOnly(m, m', ps)
    ensures ChangedOnly(m, m', ps, xs)
  {
  }

  lemma LinksChanged(m: seq<byte>, m': seq<byte>, ps: seq<int>, xs: seq<int>)
    requires LinksOnly(m, m', xs)
    ensures ChangedOnly(m, m', ps, xs)
  {
  }

  /** A frame still holds when it names more slots. */
  lemma ChangedWeaken(m: seq<byte>, m': seq<byte>, ps: seq<int>, xs: seq<int>, ps2: seq<int>, xs2: seq<int>)
    requires ChangedOnly(m, m', ps, xs)
    requires forall t :: 0 <= t < |ps| ==> ps[t] in ps2
    requires Elems(xs) <= Elems(xs2)
    ensures ChangedOnly(m, m', ps2, xs2)
  {
    forall q | 0 <= q < |m| && m'[q] != m[q]
      ensures InTagSlots(ps2, q) || InLinkSlots(xs2, q)
    {
      if InTagSlots(ps, q) {
        var t :| 0 <= t < |ps| && ps[t] <= q < ps[t] + TAG;
        var t2 :| 0 <= t2 < |ps2| && ps2[t2] == ps[t];
      } else {
        var k :| 0 <= k < |xs| && xs[k] + 8 <= q < xs[k] + NODE;
        assert xs[k] in Elems(xs2);
        var k2 :| 0 <= k2 < |xs2| && xs2[k2] == xs[k];
      }
    }
  }

  lemma ChangedTrans(m0: seq<byte>, m1: seq<byte>, m2: seq<byte>, ps: seq<int>, xs: seq<int>)
    requires ChangedOnly(m0, m1, ps, xs) && ChangedOnly(m1, m2, ps, xs)
    ensures ChangedOnly(m0, m2, ps, xs)
  {
  }

  // ---------------------------------------------------------------------
  // Which payload bytes myalloc, myfree and myrealloc leave alone

  /** The tags `myalloc` writes when it takes `k` bytes from the free block
      `i`: the four of the split when the excess is more than 28 bytes,
      otherwise the block's own two. */
  function TakeTags(bs: seq<Block>, i: int, k: int): seq<int>
    requires 0 <= i < |bs|
  {
    if Splits(bs[i], k) then SplitTags(bs[i].off, k, Foot(bs[i])) else TagPair(bs[i].off, Foot(bs[i]))
  }

  /** The bytes that changed lie in the tags at `ps`, the link fields of the
      nodes `xs`, or the range `[lo, hi)`. */
  ghost predicate ChangedBut(m: seq<byte>, m': seq<byte>, ps: seq<int>, xs: seq<int>, lo: int, hi: int)
  {
    |m| == |m'| && forall q :: 0 <= q < |m| && m'[q] != m[q] ==> InTagSlots(ps, q) || InLinkSlots(xs, q) || lo <= q < hi
  }

  /** The payload of block `b` reads the same in `m` and `m'`. */
  ghost predicate PayloadKept(m: seq<byte>, m': seq<byte>, b: Block)
  {
    |m| == |m'| && forall q :: b.off + TAG <= q < Foot(b) && 0 <= q < |m| ==> m'[q] == m[q]
  }

  /** Every allocated block of `bs` keeps its payload. */
  ghost predicate PayloadsKept(m: seq<byte>, m': seq<byte>, bs: seq<Block>)
  {
    forall t :: 0 <= t < |bs| && !bs[t].free ==> PayloadKept(m, m', bs[t])
  }

  /** None of the tags at `ps` and none of the link fields of the nodes `xs`
      overlaps the payload of `b`. */
  ghost predicate SlotsMiss(ps: seq<int>, xs: seq<int>, b: Block)
  {
    && (forall s :: 0 <= s < |ps| ==> ps[s] + TAG <= b.off + TAG || Foot(b) <= ps[s])
    && (forall s :: 0 <= s < |xs| ==> xs[s] + NODE <= b.off + TAG || Foot(b) <= xs[s] + 8)
  }

  lemma MissKeeps(m: seq<byte>, m': seq<byte>, ps: seq<int>, xs: seq<int>, lo: int, hi: int, b: Block)
    requires ChangedBut(m, m', ps, xs, lo, hi) && SlotsMiss(ps, xs, b)
    requires hi <= b.off + TAG || Foot(b) <= lo
    ensures PayloadKept(m, m', b)
  {
    forall q | b.off + TAG <= q < Foot(b) && 0 <= q < |m|
      ensures m'[q] == m[q]
    {
      assert !InTagSlots(ps, q) && !InLinkSlots(xs, q);
    }
  }

  lemma KeptTrans(m0: seq<byte>, m1: seq<byte>, m2: seq<byte>, bs: seq<Block>)
    requires PayloadsKept(m0, m1, bs) && PayloadsKept(m1, m2, bs)
    ensures PayloadsKept(m0, m2, bs)
  {
    forall t | 0 <= t < |bs| && !bs[t].free
      ensures PayloadKept(m0, m2, bs[t])
    {
      assert PayloadKept(m0, m1, bs[t]) && PayloadKept(m1, m2, bs[t]);
    }
  }

  /** A range inside block `u` of a tiled layout misses the payload of every
      other block. */
  lemma OutsidePayload(bs: seq<Block>, n: int, u: int, t: int, lo: int, hi: int)
    requires Tiled(bs, n) && 0 <= u < |bs| && 0 <= t < |bs| && u != t
    requires bs[u].off <= lo && hi <= End(bs[u])
    ensures hi <= bs[t].off + TAG || Foot(bs[t]) <= lo
  {
    if u < t {
      OrderedFrom(bs, n, u, t);
    } else {
      OrderedFrom(bs, n, t, u);
    }
  }

  /** A listed node is the header of a free block that holds the whole node. */
  lemma ListedNode(bs: seq<Block>, n: int, fl: seq<int>, x: int) returns (u: int)
    requires Inv(bs, fl, n) && x in fl
    ensures 0 <= u < |bs| && bs[u].free && bs[u].off == x && x + NODE <= End(bs[u])
  {
    assert x in Elems(fl);
    u :| 0 <= u < |bs| && bs[u].free && bs[u].off == x;
  }

  /** What `myalloc` writes when it takes `k` bytes from the free block `i`
      misses the payload of every allocated block. */
  lemma TakeMiss(bs: seq<Block>, fl: seq<int>, n: int, i: int, k: int, t: int)
    requires Inv(bs, fl, n) && 0 <= i < |bs| && bs[i].free && 0 <= k <= bs[i].space
    requires 0 <= t < |bs| && !bs[t].free
    ensures SlotsMiss(TakeTags(bs, i, k), PushIf(bs, i, k, fl), bs[t])
  {
    var ps := TakeTags(bs, i, k);
    forall s | 0 <= s < |ps|
      ensures ps[s] + TAG <= bs[t].off + TAG || Foot(bs[t]) <= ps[s]
    {
      OutsidePayload(bs, n, i, t, ps[s], ps[s] + TAG);
    }
    var xs := PushIf(bs, i, k, fl);
    forall s | 0 <= s < |xs|
      ensures xs[s] + NODE <= bs[t].off + TAG || Foot(bs[t]) <= xs[s] + 8
    {
      if Splits(bs[i], k) && s == 0 {
        OutsidePayload(bs, n, i, t, xs[s], xs[s] + NODE);
      } else {
        assert xs[s] in fl;
        var u := ListedNode(bs, n, fl, xs[s]);
        OutsidePayload(bs, n, u, t, xs[s], xs[s] + NODE);
      }
    }
  }

  /** `myalloc`, taking `k` bytes from the free block `i`, leaves the
      payload of every allocated block as it was. */
  lemma TakeKeeps(m: seq<byte>, m': seq<byte>, bs: seq<Block>, fl: seq<int>, n: int, i: int, k: int)
    requires Inv(bs, fl, n) && 0 <= i < |bs| && bs[i].free && 0 <= k <= bs[i].space
    requires ChangedOnly(m, m', TakeTags(bs, i, k), PushIf(bs, i, k, fl))
    ensures PayloadsKept(m, m', bs)
  {
    forall t | 0 <= t < |bs| && !bs[t].free
      ensures PayloadKept(m, m', bs[t])
    {
      TakeMiss(bs, fl, n, i, k, t);
      MissKeeps(m, m', TakeTags(bs, i, k), PushIf(bs, i, k, fl), bs[t].off + TAG, bs[t].off + TAG, bs[t]);
    }
  }

  /** What `myfree` of block `i` writes misses the payload of every other
      allocated block. */
  lemma FreeMiss(bs: seq<Block>, fl: seq<int>, n: int, i: int, t: int)
    requires Inv(bs, fl, n) && 0 <= i < |bs|
    requires 0 <= t < |bs| && t != i && !bs[t].free
    ensures SlotsMiss(NearTags(bs, i), [bs[i].off] + fl, bs[t])
  {
    var ps := NearTags(bs, i);
    var lo := if i > 0 then i - 1 else i;
    forall s | 0 <= s < |ps|
      ensures ps[s] + TAG <= bs[t].off + TAG || Foot(bs[t]) <= ps[s]
    {
      var u := lo + s / 2;
      if u != t {
        OutsidePayload(bs, n, u, t, ps[s], ps[s] + TAG);
      }
    }
    var xs := [bs[i].off] + fl;
    forall s | 0 <= s < |xs|
      ensures xs[s] + NODE <= bs[t].off + TAG || Foot(bs[t]) <= xs[s] + 8
    {
      if s == 0 {
        OutsidePayload(bs, n, i, t, xs[s], xs[s] + NODE);
      } else {
        assert xs[s] == fl[s - 1];
        var u := ListedNode(bs, n, fl, xs[s]);
        OutsidePayload(bs, n, u, t, xs[s], xs[s] + NODE);
      }
    }
  }

  /** `myfree` of block `i` leaves the payload of every other allocated
      block as it was. */
  lemma FreeKeeps(m: seq<byte>, m': seq<byte>, bs: seq<Block>, fl: seq<int>, n: int, i: int)
    requires Inv(bs, fl, n) && 0 <= i < |bs|
    requires ChangedOnly(m, m', NearTags(bs, i), [bs[i].off] + fl)
    ensures PayloadsKept(m, m', Mark(bs, i, true))
  {
    forall t | 0 <= t < |bs| && !Mark(bs, i, true)[t].free
      ensures PayloadKept(m, m', Mark(bs, i, true)[t])
    {
      FreeMiss(bs, fl, n, i, t);
      MissKeeps(m, m', NearTags(bs, i), [bs[i].off] + fl, bs[t].off + TAG, bs[t].off + TAG, bs[t]);
    }
  }

  /** The steps of `myalloc` after `findHead`, taken together: the split
      and `addNode` of the remainder (if any), then `removeNode` and the
      marking of the block. */
  lemma TakeFrame(m0: seq<byte>, m1: seq<byte>, m2: seq<byte>, m3: seq<byte>, bs: seq<Block>, i: int, k: int,
                  fl1: seq<int>)
    requires 0 <= i < |bs|
    requires ChangedOnly(m0, m1, TakeTags(bs, i, k), fl1)
    requires LinksOnly(m1, m2, Remove(fl1, bs[i].off))
    requires TagsOnly(m2, m3, TagPair(bs[i].off, Foot(SplitIf(bs, i, k)[i])))
    ensures ChangedOnly(m0, m3, TakeTags(bs, i, k), fl1)
  {
    var ps := TakeTags(bs, i, k);
    RemoveSub(fl1, bs[i].off);
    LinksChanged(m1, m2, ps, Remove(fl1, bs[i].off));
    ChangedWeaken(m1, m2, ps, Remove(fl1, bs[i].off), ps, fl1);
    var pair := TagPair(bs[i].off, Foot(SplitIf(bs, i, k)[i]));
    assert pair[0] == ps[0] && pair[1] == ps[1];
    TagsChanged(m2, m3, pair, fl1);
    ChangedWeaken(m2, m3, pair, fl1, ps, fl1);
    ChangedTrans(m0, m1, m2, ps, fl1);
    ChangedTrans(m0, m2, m3, ps, fl1);
  }

  /** The free list after `myfree` of block `i` holds only nodes of the
      list `myfree` pushed `i` onto. */
  lemma FreeListSub(bs: seq<Block>, i: int, fl: seq<int>)
    requires 0 <= i < |bs|
    ensures Elems(FreeList(bs, i, fl)) <= Elems([bs[i].off] + fl)
  {
    var pushed := [bs[i].off] + fl;
    var back := if PrevFree(bs, i) then Remove(pushed, bs[i].off) else pushed;
    RemoveSub(pushed, bs[i].off);
    if NextFree(bs, i) {
      RemoveSub(back, bs[i + 1].off);
    }
  }

  /** `myfree` of block `i`, then `myalloc` of `k` bytes from block `j` of
      the layout that freeing left: together they write only the tags near
      block `i`, the tags of the taking, and links of nodes of the old list,
      of block `i` and of the split remainder. */
  lemma FreedThenTaken(m0: seq<byte>, m1: seq<byte>, mid: seq<byte>, bs: seq<Block>, fl: seq<int>, i: int,
                       fb: seq<Block>, j: int, k: int)
    requires 0 <= i < |bs| && fb == FreeBlocks(bs, i) && 0 <= j < |fb|
    requires ChangedOnly(m0, m1, NearTags(bs, i), [bs[i].off] + fl)
    requires ChangedOnly(m1, mid, TakeTags(fb, j, k), PushIf(fb, j, k, FreeList(bs, i, fl)))
    ensures ChangedOnly(m0, mid, NearTags(bs, i) + TakeTags(fb, j, k), PushIf(fb, j, k, [bs[i].off] + fl))
  {
    var nt, tt := NearTags(bs, i), TakeTags(fb, j, k);
    var xs := PushIf(fb, j, k, [bs[i].off] + fl);
    var ffl := FreeList(bs, i, fl);
    FreeListSub(bs, i, fl);
    assert Elems([bs[i].off] + fl) <= Elems(xs);
    assert Elems(PushIf(fb, j, k, ffl)) <= Elems(xs);
    ChangedWeaken(m0, m1, nt, [bs[i].off] + fl, nt + tt, xs);
    ChangedWeaken(m1, mid, tt, PushIf(fb, j, k, ffl), nt + tt, xs);
    ChangedTrans(m0, m1, mid, nt + tt, xs);
  }

  /** An allocated block other than `i` is still a block of the layout
      after `myfree` of block `i`. */
  lemma FreedKeepsBlock(bs: seq<Block>, n: int, i: int, t: int) returns (u: int)
    requires Wf(bs, n) && 0 <= i < |bs| && 0 <= t < |bs| && t != i && !bs[t].free
    ensures 0 <= u < |FreeBlocks(bs, i)| && FreeBlocks(bs, i)[u] == bs[t]
  {
    FreeShape(bs, n, i);
    var r := FreeBlocks(bs, i);
    var j := FreedIndex(bs, i);
    var hi := if NextFree(bs, i) then i + 1 else i;
    if t < j {
      u := t;
    } else {
      u := t - (hi - j);
    }
  }

  /** What `myfree` of block `i` and `myalloc` from block `j` of the layout
      it left write misses the payload of every other allocated block `t`,
      which is block `u` after freeing. */
  lemma FreedTakenMiss(bs: seq<Block>, fl: seq<int>, n: int, i: int, fb: seq<Block>, ffl: seq<int>,
                       j: int, k: int, t: int, u: int)
    requires Inv(bs, fl, n) && 0 <= i < |bs| && 0 <= t < |bs| && t != i && !bs[t].free
    requires fb == FreeBlocks(bs, i) && ffl == FreeList(bs, i, fl) && Inv(fb, ffl, n)
    requires 0 <= j < |fb| && fb[j].free && 0 <= k <= fb[j].space
    requires 0 <= u < |fb| && fb[u] == bs[t]
    ensures SlotsMiss(NearTags(bs, i) + TakeTags(fb, j, k), PushIf(fb, j, k, [bs[i].off] + fl), bs[t])
  {
    FreeMiss(bs, fl, n, i, t);
    TakeMiss(fb, ffl, n, j, k, u);
    var nt, tt := NearTags(bs, i), TakeTags(fb, j, k);
    var ps := nt + tt;
    forall s | 0 <= s < |ps|
      ensures ps[s] + TAG <= bs[t].off + TAG || Foot(bs[t]) <= ps[s]
    {
      if s < |nt| {
        assert ps[s] == nt[s];
      } else {
        assert ps[s] == tt[s - |nt|];
      }
    }
    var hfl := [bs[i].off] + fl;
    var xs := PushIf(fb, j, k, hfl);
    forall s | 0 <= s < |xs|
      ensures xs[s] + NODE <= bs[t].off + TAG || Foot(bs[t]) <= xs[s] + 8
    {
      if Splits(fb[j], k) {
        if s == 0 {
          assert xs[s] == PushIf(fb, j, k, ffl)[0];
        } else {
          assert xs[s] == hfl[s - 1];
        }
      } else {
        assert xs[s] == hfl[s];
      }
    }
  }

  /** The arena after `myfree` of block `i`, `myalloc` of `k` bytes from
      block `j` of the layout it left, and stores into `[lo, hi)` inside
      the payload of block `j`: every allocated block other than `i` keeps
      its payload. */
  lemma FreedTakenKeeps(m0: seq<byte>, m': seq<byte>, bs: seq<Block>, fl: seq<int>, n: int, i: int,
                        j: int, k: int, lo: int, hi: int)
    requires Inv(bs, fl, n) && 0 <= i < |bs| && !bs[i].free
    requires 0 <= j < |FreeBlocks(bs, i)| && FreeBlocks(bs, i)[j].free && 0 <= k <= FreeBlocks(bs, i)[j].space
    requires FreeBlocks(bs, i)[j].off <= lo && hi <= End(FreeBlocks(bs, i)[j])
    requires ChangedBut(m0, m', NearTags(bs, i) + TakeTags(FreeBlocks(bs, i), j, k),
                        PushIf(FreeBlocks(bs, i), j, k, [bs[i].off] + fl), lo, hi)
    ensures PayloadsKept(m0, m', Mark(bs, i, true))
  {
    var fb, ffl := FreeBlocks(bs, i), FreeList(bs, i, fl);
    FreeInv(bs, fl, n, i);
    forall t | 0 <= t < |bs| && !Mark(bs, i, true)[t].free
      ensures PayloadKept(m0, m', Mark(bs, i, true)[t])
    {
      var u := FreedKeepsBlock(bs, n, i, t);
      FreedTakenMiss(bs, fl, n, i, fb, ffl, j, k, t, u);
      OutsidePayload(fb, n, j, u, lo, hi);
      MissKeeps(m0, m', NearTags(bs, i) + TakeTags(fb, j, k), PushIf(fb, j, k, [bs[i].off] + fl), lo, hi, bs[t]);
    }
  }

  /** Links rewritten in listed nodes only leave every allocated payload alone. */
  lemma LinksKeep(m: seq<byte>, m': seq<byte>, bs: seq<Block>, fl: seq<int>, n: int)
    requires Inv(bs, fl, n) && LinksOnly(m, m', fl)
    ensures PayloadsKept(m, m', bs)
  {
    forall t | 0 <= t < |bs| && !bs[t].free
      ensures PayloadKept(m, m', bs[t])
    {
      forall s | 0 <= s < |fl|
        ensures fl[s] + NODE <= bs[t].off + TAG || Foot(bs[t]) <= fl[s] + 8
      {
        var u := ListedNode(bs, n, fl, fl[s]);
        OutsidePayload(bs, n, u, t, fl[s], fl[s] + NODE);
      }
      LinksChanged(m, m', [], fl);
      MissKeeps(m, m', [], fl, bs[t].off + TAG, bs[t].off + TAG, bs[t]);
    }
  }

  /** Stores inside the free block `u` leave every allocated payload alone. */
  lemma InsideKeeps(m: seq<byte>, m': seq<byte>, bs: seq<Block>, n: int, u: int, lo: int, hi: int)
    requires Tiled(bs, n) && 0 <= u < |bs| && bs[u].free && bs[u].off <= lo && hi <= End(bs[u])
    requires SameOutside(m, m', lo, hi)
    ensures PayloadsKept(m, m', bs)
  {
    forall t | 0 <= t < |bs| && !bs[t].free
      ensures PayloadKept(m, m', bs[t])
    {
      OutsidePayload(bs, n, u, t, lo, hi);
    }
  }

  /** Offsets of the header and footer tags of the blocks `lo` to `hi - 1`. */
  function BlockTags(bs: seq<Block>, lo: int, hi: int): (ps: seq<int>)
    requires 0 <= lo <= hi <= |bs|
  {
    seq(2 * (hi - lo), t requires 0 <= t < 2 * (hi - lo) =>
      if t % 2 == 0 then bs[lo + t / 2].off else Foot(bs[lo + t / 2]))
  }

  /** Offsets of the tags of block `i` and its neighbours. */
  function NearTags(bs: seq<Block>, i: int): (ps: seq<int>)
    requires 0 <= i < |bs|
  {
    BlockTags(bs, if i > 0 then i - 1 else i, if i + 1 < |bs| then i + 2 else i + 1)
  }

  lemma InNearTags(bs: seq<Block>, i: int, t: int)
    requires 0 <= i < |bs| && 0 <= t < |bs| && i - 1 <= t <= i + 1
    ensures bs[t].off in NearTags(bs, i) && Foot(bs[t]) in NearTags(bs, i)
  {
    var lo := if i > 0 then i - 1 else i;
    var ps := NearTags(bs, i);
    assert ps[2 * (t - lo)] == bs[t].off;
    assert ps[2 * (t - lo) + 1] == Foot(bs[t]);
  }

  /** A changed byte inside one of the `NearTags` slots lies in a tag of one
      of the blocks `i - 1` to `i + 1`. */
  lemma NearTagSlot(bs: seq<Block>, i: int, q: int) returns (t: int)
    requires 0 <= i < |bs| && InTagSlots(NearTags(bs, i), q)
    ensures 0 <= t < |bs| && i - 1 <= t <= i + 1
    ensures bs[t].off <= q < bs[t].off + TAG || Foot(bs[t]) <= q < Foot(bs[t]) + TAG
  {
    var lo := if i > 0 then i - 1 else i;
    var ps := NearTags(bs, i);
    var u :| 0 <= u < |ps| && ps[u] <= q < ps[u] + TAG;
    t := lo + u / 2;
  }

  /** The four tag offsets `splitBlock` writes when it splits block `t` (the
      released block or its predecessor) back at its own size lie among the
      tags of the released block `i` and its neighbours. */
  lemma SplitNear(bs: seq<Block>, n: int, i: int, t: int, foot: int)
    requires Tiled(bs, n) && 0 <= i < |bs| && i - 1 <= t <= i && 0 <= t && t + 1 < |bs|
    requires foot in NearTags(bs, i)
    ensures forall u :: 0 <= u < 4 ==> SplitTags(bs[t].off, bs[t].space, foot)[u] in NearTags(bs, i)
  {
    InNearTags(bs, i, t);
    InNearTags(bs, i, t + 1);
  }

  /** A store of one link field of the node at `x`. */
  lemma LinkStoreFrame(m: seq<byte>, m': seq<byte>, x: int, lo: int)
    requires SameOutside(m, m', lo, lo + 8) && (lo == x + 8 || lo == x + 16)
    ensures LinksOnly(m, m', [x])
  {
    forall q | 0 <= q < |m| && m'[q] != m[q]
      ensures InLinkSlots([x], q)
    {
      assert [x][0] == x;
    }
  }

  /** A tag that reads the same in two arenas is the same bytes in both. */
  lemma TagBytesSame(m0: seq<byte>, m1: seq<byte>, b: Block, q: int)
    requires BlockTagsOK(m0, b) && BlockTagsOK(m1, b)
    requires b.off <= q < b.off + TAG || Foot(b) <= q < Foot(b) + TAG
    ensures m1[q] == m0[q]
  {
    var p := if q < b.off + TAG then b.off else Foot(b);
    Int32Injective(m0[p..p + 4], m1[p..p + 4]);
    assert m1[q] == m1[p..p + 4][q - p] && m0[q] == m0[p..p + 4][q - p];
  }

  /** The `len` bytes at `p` in `m0` are found at `r` in `m1`. */
  ghost predicate Carried(m0: seq<byte>, p: int, m1: seq<byte>, r: int, len: int)
  {
    0 <= len && 0 <= p && p + len <= |m0| && 0 <= r && r + len <= |m1| && m1[r..r + len] == m0[p..p + len]
  }

  /** What `myrealloc(p, sz)` on the pool `bs`, `fl` with arena `m0` makes
      of it, as its design intends: block `i` (payload `p`) is freed and the
      best fit for `sz` is taken from the pool that freeing leaves. When
      there is none the result is NULL, the layout is `bs` again, the list
      holds the same nodes, and only links of listed nodes changed in the
      arena (so the old payload is intact); otherwise the result is the new
      payload, which starts with the first `min(oldSpace, sz)` bytes of the
      old one, and apart from those bytes only the tags and links that
      `myfree` and `myalloc` write differ from `m0`. */
  ghost predicate Reallocated(bs: seq<Block>, fl: seq<int>, m0: seq<byte>, p: int, sz: int,
                              r: int, bs': seq<Block>, fl': seq<int>, m': seq<byte>)
  {
    var i := IndexOf(bs, p - TAG);
    && 0 <= i && !bs[i].free
    && var fb := FreeBlocks(bs, i);
    && var ffl := FreeList(bs, i, fl);
    && var b := BestFit(ListSpaces(fb, ffl), sz);
    && (b == -1 <==> r == NULL)
    && (b == -1 ==> bs' == bs && fl' == RollbackList(bs, i, fl) && LinksOnly(m0, m', fl))
    && (b != -1 ==>
          var j := IndexOf(fb, ffl[b]);
          && 0 <= j && r == ffl[b] + TAG
          && bs' == AllocBlocks(fb, j, Clamp(sz)) && fl' == AllocList(fb, j, Clamp(sz), ffl)
          && Carried(m0, p, m', r, Min(bs[i].space, sz))
          && ChangedBut(m0, m', NearTags(bs, i) + TakeTags(fb, j, Clamp(sz)),
                        PushIf(fb, j, Clamp(sz), [bs[i].off] + fl), r, r + Min(bs[i].space, sz)))
  }

  /** The success case of `Reallocated`: the saved prefix of the old
      payload landed at the start of the block `myalloc` chose. */
  lemma MovedReallocated(bs: seq<Block>, fl: seq<int>, m0: seq<byte>, p: int, sz: int, saved: seq<byte>,
                         i: int, fb: seq<Block>, ffl: seq<int>, b: int,
                         r: int, bs': seq<Block>, fl': seq<int>, mid: seq<byte>, m': seq<byte>)
    requires i == IndexOf(bs, p - TAG) && 0 <= i && !bs[i].free
    requires fb == FreeBlocks(bs, i) && ffl == FreeList(bs, i, fl) && b == BestFit(ListSpaces(fb, ffl), sz)
    requires 0 <= Min(bs[i].space, sz) && 0 <= p && p + Min(bs[i].space, sz) <= |m0| && saved == m0[p..p + Min(bs[i].space, sz)]
    requires b != -1 && r != NULL
    requires var j := IndexOf(fb, ffl[b]);
      && 0 <= j && r == ffl[b] + TAG
      && bs' == AllocBlocks(fb, j, Clamp(sz)) && fl' == AllocList(fb, j, Clamp(sz), ffl)
    requires 0 <= r && r + |saved| <= |m'| && m'[r..r + |saved|] == saved
    requires var j := IndexOf(fb, ffl[b]);
      ChangedOnly(m0, mid, NearTags(bs, i) + TakeTags(fb, j, Clamp(sz)), PushIf(fb, j, Clamp(sz), [bs[i].off] + fl))
    requires SameOutside(mid, m', r, r + |saved|)
    ensures Reallocated(bs, fl, m0, p, sz, r, bs', fl', m')
  {
    assert Carried(m0, p, m', r, Min(bs[i].space, sz));
  }

  /** `myrealloc` as its design intends leaves the payload of every other
      allocated block as it was; when it fails, it leaves every payload,
      the old block's included. */
  lemma ReallocKeeps(bs: seq<Block>, fl: seq<int>, n: int, m0: seq<byte>, p: int, sz: int,
                     r: int, bs': seq<Block>, fl': seq<int>, m': seq<byte>)
    requires Inv(bs, fl, n) && |m0| == n && 0 <= sz
    requires Reallocated(bs, fl, m0, p, sz, r, bs', fl', m')
    ensures r == NULL ==> PayloadsKept(m0, m', bs)
    ensures r != NULL ==> PayloadsKept(m0, m', Mark(bs, IndexOf(bs, p - TAG), true))
  {
    var i := IndexOf(bs, p - TAG);
    var fb, ffl := FreeBlocks(bs, i), FreeList(bs, i, fl);
    var b := BestFit(ListSpaces(fb, ffl), sz);
    if r == NULL {
      LinksKeep(m0, m', bs, fl, n);
    } else {
      var j := IndexOf(fb, ffl[b]);
      FreeInv(bs, fl, n, i);
      BestFitChoice(fb, n, ffl, sz);
      FreedTakenKeeps(m0, m', bs, fl, n, i, j, Clamp(sz), r, r + Min(bs[i].space, sz));
    }
  }

  /** The arena after the success path of `myrealloc` as written, from the
      arena `mid` just after `myalloc` returned payload `r` of `nSpace` bytes:
      the first four bytes of `r` get the four bytes then at `p`, the next
      sixteen the two saved words `tempA` and `tempB`, and bytes 20 up to
      `min(nSpace, sz)` are copied one by one from `p`, all reading the arena
      as it is after `myfree` and `myalloc` wrote to it. */
  function AsWrittenBytes(mid: seq<byte>, p: int, r: int, nSpace: int, sz: int, tempA: int, tempB: int): (m: seq<byte>)
    requires 0 <= p && p + 20 <= |mid| && p + Min(nSpace, sz) <= |mid|
    requires 0 <= r && r + 20 <= |mid| && r + Min(nSpace, sz) <= |mid|
    requires 0 <= tempA < TWO64 && 0 <= tempB < TWO64
    ensures |m| == |mid|
  {
    var m1 := Put(mid, r, mid[p..p + 4]);
    var m2 := Put(Put(m1, r + 4, EncodeU64(tempA)), r + 12, EncodeU64(tempB));
    CopyForward(m2, r, p, 20, Min(nSpace, sz))
  }

  /** When the new payload `r` lies below the old one `p`, bytes 20 up to
      `min(nSpace, sz)` of the new payload are the bytes of the arena after
      `myalloc`, not of the old payload: whatever `myfree` and `myalloc`
      wrote over the old data is what gets copied. */
  lemma AsWrittenCopiesArena(mid: seq<byte>, p: int, r: int, nSpace: int, sz: int, tempA: int, tempB: int)
    requires 0 <= p && p + 20 <= |mid| && p + Min(nSpace, sz) <= |mid|
    requires 0 <= r && r + 20 <= |mid| && r + Min(nSpace, sz) <= |mid|
    requires 0 <= tempA < TWO64 && 0 <= tempB < TWO64
    requires r <= p
    ensures forall q :: r + 20 <= q < r + Min(nSpace, sz) ==>
      AsWrittenBytes(mid, p, r, nSpace, sz, tempA, tempB)[q] == mid[q - r + p]
  {
    var m1 := Put(mid, r, mid[p..p + 4]);
    var m2 := Put(Put(m1, r + 4, EncodeU64(tempA)), r + 12, EncodeU64(tempB));
    CopyForwardMoves(m2, r, p, 20, Min(nSpace, sz));
  }

  /** The as-written copy stores only into the new payload's `nSpace` bytes. */
  lemma AsWrittenFrame(mid: seq<byte>, p: int, r: int, nSpace: int, sz: int, tempA: int, tempB: int)
    requires 0 <= p && p + 20 <= |mid| && p + Min(nSpace, sz) <= |mid|
    requires 0 <= r && r + 20 <= |mid| && r + Min(nSpace, sz) <= |mid|
    requires 0 <= tempA < TWO64 && 0 <= tempB < TWO64
    requires 20 <= nSpace && r + nSpace <= |mid|
    ensures SameOutside(mid, AsWrittenBytes(mid, p, r, nSpace, sz, tempA, tempB), r, r + nSpace)
  {
    var m1 := Put(mid, r, mid[p..p + 4]);
    var m2 := Put(Put(m1, r + 4, EncodeU64(tempA)), r + 12, EncodeU64(tempB));
    CopyForwardFrame(m2, r, p, 20, Min(nSpace, sz));
  }

  /** What the first half of `myrealloc` leaves for the second: block `i`
      of `bs` (arena `m0`, list head `head0`) was freed, giving the layout
      `bs'`, the list `fl'` and the arena `m'`, and `h`, `oldSpace`, the
      neighbours' headers and the two link words `tempA`, `tempB` that
      `myfree` writes over were saved. */
  ghost predicate Released(base: int, size: int, m0: seq<byte>, head0: int, bs: seq<Block>, fl: seq<int>, i: int,
                           h: int, oldSpace: int, prevHeadptr: int, prevSpace: int, nextHeadptr: int,
                           tempA: int, tempB: int, bs': seq<Block>, fl': seq<int>, m': seq<byte>)
  {
    && State(m0, base, size, bs, fl, head0) && Inv(bs, fl, size)
    && 0 <= i < |bs| && !bs[i].free && h == bs[i].off && oldSpace == bs[i].space
    && 0 <= h && h + NODE <= size
    && bs' == FreeBlocks(bs, i) && fl' == FreeList(bs, i, fl)
    && (prevHeadptr != NULL) == PrevFree(bs, i)
    && (PrevFree(bs, i) ==> prevHeadptr == bs[i - 1].off && prevSpace == bs[i - 1].space)
    && (nextHeadptr != NULL) == NextFree(bs, i)
    && tempA == U64At(m0, h + 8) && tempB == U64At(m0, h + 16)
    && ChangedOnly(m0, m', NearTags(bs, i), [h] + fl)
  }

  /** `myrealloc(p, sz)` on `bs`, `fl` reads only inside an arena of `n`
      bytes: the copy loop stops at `min(nSpace, sz)` bytes from `p`, where
      `nSpace` is the payload of the block `myalloc` picks. */
  ghost predicate CopyInArena(bs: seq<Block>, fl: seq<int>, p: int, sz: int, n: int)
  {
    var i := IndexOf(bs, p - TAG);
    0 <= i &&
    var fb := FreeBlocks(bs, i);
    var ffl := FreeList(bs, i, fl);
    var b := BestFit(ListSpaces(fb, ffl), sz);
    b != -1 ==>
      var j := IndexOf(fb, ffl[b]);
      0 <= j < |AllocBlocks(fb, j, Clamp(sz))| ==> p + Min(AllocBlocks(fb, j, Clamp(sz))[j].space, sz) <= n
  }

  /** What `myrealloc(p, sz)` as written makes of the pool `bs`, `fl` with
      arena `m0`: the layout and list are those of `Reallocated`; the
      failure path is the same, and on success the arena is `AsWrittenBytes`
      of the arena `mid` that `myalloc` left, which differs from `m0` only in
      the tags and links that `myfree` and `myalloc` write. */
  ghost predicate ReallocatedAsWritten(bs: seq<Block>, fl: seq<int>, m0: seq<byte>, p: int, sz: int,
                                       r: int, bs': seq<Block>, fl': seq<int>, mid: seq<byte>, m': seq<byte>)
  {
    var i := IndexOf(bs, p - TAG);
    && 0 <= i && !bs[i].free
    && var fb := FreeBlocks(bs, i);
    && var ffl := FreeList(bs, i, fl);
    && var b := BestFit(ListSpaces(fb, ffl), sz);
    && (b == -1 <==> r == NULL)
    && (b == -1 ==> bs' == bs && fl' == RollbackList(bs, i, fl) && LinksOnly(m0, m', fl))
    && (b != -1 ==>
          var j := IndexOf(fb, ffl[b]);
          && 0 <= j < |bs'| && r == ffl[b] + TAG
          && bs' == AllocBlocks(fb, j, Clamp(sz)) && fl' == AllocList(fb, j, Clamp(sz), ffl)
          && 0 <= p - TAG && p + 20 <= |m0| && |mid| == |m0|
          && 0 <= p && p + Min(bs'[j].space, sz) <= |mid|
          && 0 <= r && r + 20 <= |mid| && r + Min(bs'[j].space, sz) <= |mid|
          && ChangedOnly(m0, mid, NearTags(bs, i) + TakeTags(fb, j, Clamp(sz)), PushIf(fb, j, Clamp(sz), [bs[i].off] + fl))
          && m' == AsWrittenBytes(mid, p, r, bs'[j].space, sz, U64At(m0, p + 4), U64At(m0, p + 12)))
  }

  /** The failure path of `myrealloc` is the same as written and as intended. */
  lemma FailedAsWritten(bs: seq<Block>, fl: seq<int>, m0: seq<byte>, p: int, sz: int,
                        bs': seq<Block>, fl': seq<int>, mid: seq<byte>, m': seq<byte>)
    requires Reallocated(bs, fl, m0, p, sz, NULL, bs', fl', m')
    ensures ReallocatedAsWritten(bs, fl, m0, p, sz, NULL, bs', fl', mid, m')
  {
  }

  /** The success case of `ReallocatedAsWritten`. */
  lemma CopiedAsWritten(bs: seq<Block>, fl: seq<int>, m0: seq<byte>, p: int, sz: int,
                        i: int, fb: seq<Block>, ffl: seq<int>, b: int, j: int,
                        r: int, bs': seq<Block>, fl': seq<int>, mid: seq<byte>, m': seq<byte>)
    requires i == IndexOf(bs, p - TAG) && 0 <= i && !bs[i].free
    requires fb == FreeBlocks(bs, i) && ffl == FreeList(bs, i, fl) && b == BestFit(ListSpaces(fb, ffl), sz)
    requires b != -1 && r != NULL && j == IndexOf(fb, ffl[b])
    requires 0 <= j < |bs'| && r == ffl[b] + TAG
    requires bs' == AllocBlocks(fb, j, Clamp(sz)) && fl' == AllocList(fb, j, Clamp(sz), ffl)
    requires 0 <= p - TAG && p + 20 <= |m0| && |mid| == |m0|
    requires 0 <= p && p + Min(bs'[j].space, sz) <= |mid|
    requires 0 <= r && r + 20 <= |mid| && r + Min(bs'[j].space, sz) <= |mid|
    requires ChangedOnly(m0, mid, NearTags(bs, i) + TakeTags(fb, j, Clamp(sz)), PushIf(fb, j, Clamp(sz), [bs[i].off] + fl))
    requires m' == AsWrittenBytes(mid, p, r, bs'[j].space, sz, U64At(m0, p + 4), U64At(m0, p + 12))
    ensures ReallocatedAsWritten(bs, fl, m0, p, sz, r, bs', fl', mid, m')
  {
  }

  /** `myrealloc` as written also leaves the payload of every other
      allocated block as it was, and on failure every payload. */
  lemma ReallocAsWrittenKeeps(bs: seq<Block>, fl: seq<int>, n: int, m0: seq<byte>, p: int, sz: int,
                              r: int, bs': seq<Block>, fl': seq<int>, mid: seq<byte>, m': seq<byte>)
    requires Inv(bs, fl, n) && |m0| == n && 0 <= sz
    requires ReallocatedAsWritten(bs, fl, m0, p, sz, r, bs', fl', mid, m')
    ensures r == NULL ==> PayloadsKept(m0, m', bs)
    ensures r != NULL ==> PayloadsKept(m0, m', Mark(bs, IndexOf(bs, p - TAG), true))
  {
    var i := IndexOf(bs, p - TAG);
    var fb, ffl := FreeBlocks(bs, i), FreeList(bs, i, fl);
    var b := BestFit(ListSpaces(fb, ffl), sz);
    if r == NULL {
      LinksKeep(m0, m', bs, fl, n);
    } else {
      var j := IndexOf(fb, ffl[b]);
      var k := Clamp(sz);
      FreeInv(bs, fl, n, i);
      BestFitChoice(fb, n, ffl, sz);
      InArena(fb, n, j);
      var nSpace := bs'[j].space;
      assert nSpace == SplitIf(fb, j, k)[j].space;
      AsWrittenFrame(mid, p, r, nSpace, sz, U64At(m0, p + 4), U64At(m0, p + 12));
      FreedTakenKeeps(m0, m', bs, fl, n, i, j, k, r, r + nSpace);
    }
  }

  /** A link field that decodes to the same pointer is the same bytes. */
  lemma LinkBytesSame(m0: seq<byte>, m1: seq<byte>, p: int)
    requires 0 <= p && p + 8 <= |m0| && p + 8 <= |m1| && U64At(m0, p) == U64At(m1, p)
    ensures forall q :: p <= q < p + 8 ==> m1[q] == m0[q]
  {
    U64BytesRoundTrip(m0[p..p + 8]);
    U64BytesRoundTrip(m1[p..p + 8]);
    forall q | p <= q < p + 8
      ensures m1[q] == m0[q]
    {
      assert m1[q] == m1[p..p + 8][q - p] && m0[q] == m0[p..p + 8][q - p];
    }
  }

  /** When only the tags of block `i` and its neighbours and the links of `h`
      and the listed nodes changed, but every tag reads as before and the
      links of `h` are back, then only links of listed nodes changed. */
  lemma RestoreFrame(m0: seq<byte>, m1: seq<byte>, base: int, n: int, bs: seq<Block>, fl: seq<int>, head: int,
                     fl1: seq<int>, head1: int, i: int)
    requires State(m0, base, n, bs, fl, head) && State(m1, base, n, bs, fl1, head1) && 0 <= i < |bs|
    requires ChangedOnly(m0, m1, NearTags(bs, i), [bs[i].off] + fl)
    requires 0 <= bs[i].off && bs[i].off + NODE <= n
    requires forall q :: bs[i].off + 8 <= q < bs[i].off + NODE ==> m1[q] == m0[q]
    ensures LinksOnly(m0, m1, fl)
  {
    var h := bs[i].off;
    forall q | 0 <= q < |m0| && m1[q] != m0[q]
      ensures InLinkSlots(fl, q)
    {
      if InTagSlots(NearTags(bs, i), q) {
        var t := NearTagSlot(bs, i, q);
        assert BlockTagsOK(m0, bs[t]) && BlockTagsOK(m1, bs[t]);
        TagBytesSame(m0, m1, bs[t], q);
        assert false;
      } else {
        var k :| 0 <= k < |[h] + fl| && ([h] + fl)[k] + 8 <= q < ([h] + fl)[k] + NODE;
        assert k > 0;
        assert fl[k - 1] + 8 <= q < fl[k - 1] + NODE;
      }
    }
  }

  /** The three steps of `myfree` together change only the tags of the
      released block and its neighbours and the links of listed nodes.
      The premises are stated in the form the steps' own contracts take:
      `mk` is the layout after the release, `mb` the one after merging back. */
  lemma FreeFrame(m0: seq<byte>, m1: seq<byte>, m2: seq<byte>, m3: seq<byte>,
                  bs: seq<Block>, n: int, i: int, fl: seq<int>,
                  mb: seq<Block>, j: int, h2: int, fl2: seq<int>)
    requires Wf(bs, n) && Listed(bs, fl) && 0 <= i < |bs| && !bs[i].free
    requires var mk := Mark(bs, i, true);
      && ChangedOnly(m0, m1, TagPair(bs[i].off, Foot(bs[i])), [bs[i].off] + fl)
      && ChangedOnly(m1, m2, if PrevFree(mk, i) then TagPair(mk[i - 1].off, Foot(mk[i])) else [], [bs[i].off] + fl)
      && j == (if PrevFree(mk, i) then i - 1 else i)
      && mb == (if PrevFree(mk, i) then MergeAt(mk, i - 1) else mk)
    requires 0 <= j < |mb| && h2 == mb[j].off
    requires ChangedOnly(m2, m3, if NextFree(mb, j) then TagPair(h2, Foot(mb[j + 1])) else [], fl2)
    requires Elems(fl2) <= Elems([bs[i].off] + fl)
    ensures ChangedOnly(m0, m3, NearTags(bs, i), [bs[i].off] + fl)
  {
    var ps, xs := NearTags(bs, i), [bs[i].off] + fl;
    InNearTags(bs, i, i);
    ChangedWeaken(m0, m1, TagPair(bs[i].off, Foot(bs[i])), xs, ps, xs);
    MergeBackFrame(m1, m2, bs, i, xs);
    MergeForwardFrame(m2, m3, bs, n, i, fl, mb, j, h2, fl2);
    ChangedTrans(m0, m1, m2, ps, xs);
    ChangedTrans(m0, m2, m3, ps, xs);
  }

  /** Merging the released block `i` into its free predecessor rewrites
      tags among `NearTags(bs, i)`. */
  lemma MergeBackFrame(m1: seq<byte>, m2: seq<byte>, bs: seq<Block>, i: int, xs: seq<int>)
    requires 0 <= i < |bs|
    requires var mk := Mark(bs, i, true);
      ChangedOnly(m1, m2, if PrevFree(mk, i) then TagPair(mk[i - 1].off, Foot(mk[i])) else [], xs)
    ensures ChangedOnly(m1, m2, NearTags(bs, i), xs)
  {
    var mk := Mark(bs, i, true);
    if PrevFree(mk, i) {
      InNearTags(bs, i, i - 1);
      InNearTags(bs, i, i);
      ChangedWeaken(m1, m2, TagPair(mk[i - 1].off, Foot(mk[i])), xs, NearTags(bs, i), xs);
    } else {
      ChangedWeaken(m1, m2, [], xs, NearTags(bs, i), xs);
    }
  }

  /** Merging the free successor into the block that now holds the released
      block `i` rewrites tags among `NearTags(bs, i)`, and links only of
      nodes that were listed. */
  lemma MergeForwardFrame(m2: seq<byte>, m3: seq<byte>, bs: seq<Block>, n: int, i: int, fl: seq<int>,
                          mb: seq<Block>, j: int, h2: int, fl2: seq<int>)
    requires Wf(bs, n) && Listed(bs, fl) && 0 <= i < |bs| && !bs[i].free
    requires var mk := Mark(bs, i, true);
      && j == (if PrevFree(mk, i) then i - 1 else i)
      && mb == (if PrevFree(mk, i) then MergeAt(mk, i - 1) else mk)
    requires 0 <= j < |mb| && h2 == mb[j].off
    requires ChangedOnly(m2, m3, if NextFree(mb, j) then TagPair(h2, Foot(mb[j + 1])) else [], fl2)
    requires Elems(fl2) <= Elems([bs[i].off] + fl)
    ensures ChangedOnly(m2, m3, NearTags(bs, i), [bs[i].off] + fl)
  {
    if NextFree(mb, j) {
      FreeSteps(bs, n, i, fl);
      InNearTags(bs, i, i + 1);
      InNearTags(bs, i, j);
      assert mb[j].off == bs[j].off;
      ChangedWeaken(m2, m3, TagPair(h2, Foot(mb[j + 1])), fl2, NearTags(bs, i), [bs[i].off] + fl);
    } else {
      ChangedWeaken(m2, m3, [], fl2, NearTags(bs, i), [bs[i].off] + fl);
    }
  }

  // ---------------------------------------------------------------------
  // Frame lemmas

  lemma LinksFrame(m: seq<byte>, m': seq<byte>, base: int, x: int, nx: int, pv: int, lo: int, hi: int)
    requires LinksAre(m, base, x, nx, pv) && SameOutside(m, m', lo, hi)
    requires x + NODE <= lo || hi <= x + 8
    ensures LinksAre(m', base, x, nx, pv)
  {
    SliceUnchanged(m, m', lo, hi, x + 8, 8);
    SliceUnchanged(m, m', lo, hi, x + 16, 8);
  }

  lemma BlockTagsFrame(m: seq<byte>, m': seq<byte>, b: Block, lo: int, hi: int)
    requires BlockTagsOK(m, b) && SameOutside(m, m', lo, hi)
    requires hi <= b.off || End(b) <= lo || (b.off + TAG <= lo && hi <= Foot(b))
    ensures BlockTagsOK(m', b)
  {
    SliceUnchanged(m, m', lo, hi, b.off, 4);
    SliceUnchanged(m, m', lo, hi, Foot(b), 4);
  }

  /** Writes confined to the span `[lo, hi)` of blocks `i..j` leave every other block's tags alone. */
  lemma TagsOutsideRange(m: seq<byte>, m': seq<byte>, bs: seq<Block>, n: int, i: int, j: int, lo: int, hi: int)
    requires Tiled(bs, n) && TagsOK(m, bs) && SameOutside(m, m', lo, hi)
    requires 0 <= i <= j < |bs| && bs[i].off <= lo && hi <= End(bs[j])
    ensures forall t :: 0 <= t < |bs| && (t < i || j < t) ==> BlockTagsOK(m', bs[t])
  {
    Ordered(bs, n);
    forall t | 0 <= t < |bs| && (t < i || j < t)
      ensures BlockTagsOK(m', bs[t])
    {
      BlockTagsFrame(m, m', bs[t], lo, hi);
    }
  }

  /** A tag byte of a block never lies in the link fields of a free block. */
  lemma TagByteNotLink(bs: seq<Block>, n: int, xs: seq<int>, i: int, q: int)
    requires Wf(bs, n) && 0 <= i < |bs|
    requires forall k :: 0 <= k < |xs| ==> xs[k] in FreeOffsets(bs)
    requires (bs[i].off <= q < bs[i].off + TAG) || (Foot(bs[i]) <= q < End(bs[i]))
    ensures !InLinkSlots(xs, q)
  {
    if InLinkSlots(xs, q) {
      var k :| 0 <= k < |xs| && xs[k] + 8 <= q < xs[k] + NODE;
      var j :| 0 <= j < |bs| && bs[j].free && bs[j].off == xs[k];
      if j < i {
        OrderedFrom(bs, n, j, i);
      } else if i < j {
        OrderedFrom(bs, n, i, j);
      }
      assert false;
    }
  }

  /** Changes confined to link fields of free blocks leave all tags alone. */
  lemma TagsUnderLinks(m: seq<byte>, m': seq<byte>, bs: seq<Block>, n: int, xs: seq<int>)
    requires Wf(bs, n) && |m| == n && TagsOK(m, bs) && LinksOnly(m, m', xs)
    requires forall k :: 0 <= k < |xs| ==> xs[k] in FreeOffsets(bs)
    ensures TagsOK(m', bs)
  {
    forall i | 0 <= i < |bs|
      ensures BlockTagsOK(m', bs[i])
    {
      var b := bs[i];
      assert BlockTagsOK(m, b);
      forall q | (b.off <= q < b.off + TAG) || (Foot(b) <= q < End(b))
        ensures m'[q] == m[q]
      {
        TagByteNotLink(bs, n, xs, i, q);
      }
      assert m'[b.off..b.off + 4] == m[b.off..b.off + 4];
      assert m'[Foot(b)..Foot(b) + 4] == m[Foot(b)..Foot(b) + 4];
    }
  }

  /** A link byte of a free block never lies in a tag. */
  lemma LinkByteNotTag(bs: seq<Block>, n: int, ps: seq<int>, j: int, q: int)
    requires Wf(bs, n) && 0 <= j < |bs|
    requires forall t :: 0 <= t < |ps| ==> IsTagPos(bs, ps[t])
    requires bs[j].off + 8 <= q < bs[j].off + NODE
    ensures !InTagSlots(ps, q)
  {
    if InTagSlots(ps, q) {
      var t :| 0 <= t < |ps| && ps[t] <= q < ps[t] + TAG;
      var i :| 0 <= i < |bs| && (ps[t] == bs[i].off || ps[t] == Foot(bs[i]));
      if j < i {
        OrderedFrom(bs, n, j, i);
      } else if i < j {
        OrderedFrom(bs, n, i, j);
      }
      assert false;
    }
  }

  lemma NodeUnderTags(m: seq<byte>, m': seq<byte>, base: int, x: int, nx: int, pv: int, bs: seq<Block>, n: int, ps: seq<int>)
    requires Wf(bs, n) && |m| == n && LinksAre(m, base, x, nx, pv) && TagsOnly(m, m', ps)
    requires x in FreeOffsets(bs)
    requires forall t :: 0 <= t < |ps| ==> IsTagPos(bs, ps[t])
    ensures LinksAre(m', base, x, nx, pv)
  {
    var j :| 0 <= j < |bs| && bs[j].free && bs[j].off == x;
    forall q | x + 8 <= q < x + NODE
      ensures m'[q] == m[q]
    {
      LinkByteNotTag(bs, n, ps, j, q);
    }
    assert m'[x + 8..x + 16] == m[x + 8..x + 16];
    assert m'[x + 16..x + 24] == m[x + 16..x + 24];
  }

  /** Changes confined to tag slots of blocks leave the links of free blocks alone. */
  lemma ListUnderTags(m: seq<byte>, m': seq<byte>, base: int, fl: seq<int>, head: int, bs: seq<Block>, n: int, ps: seq<int>)
    requires Wf(bs, n) && |m| == n && ListOK(m, base, fl, head) && TagsOnly(m, m', ps)
    requires forall k :: 0 <= k < |fl| ==> fl[k] in FreeOffsets(bs)
    requires forall t :: 0 <= t < |ps| ==> IsTagPos(bs, ps[t])
    ensures ListOK(m', base, fl, head)
  {
    forall k | 0 <= k < |fl|
      ensures NodeOK(m', base, fl, k)
    {
      assert NodeOK(m, base, fl, k);
      NodeUnderTags(m, m', base, fl[k], NextOf(fl, k), PrevOf(fl, k), bs, n, ps);
    }
  }

  /** `p` is the offset of a header or footer tag of some block. */
  ghost predicate IsTagPos(bs: seq<Block>, p: int)
  {
    exists i :: 0 <= i < |bs| && (p == bs[i].off || p == Foot(bs[i]))
  }

  /** Distinct free blocks have non-overlapping nodes. */
  lemma FreeNodesSpaced(bs: seq<Block>, n: int, fl: seq<int>)
    requires Wf(bs, n) && Distinct(fl)
    requires forall k :: 0 <= k < |fl| ==> fl[k] in FreeOffsets(bs)
    ensures Spaced(fl)
  {
    Ordered(bs, n);
    forall a, b | 0 <= a < |fl| && 0 <= b < |fl| && a != b
      ensures Apart(fl[a], fl[b])
    {
      var i :| 0 <= i < |bs| && bs[i].free && bs[i].off == fl[a];
      var j :| 0 <= j < |bs| && bs[j].free && bs[j].off == fl[b];
      assert i != j;
    }
  }

  /** The offset a stored link denotes. */
  function Ptr(base: int, v: int): int
  {
    if v == 0 then NULL else v - base
  }

  lemma RemoveKeepsSpaced(s: seq<int>, k: int)
    requires 0 <= k < |s| && Spaced(s)
    ensures Spaced(Unlinked(s, k))
  {
    var r := Unlinked(s, k);
    forall a, b | 0 <= a < |r| && 0 <= b < |r| && a != b
      ensures Apart(r[a], r[b])
    {
      var a' := if a < k then a else a + 1;
      var b' := if b < k then b else b + 1;
      assert r[a] == s[a'] && r[b] == s[b'];
    }
  }

  /** `m` and `m'` agree outside `[lo1, hi1)` and `[lo2, hi2)`. */
  ghost predicate SameOutside2(m: seq<byte>, m': seq<byte>, lo1: int, hi1: int, lo2: int, hi2: int)
  {
    |m| == |m'| && forall q :: 0 <= q < |m| && (q < lo1 || hi1 <= q) && (q < lo2 || hi2 <= q) ==> m'[q] == m[q]
  }

  lemma LinksFrame2(m: seq<byte>, m': seq<byte>, base: int, x: int, nx: int, pv: int, lo1: int, hi1: int, lo2: int, hi2: int)
    requires LinksAre(m, base, x, nx, pv) && SameOutside2(m, m', lo1, hi1, lo2, hi2)
    requires x + NODE <= lo1 || hi1 <= x + 8
    requires x + NODE <= lo2 || hi2 <= x + 8
    ensures LinksAre(m', base, x, nx, pv)
  {
    assert m'[x + 8..x + 16] == m[x + 8..x + 16];
    assert m'[x + 16..x + 24] == m[x + 16..x + 24];
  }

  /** A slice outside both changed intervals reads the same. */
  lemma SliceUnchanged2(m: seq<byte>, m': seq<byte>, lo1: int, hi1: int, lo2: int, hi2: int, p: int, n: nat)
    requires SameOutside2(m, m', lo1, hi1, lo2, hi2)
    requires 0 <= p && p + n <= |m|
    requires p + n <= lo1 || hi1 <= p
    requires p + n <= lo2 || hi2 <= p
    ensures m'[p..p + n] == m[p..p + n]
  {
  }

  /** A node already on the list keeps its links across `addNode(n)`. */
  lemma PushNodeOK(m: seq<byte>, m': seq<byte>, base: int, fl: seq<int>, head: int, n: int, lo: int, hi: int, k: int)
    requires ListOK(m, base, fl, head) && 0 <= n && n + NODE <= |m|
    requires forall k :: 0 <= k < |fl| ==> fl[k] + NODE <= n || n + NODE <= fl[k]
    requires lo == (if fl == [] then 0 else fl[0] + 16) && hi == (if fl == [] then 0 else fl[0] + NODE)
    requires SameOutside2(m, m', n + 8, n + NODE, lo, hi)
    requires fl != [] ==> U64At(m', fl[0] + 16) == Addr(base, n)
    requires 1 <= k <= |fl|
    ensures NodeOK(m', base, [n] + fl, k)
  {
    var fl' := [n] + fl;
    var x := fl[k - 1];
    assert fl'[k] == x && NextOf(fl', k) == NextOf(fl, k - 1);
    assert NodeOK(m, base, fl, k - 1);
    if k == 1 {
      SliceUnchanged2(m, m', n + 8, n + NODE, lo, hi, x + 8, 8);
    } else {
      assert Apart(fl[k - 1], fl[0]);
      LinksFrame2(m, m', base, x, NextOf(fl, k - 1), PrevOf(fl, k - 1), n + 8, n + NODE, lo, hi);
    }
  }

  /** The arena after `addNode(n)` wrote `n`'s links and the old head's `prev`. */
  lemma PushListOK(m: seq<byte>, m': seq<byte>, base: int, fl: seq<int>, head: int, n: int, lo: int, hi: int)
    requires ListOK(m, base, fl, head) && 0 <= n && n + NODE <= |m|
    requires forall k :: 0 <= k < |fl| ==> fl[k] + NODE <= n || n + NODE <= fl[k]
    requires lo == (if fl == [] then 0 else fl[0] + 16) && hi == (if fl == [] then 0 else fl[0] + NODE)
    requires SameOutside2(m, m', n + 8, n + NODE, lo, hi)
    requires LinksAre(m', base, n, head, NULL)
    requires fl != [] ==> U64At(m', fl[0] + 16) == Addr(base, n)
    ensures ListOK(m', base, [n] + fl, n)
    ensures LinksOnly(m, m', [n] + fl)
  {
    var fl' := [n] + fl;
    forall k | 1 <= k < |fl'|
      ensures NodeOK(m', base, fl', k)
    {
      PushNodeOK(m, m', base, fl, head, n, lo, hi, k);
    }
    forall a, b | 0 <= a < |fl'| && 0 <= b < |fl'| && a != b
      ensures Apart(fl'[a], fl'[b])
    {
      if a > 0 && b > 0 {
        assert fl'[a] == fl[a - 1] && fl'[b] == fl[b - 1];
      }
    }
    forall q | 0 <= q < |m| && m'[q] != m[q]
      ensures InLinkSlots(fl', q)
    {
      if n + 8 <= q < n + NODE {
        assert fl'[0] == n;
      } else {
        assert fl'[1] == fl[0];
      }
    }
  }

  /** The predecessor of the unlinked node now links forward past it. */
  lemma UnlinkPredOK(m: seq<byte>, m': seq<byte>, base: int, fl: seq<int>, head: int, k: int, j: int,
                     lo1: int, hi1: int, lo2: int, hi2: int)
    requires ListOK(m, base, fl, head) && 0 <= k < |fl| && 0 <= j < |fl| - 1
    requires lo1 == (if k == 0 then 0 else fl[k - 1] + 8) && hi1 == (if k == 0 then 0 else fl[k - 1] + 16)
    requires lo2 == (if k + 1 == |fl| then 0 else fl[k + 1] + 16) && hi2 == (if k + 1 == |fl| then 0 else fl[k + 1] + NODE)
    requires SameOutside2(m, m', lo1, hi1, lo2, hi2)
    requires k > 0 ==> U64At(m', fl[k - 1] + 8) == Addr(base, NextOf(fl, k))
    requires k + 1 < |fl| ==> U64At(m', fl[k + 1] + 16) == Addr(base, PrevOf(fl, k))
    requires j == k - 1
    ensures NodeOK(m', base, Unlinked(fl, k), j)
  {
    var fl' := Unlinked(fl, k);
    var y := fl[j];
    assert fl'[j] == y && NextOf(fl', j) == NextOf(fl, k) && PrevOf(fl', j) == PrevOf(fl, j);
    assert NodeOK(m, base, fl, j);
    assert k + 1 < |fl| ==> Apart(fl[k - 1], fl[k + 1]);
    SliceUnchanged2(m, m', lo1, hi1, lo2, hi2, y + 16, 8);
  }

  /** The successor of the unlinked node now links back past it. */
  lemma UnlinkSuccOK(m: seq<byte>, m': seq<byte>, base: int, fl: seq<int>, head: int, k: int, j: int,
                     lo1: int, hi1: int, lo2: int, hi2: int)
    requires ListOK(m, base, fl, head) && 0 <= k < |fl| && 0 <= j < |fl| - 1
    requires lo1 == (if k == 0 then 0 else fl[k - 1] + 8) && hi1 == (if k == 0 then 0 else fl[k - 1] + 16)
    requires lo2 == (if k + 1 == |fl| then 0 else fl[k + 1] + 16) && hi2 == (if k + 1 == |fl| then 0 else fl[k + 1] + NODE)
    requires SameOutside2(m, m', lo1, hi1, lo2, hi2)
    requires k > 0 ==> U64At(m', fl[k - 1] + 8) == Addr(base, NextOf(fl, k))
    requires k + 1 < |fl| ==> U64At(m', fl[k + 1] + 16) == Addr(base, PrevOf(fl, k))
    requires j == k
    ensures NodeOK(m', base, Unlinked(fl, k), j)
  {
    var fl' := Unlinked(fl, k);
    var y := fl[j + 1];
    assert fl'[j] == y && NextOf(fl', j) == NextOf(fl, j + 1) && PrevOf(fl', j) == PrevOf(fl, k);
    assert NodeOK(m, base, fl, j + 1);
    assert k > 0 ==> Apart(fl[k - 1], fl[k + 1]);
    SliceUnchanged2(m, m', lo1, hi1, lo2, hi2, y + 8, 8);
  }

  /** Every other node keeps its links. */
  lemma UnlinkOtherOK(m: seq<byte>, m': seq<byte>, base: int, fl: seq<int>, head: int, k: int, j: int,
                     lo1: int, hi1: int, lo2: int, hi2: int)
    requires ListOK(m, base, fl, head) && 0 <= k < |fl| && 0 <= j < |fl| - 1
    requires lo1 == (if k == 0 then 0 else fl[k - 1] + 8) && hi1 == (if k == 0 then 0 else fl[k - 1] + 16)
    requires lo2 == (if k + 1 == |fl| then 0 else fl[k + 1] + 16) && hi2 == (if k + 1 == |fl| then 0 else fl[k + 1] + NODE)
    requires SameOutside2(m, m', lo1, hi1, lo2, hi2)
    requires k > 0 ==> U64At(m', fl[k - 1] + 8) == Addr(base, NextOf(fl, k))
    requires k + 1 < |fl| ==> U64At(m', fl[k + 1] + 16) == Addr(base, PrevOf(fl, k))
    requires j != k - 1 && j != k
    ensures NodeOK(m', base, Unlinked(fl, k), j)
  {
    var fl' := Unlinked(fl, k);
    var j' := if j < k then j else j + 1;
    var y := fl[j'];
    assert fl'[j] == y && NextOf(fl', j) == NextOf(fl, j') && PrevOf(fl', j) == PrevOf(fl, j');
    assert NodeOK(m, base, fl, j');
    assert k > 0 ==> Apart(fl[k - 1], y);
    assert k + 1 < |fl| ==> Apart(fl[k + 1], y);
    LinksFrame2(m, m', base, y, NextOf(fl, j'), PrevOf(fl, j'), lo1, hi1, lo2, hi2);
  }

  /** The arena after `removeNode` rewrote the neighbours of position `k`. */
  lemma UnlinkListOK(m: seq<byte>, m': seq<byte>, base: int, fl: seq<int>, head: int, k: int,
                     lo1: int, hi1: int, lo2: int, hi2: int)
    requires ListOK(m, base, fl, head) && 0 <= k < |fl|
    requires lo1 == (if k == 0 then 0 else fl[k - 1] + 8) && hi1 == (if k == 0 then 0 else fl[k - 1] + 16)
    requires lo2 == (if k + 1 == |fl| then 0 else fl[k + 1] + 16) && hi2 == (if k + 1 == |fl| then 0 else fl[k + 1] + NODE)
    requires SameOutside2(m, m', lo1, hi1, lo2, hi2)
    requires k > 0 ==> U64At(m', fl[k - 1] + 8) == Addr(base, NextOf(fl, k))
    requires k + 1 < |fl| ==> U64At(m', fl[k + 1] + 16) == Addr(base, PrevOf(fl, k))
    ensures ListOK(m', base, Unlinked(fl, k), if k == 0 then NextOf(fl, k) else head)
    ensures LinksOnly(m, m', Unlinked(fl, k))
  {
    var fl' := Unlinked(fl, k);
    RemoveKeepsSpaced(fl, k);
    forall j | 0 <= j < |fl'|
      ensures NodeOK(m', base, fl', j)
    {
      if j == k - 1 {
        UnlinkPredOK(m, m', base, fl, head, k, j, lo1, hi1, lo2, hi2);
      } else if j == k {
        UnlinkSuccOK(m, m', base, fl, head, k, j, lo1, hi1, lo2, hi2);
      } else {
        UnlinkOtherOK(m, m', base, fl, head, k, j, lo1, hi1, lo2, hi2);
      }
    }
    forall q | 0 <= q < |m| && m'[q] != m[q]
      ensures InLinkSlots(fl', q)
    {
      if lo1 <= q < hi1 {
        assert fl'[k - 1] == fl[k - 1];
      } else {
        assert fl'[k] == fl[k + 1];
      }
    }
  }

  /** The three stores of `addNode`, taken together. */
  lemma PushWrites(m0: seq<byte>, m1: seq<byte>, m2: seq<byte>, m3: seq<byte>, base: int, fl: seq<int>, head: int, n: int)
    requires ListOK(m0, base, fl, head) && 0 <= n && n + NODE <= |m0|
    requires forall k :: 0 <= k < |fl| ==> fl[k] + NODE <= n || n + NODE <= fl[k]
    requires SameOutside(m0, m1, n + 8, n + 16) && U64At(m1, n + 8) == Addr(base, head)
    requires SameOutside(m1, m2, n + 16, n + NODE) && U64At(m2, n + 16) == Addr(base, NULL)
    requires fl == [] ==> m3 == m2
    requires fl != [] ==> SameOutside(m2, m3, fl[0] + 16, fl[0] + NODE) && U64At(m3, fl[0] + 16) == Addr(base, n)
    ensures ListOK(m3, base, [n] + fl, n)
    ensures LinksOnly(m0, m3, [n] + fl)
  {
    var lo := if fl == [] then 0 else fl[0] + 16;
    var hi := if fl == [] then 0 else fl[0] + NODE;
    assert SameOutside(m2, m3, lo, hi);
    SliceUnchanged(m1, m2, n + 16, n + NODE, n + 8, 8);
    SliceUnchanged(m2, m3, lo, hi, n + 8, 8);
    SliceUnchanged(m2, m3, lo, hi, n + 16, 8);
    assert SameOutside2(m0, m3, n + 8, n + NODE, lo, hi);
    PushListOK(m0, m3, base, fl, head, n, lo, hi);
  }

  /** The two stores of `removeNode`, taken together. */
  lemma UnlinkWrites(m0: seq<byte>, m1: seq<byte>, m2: seq<byte>, base: int, fl: seq<int>, head: int, k: int,
                     lo1: int, lo2: int)
    requires ListOK(m0, base, fl, head) && 0 <= k < |fl|
    requires lo1 == (if k == 0 then 0 else fl[k - 1] + 8) && lo2 == (if k + 1 == |fl| then 0 else fl[k + 1] + 16)
    requires SameOutside(m0, m1, lo1, if k == 0 then 0 else lo1 + 8)
    requires SameOutside(m1, m2, lo2, if k + 1 == |fl| then 0 else lo2 + 8)
    requires k > 0 ==> U64At(m1, lo1) == Addr(base, NextOf(fl, k))
    requires k + 1 < |fl| ==> U64At(m2, lo2) == Addr(base, PrevOf(fl, k))
    ensures ListOK(m2, base, Unlinked(fl, k), if k == 0 then NextOf(fl, k) else head)
    ensures LinksOnly(m0, m2, Unlinked(fl, k))
  {
    var hi1 := if k == 0 then 0 else lo1 + 8;
    var hi2 := if k + 1 == |fl| then 0 else lo2 + 8;
    if k > 0 {
      assert k + 1 < |fl| ==> Apart(fl[k - 1], fl[k + 1]);
      SliceUnchanged(m1, m2, lo2, hi2, lo1, 8);
    }
    assert SameOutside2(m0, m2, lo1, hi1, lo2, hi2);
    UnlinkListOK(m0, m2, base, fl, head, k, lo1, hi1, lo2, hi2);
  }

  /** Four tag stores at increasing, disjoint positions all read back. */
  lemma FourStores(m0: seq<byte>, m1: seq<byte>, m2: seq<byte>, m3: seq<byte>, m4: seq<byte>,
                   p0: int, p1: int, p2: int, p3: int, v0: int, v1: int, v2: int, v3: int)
    requires 0 <= p0 && p0 + TAG <= p1 && p1 + TAG <= p2 && p2 + TAG <= p3 && p3 + TAG <= |m0|
    requires SameOutside(m0, m1, p0, p0 + TAG) && Int32At(m1, p0) == v0
    requires SameOutside(m1, m2, p1, p1 + TAG) && Int32At(m2, p1) == v1
    requires SameOutside(m2, m3, p2, p2 + TAG) && Int32At(m3, p2) == v2
    requires SameOutside(m3, m4, p3, p3 + TAG) && Int32At(m4, p3) == v3
    ensures Int32At(m4, p0) == v0 && Int32At(m4, p1) == v1 && Int32At(m4, p2) == v2
  {
    SliceUnchanged(m1, m2, p1, p1 + TAG, p0, 4);
    SliceUnchanged(m2, m3, p2, p2 + TAG, p0, 4);
    SliceUnchanged(m3, m4, p3, p3 + TAG, p0, 4);
    SliceUnchanged(m2, m3, p2, p2 + TAG, p1, 4);
    SliceUnchanged(m3, m4, p3, p3 + TAG, p1, 4);
    SliceUnchanged(m3, m4, p3, p3 + TAG, p2, 4);
  }

  /** The tags `splitBlock(h, k)` writes: the header, the new footer, the
      remainder's header and the old footer `foot`. */
  function SplitTags(h: int, k: int, foot: int): (ps: seq<int>)
    ensures |ps| == 4 && ps[0] == h && ps[1] == h + TAG + k && ps[2] == h + TAG + k + TAG && ps[3] == foot
  {
    [h, h + TAG + k, h + TAG + k + TAG, foot]
  }

  /** The four tag stores of `splitBlock(h, k)`, taken together: at `p0` (the
      header), `p1` (the new footer), `p2` (the remainder's header) and `p3`
      (the old footer). */
  lemma SplitWrites(m0: seq<byte>, m1: seq<byte>, m2: seq<byte>, m3: seq<byte>, m4: seq<byte>,
                    bs: seq<Block>, n: int, i: int, k: int, p0: int, p1: int, p2: int, p3: int)
    requires Wf(bs, n) && |m0| == n && TagsOK(m0, bs) && 0 <= i < |bs| && BlockTagsOK(m0, bs[i])
    requires MIN_PAYLOAD <= k && k + OVERHEAD + MIN_PAYLOAD <= bs[i].space
    requires p0 == bs[i].off && p1 == p0 + TAG + k && p2 == p1 + TAG && p3 == Foot(bs[i])
    requires SameOutside(m0, m1, p0, p0 + TAG) && Int32At(m1, p0) == k
    requires SameOutside(m1, m2, p1, p1 + TAG) && Int32At(m2, p1) == k
    requires SameOutside(m2, m3, p2, p2 + TAG) && Int32At(m3, p2) == bs[i].space - k - OVERHEAD
    requires SameOutside(m3, m4, p3, p3 + TAG) && Int32At(m4, p3) == bs[i].space - k - OVERHEAD
    requires bs[i].free
    ensures TagsOK(m4, SplitAt(bs, i, k))
    ensures TagsOnly(m0, m4, SplitTags(p0, k, p3))
    ensures SameOutside(m0, m4, p0, End(bs[i]))
  {
    var r := SplitAt(bs, i, k);
    assert SameOutside(m0, m4, p0, End(bs[i]));
    TagsOutsideRange(m0, m4, bs, n, i, i, p0, End(bs[i]));
    FourStores(m0, m1, m2, m3, m4, p0, p1, p2, p3, k, k, bs[i].space - k - OVERHEAD, bs[i].space - k - OVERHEAD);
    assert r[i].off == p0 && Foot(r[i]) == p1 && r[i + 1].off == p2 && Foot(r[i + 1]) == p3;
    assert BlockTagsOK(m4, r[i]);
    assert BlockTagsOK(m4, r[i + 1]);
    forall t | 0 <= t < |r|
      ensures BlockTagsOK(m4, r[t])
    {
      if t < i {
        assert r[t] == bs[t];
        assert BlockTagsOK(m4, bs[t]);
      } else if t > i + 1 {
        assert r[t] == bs[t - 1];
        assert BlockTagsOK(m4, bs[t - 1]);
      }
    }
    var ps := SplitTags(p0, k, p3);
    forall q | 0 <= q < |m0| && m4[q] != m0[q]
      ensures InTagSlots(ps, q)
    {
      if p0 <= q < p0 + TAG {
        assert ps[0] == p0;
      } else if p1 <= q < p1 + TAG {
        assert ps[1] == p1;
      } else if p2 <= q < p2 + TAG {
        assert ps[2] == p2;
      } else {
        assert ps[3] == p3;
      }
    }
  }

  /** The positions `splitBlock` writes are tags of the split layout. */
  lemma SplitTagsArePos(bs: seq<Block>, i: int, k: int)
    requires 0 <= i < |bs|
    ensures forall t :: 0 <= t < 4 ==> IsTagPos(SplitAt(bs, i, k), SplitTags(bs[i].off, k, Foot(bs[i]))[t])
  {
    var r := SplitAt(bs, i, k);
    var ps := SplitTags(bs[i].off, k, Foot(bs[i]));
    assert r[i].off == ps[0] && Foot(r[i]) == ps[1] && r[i + 1].off == ps[2] && Foot(r[i + 1]) == ps[3];
    forall t | 0 <= t < 4
      ensures IsTagPos(r, ps[t])
    {
      if t == 0 || t == 1 {
        assert r[i].off == ps[t] || Foot(r[i]) == ps[t];
      } else {
        assert r[i + 1].off == ps[t] || Foot(r[i + 1]) == ps[t];
      }
    }
  }

  /** After `splitBlock`'s stores the arena agrees with the split layout and
      the unchanged list. */
  lemma SplitState(m0: seq<byte>, m4: seq<byte>, base: int, n: int, bs: seq<Block>, fl: seq<int>, head: int, i: int, k: int)
    requires State(m0, base, n, bs, fl, head) && 0 <= i < |bs| && bs[i].free
    requires MIN_PAYLOAD <= k && k + OVERHEAD + MIN_PAYLOAD <= bs[i].space
    requires TagsOK(m4, SplitAt(bs, i, k)) && TagsOnly(m0, m4, SplitTags(bs[i].off, k, Foot(bs[i])))
    ensures State(m4, base, n, SplitAt(bs, i, k), fl, head)
  {
    var r := SplitAt(bs, i, k);
    SplitWf(bs, n, i, k);
    FreeOffsetsSplit(bs, n, i, k);
    SplitTagsArePos(bs, i, k);
    forall j | 0 <= j < |fl|
      ensures fl[j] in FreeOffsets(r)
    {
      assert fl[j] in Elems(fl);
    }
    ListUnderTags(m0, m4, base, fl, head, r, n, SplitTags(bs[i].off, k, Foot(bs[i])));
  }

  /** A header at `h` and a footer at `foot`: the tags `coalesce(A, B)`
      writes (A's header and B's footer), and those that marking a block
      free or allocated writes. */
  function TagPair(h: int, foot: int): (ps: seq<int>)
    ensures |ps| == 2 && ps[0] == h && ps[1] == foot
  {
    [h, foot]
  }

  /** The header and footer stores of `coalesce(A, B)`, taken together, at
      `p0` (A's header) and `p1` (B's footer). */
  lemma MergeWrites(m0: seq<byte>, m1: seq<byte>, m2: seq<byte>, bs: seq<Block>, n: int, i: int, p0: int, p1: int)
    requires Wf(bs, n) && |m0| == n && TagsOK(m0, bs) && 0 <= i < |bs| - 1
    requires BlockTagsOK(m0, bs[i]) && BlockTagsOK(m0, bs[i + 1])
    requires p0 == bs[i].off && p1 == Foot(bs[i + 1]) && bs[i + 1].off == End(bs[i])
    requires SameOutside(m0, m1, p0, p0 + TAG) && Int32At(m1, p0) == bs[i].space + bs[i + 1].space + OVERHEAD
    requires SameOutside(m1, m2, p1, p1 + TAG) && Int32At(m2, p1) == bs[i].space + bs[i + 1].space + OVERHEAD
    ensures TagsOK(m2, MergeAt(bs, i))
    ensures TagsOnly(m0, m2, TagPair(p0, p1))
  {
    var r := MergeAt(bs, i);
    assert SameOutside(m0, m2, p0, End(bs[i + 1]));
    TagsOutsideRange(m0, m2, bs, n, i, i + 1, p0, End(bs[i + 1]));
    SliceUnchanged(m1, m2, p1, p1 + TAG, p0, 4);
    assert r[i].off == p0 && Foot(r[i]) == p1;
    assert BlockTagsOK(m2, r[i]);
    forall t | 0 <= t < |r|
      ensures BlockTagsOK(m2, r[t])
    {
      if t < i {
        assert r[t] == bs[t];
        assert BlockTagsOK(m2, bs[t]);
      } else if t > i {
        assert r[t] == bs[t + 1];
        assert BlockTagsOK(m2, bs[t + 1]);
      }
    }
    var ps := TagPair(p0, p1);
    forall q | 0 <= q < |m0| && m2[q] != m0[q]
      ensures InTagSlots(ps, q)
    {
      if p0 <= q < p0 + TAG {
        assert ps[0] == p0;
      } else {
        assert ps[1] == p1;
      }
    }
  }

  /** The tag stores of `coalesce` leave the list's links alone. */
  lemma MergeListUnderTags(m0: seq<byte>, m2: seq<byte>, base: int, n: int, bs: seq<Block>, fl: seq<int>, head: int, i: int)
    requires State(m0, base, n, bs, fl, head) && 0 <= i < |bs| - 1
    requires TagsOnly(m0, m2, TagPair(bs[i].off, Foot(bs[i + 1])))
    ensures ListOK(m2, base, fl, head)
  {
    var ps := TagPair(bs[i].off, Foot(bs[i + 1]));
    assert IsTagPos(bs, ps[0]) && IsTagPos(bs, ps[1]);
    forall t | 0 <= t < |ps|
      ensures IsTagPos(bs, ps[t])
    {
      if t == 0 {
        assert ps[t] == bs[i].off;
      } else {
        assert ps[t] == Foot(bs[i + 1]);
      }
    }
    forall j | 0 <= j < |fl|
      ensures fl[j] in FreeOffsets(bs)
    {
      assert fl[j] in Elems(fl);
    }
    ListUnderTags(m0, m2, base, fl, head, bs, n, ps);
  }

  /** After `coalesce`'s stores and `removeNode(B)` the arena agrees with the
      merged layout and the shortened list. */
  lemma MergeState(m0: seq<byte>, m2: seq<byte>, m3: seq<byte>, base: int, n: int, bs: seq<Block>,
                   fl: seq<int>, head: int, fl': seq<int>, head': int, i: int)
    requires State(m0, base, n, bs, fl, head) && 0 <= i < |bs| - 1 && bs[i].free && bs[i + 1].free
    requires bs[i + 1].off in fl && fl' == Remove(fl, bs[i + 1].off)
    requires |m2| == n && TagsOK(m2, MergeAt(bs, i)) && LinksOnly(m2, m3, fl') && ListOK(m3, base, fl', head')
    ensures State(m3, base, n, MergeAt(bs, i), fl', head')
  {
    var r := MergeAt(bs, i);
    MergeWf(bs, n, i);
    FreeOffsetsMerge(bs, n, i);
    RemoveElems(fl, bs[i + 1].off);
    forall j | 0 <= j < |fl'|
      ensures fl'[j] in FreeOffsets(r)
    {
      assert fl'[j] in Elems(fl');
    }
    TagsUnderLinks(m2, m3, r, n, fl');
  }

  /** The arena `m` agrees with the layout `bs` and the list `fl` headed by
      `head`, and every listed node is a free block. */
  ghost predicate State(m: seq<byte>, base: int, n: int, bs: seq<Block>, fl: seq<int>, head: int)
  {
    && |m| == n
    && Wf(bs, n)
    && TagsOK(m, bs)
    && ListOK(m, base, fl, head)
    && Distinct(fl)
    && Elems(fl) <= FreeOffsets(bs)
  }

  /** Stores confined to the link fields of listed free blocks keep the arena
      in agreement with the layout, now with the list `fl'`. */
  lemma LinksState(m0: seq<byte>, m1: seq<byte>, base: int, n: int, bs: seq<Block>, fl: seq<int>, head: int,
                   fl': seq<int>, head': int)
    requires State(m0, base, n, bs, fl, head)
    requires LinksOnly(m0, m1, fl') && ListOK(m1, base, fl', head') && Distinct(fl') && Elems(fl') <= FreeOffsets(bs)
    ensures State(m1, base, n, bs, fl', head')
  {
    forall k | 0 <= k < |fl'|
      ensures fl'[k] in FreeOffsets(bs)
    {
      assert fl'[k] in Elems(fl');
    }
    TagsUnderLinks(m0, m1, bs, n, fl');
  }

  /** A block's node does not overlap the node of any other block. */
  lemma NodesApart(bs: seq<Block>, n: int, j: int, fl: seq<int>)
    requires Wf(bs, n) && 0 <= j < |bs| && Elems(fl) <= FreeOffsets(bs) && bs[j].off !in fl
    ensures forall k :: 0 <= k < |fl| ==> fl[k] + NODE <= bs[j].off || bs[j].off + NODE <= fl[k]
  {
    forall k | 0 <= k < |fl|
      ensures fl[k] + NODE <= bs[j].off || bs[j].off + NODE <= fl[k]
    {
      assert fl[k] in Elems(fl);
      var t :| 0 <= t < |bs| && bs[t].free && bs[t].off == fl[k];
      if t < j {
        OrderedFrom(bs, n, t, j);
      } else {
        OrderedFrom(bs, n, j, t);
      }
    }
  }

  /** The header and footer stores that flip the state of block `i` to `f`. */
  lemma MarkWrites(m0: seq<byte>, m1: seq<byte>, m2: seq<byte>, bs: seq<Block>, n: int, i: int, f: bool, p0: int, p1: int)
    requires Wf(bs, n) && |m0| == n && TagsOK(m0, bs) && 0 <= i < |bs|
    requires p0 == bs[i].off && p1 == Foot(bs[i]) && 0 <= p0 && p1 + TAG <= n
    requires SameOutside(m0, m1, p0, p0 + TAG) && Int32At(m1, p0) == Tag(bs[i].(free := f))
    requires SameOutside(m1, m2, p1, p1 + TAG) && Int32At(m2, p1) == Tag(bs[i].(free := f))
    ensures TagsOK(m2, Mark(bs, i, f))
    ensures TagsOnly(m0, m2, TagPair(p0, p1))
  {
    var r := Mark(bs, i, f);
    Ordered(bs, n);
    assert SameOutside(m0, m2, p0, End(bs[i]));
    TagsOutsideRange(m0, m2, bs, n, i, i, p0, End(bs[i]));
    SliceUnchanged(m1, m2, p1, p1 + TAG, p0, 4);
    assert BlockTagsOK(m2, r[i]);
    forall t | 0 <= t < |r|
      ensures BlockTagsOK(m2, r[t])
    {
      if t != i {
        assert r[t] == bs[t];
        assert BlockTagsOK(m2, bs[t]);
      }
    }
    var ps := TagPair(p0, p1);
    forall q | 0 <= q < |m0| && m2[q] != m0[q]
      ensures InTagSlots(ps, q)
    {
      if p0 <= q < p0 + TAG {
        assert ps[0] == p0;
      } else {
        assert ps[1] == p1;
      }
    }
  }

  /** After the two stores of `MarkWrites` the arena agrees with the marked
      layout; a block marked allocated must not be on the list. */
  lemma MarkState(m0: seq<byte>, m2: seq<byte>, base: int, n: int, bs: seq<Block>, fl: seq<int>, head: int, i: int, f: bool)
    requires State(m0, base, n, bs, fl, head) && 0 <= i < |bs| && (!f ==> bs[i].off !in fl)
    requires TagsOK(m2, Mark(bs, i, f)) && TagsOnly(m0, m2, TagPair(bs[i].off, Foot(bs[i])))
    ensures State(m2, base, n, Mark(bs, i, f), fl, head)
  {
    var r := Mark(bs, i, f);
    var ps := TagPair(bs[i].off, Foot(bs[i]));
    MarkWf(bs, n, i, f);
    FreeOffsetsMark(bs, n, i, f);
    assert IsTagPos(r, ps[0]) && IsTagPos(r, ps[1]) by {
      assert r[i].off == ps[0] && Foot(r[i]) == ps[1];
    }
    forall t | 0 <= t < |ps|
      ensures IsTagPos(r, ps[t])
    {
    }
    forall j | 0 <= j < |fl|
      ensures fl[j] in FreeOffsets(r)
    {
      assert fl[j] in Elems(fl);
    }
    ListUnderTags(m0, m2, base, fl, head, r, n, ps);
  }

  /** Stores inside the payload of an allocated block touch no tag and no
      listed node, so the arena still agrees with the layout and the list. */
  lemma PayloadState(m0: seq<byte>, m1: seq<byte>, base: int, n: int, bs: seq<Block>, fl: seq<int>, head: int,
                     i: int, lo: int, hi: int)
    requires State(m0, base, n, bs, fl, head) && 0 <= i < |bs| && !bs[i].free
    requires bs[i].off + TAG <= lo && hi <= Foot(bs[i]) && SameOutside(m0, m1, lo, hi)
    ensures State(m1, base, n, bs, fl, head)
  {
    forall t | 0 <= t < |bs|
      ensures BlockTagsOK(m1, bs[t])
    {
      assert BlockTagsOK(m0, bs[t]);
      if t < i {
        OrderedFrom(bs, n, t, i);
      } else if t > i {
        OrderedFrom(bs, n, i, t);
      }
      BlockTagsFrame(m0, m1, bs[t], lo, hi);
    }
    forall k | 0 <= k < |fl|
      ensures NodeOK(m1, base, fl, k)
    {
      assert fl[k] in Elems(fl);
      var j :| 0 <= j < |bs| && bs[j].free && bs[j].off == fl[k];
      if j < i {
        OrderedFrom(bs, n, j, i);
      } else {
        OrderedFrom(bs, n, i, j);
      }
      assert NodeOK(m0, base, fl, k);
      LinksFrame(m0, m1, base, fl[k], NextOf(fl, k), PrevOf(fl, k), lo, hi);
    }
  }

  /** After `splitBlock` the remainder is not on the list and its node
      overlaps no listed node, so `addNode` may push it. */
  lemma RemainderApart(bs: seq<Block>, n: int, i: int, k: int, fl: seq<int>)
    requires Wf(bs, n) && 0 <= i < |bs| && bs[i].free && MIN_PAYLOAD <= k && k + OVERHEAD + MIN_PAYLOAD <= bs[i].space
    requires Elems(fl) <= FreeOffsets(bs)
    ensures bs[i].off + k + OVERHEAD !in fl && 0 <= bs[i].off && bs[i].off + k + OVERHEAD + NODE <= n
    ensures forall j :: 0 <= j < |fl| ==> fl[j] + NODE <= bs[i].off + k + OVERHEAD || bs[i].off + k + OVERHEAD + NODE <= fl[j]
  {
    RemainderFresh(bs, n, i, k);
    Ordered(bs, n);
    SplitWf(bs, n, i, k);
    FreeOffsetsSplit(bs, n, i, k);
    NodesApart(SplitAt(bs, i, k), n, i + 1, fl);
  }

  /** Pushing the remainder of a split keeps the arena in agreement with the split layout. */
  lemma PushRemainderState(m1: seq<byte>, m2: seq<byte>, base: int, n: int, bs: seq<Block>, fl: seq<int>, head: int, i: int, k: int)
    requires Wf(bs, n) && 0 <= i < |bs| && bs[i].free && MIN_PAYLOAD <= k && k + OVERHEAD + MIN_PAYLOAD <= bs[i].space
    requires Elems(fl) <= FreeOffsets(bs)
    requires State(m1, base, n, SplitAt(bs, i, k), fl, head)
    requires LinksOnly(m1, m2, [bs[i].off + k + OVERHEAD] + fl)
    requires ListOK(m2, base, [bs[i].off + k + OVERHEAD] + fl, bs[i].off + k + OVERHEAD)
    ensures State(m2, base, n, SplitAt(bs, i, k), [bs[i].off + k + OVERHEAD] + fl, bs[i].off + k + OVERHEAD)
  {
    var x := bs[i].off + k + OVERHEAD;
    RemainderFresh(bs, n, i, k);
    FreeOffsetsSplit(bs, n, i, k);
    PushElems(fl, x);
    LinksState(m1, m2, base, n, SplitAt(bs, i, k), fl, head, [x] + fl, x);
  }

  /** Taking a node off the list keeps the arena in agreement with the layout. */
  lemma RemoveState(m1: seq<byte>, m2: seq<byte>, base: int, n: int, bs: seq<Block>, fl: seq<int>, head: int, x: int, head': int)
    requires State(m1, base, n, bs, fl, head)
    requires LinksOnly(m1, m2, Remove(fl, x)) && ListOK(m2, base, Remove(fl, x), head')
    ensures State(m2, base, n, bs, Remove(fl, x), head')
  {
    RemoveElems(fl, x);
    LinksState(m1, m2, base, n, bs, fl, head, Remove(fl, x), head');
  }

  /** `init_myalloc`'s header store, `addNode` and footer store leave one free
      block that is the whole list. */
  lemma InitState(m1: seq<byte>, m2: seq<byte>, m3: seq<byte>, base: int, n: int)
    requires NODE + TAG <= n && |m1| == n && Int32At(m1, 0) == n - OVERHEAD
    requires LinksOnly(m1, m2, [0]) && ListOK(m2, base, [0], 0)
    requires SameOutside(m2, m3, n - TAG, n) && Int32At(m3, n - TAG) == n - OVERHEAD
    ensures State(m3, base, n, [Block(0, n - OVERHEAD, true)], [0], 0)
    ensures Inv([Block(0, n - OVERHEAD, true)], [0], n)
  {
    var bs := [Block(0, n - OVERHEAD, true)];
    forall q | 0 <= q < 4
      ensures m2[q] == m1[q]
    {
      assert !InLinkSlots([0], q);
    }
    assert m2[0..4] == m1[0..4];
    SliceUnchanged(m2, m3, n - TAG, n, 0, 4);
    assert BlockTagsOK(m3, bs[0]);
    assert NodeOK(m2, base, [0], 0);
    LinksFrame(m2, m3, base, 0, NULL, NULL, n - TAG, n);
    assert NodeOK(m3, base, [0], 0);
    InitInv(n);
    assert Elems([0]) == {0} == FreeOffsets(bs) by {
      assert bs[0].free && bs[0].off == 0;
    }
  }

  /** The `space` field `findHead` reads from list node `k` is that block's payload. */
  lemma ListedSpace(m: seq<byte>, base: int, n: int, bs: seq<Block>, fl: seq<int>, head: int, k: int)
    requires State(m, base, n, bs, fl, head) && 0 <= k < |fl|
    ensures 0 <= fl[k] && fl[k] + TAG <= |m|
    ensures Int32At(m, fl[k]) == ListSpaces(bs, fl)[k]
  {
    assert fl[k] in Elems(fl);
    var j :| 0 <= j < |bs| && bs[j].free && bs[j].off == fl[k];
    IndexOfBlock(bs, n, j);
    assert BlockTagsOK(m, bs[j]);
    assert NodeOK(m, base, fl, k);
  }

  /** The `next` link of list node `k` leads to node `k + 1`, or is NULL at the end. */
  lemma NextLink(m: seq<byte>, base: int, fl: seq<int>, head: int, k: int)
    requires ListOK(m, base, fl, head) && 0 < base && 0 <= k < |fl|
    ensures fl[k] + 16 <= |m| && Ptr(base, U64At(m, fl[k] + 8)) == NextOf(fl, k)
  {
    assert NodeOK(m, base, fl, k);
  }

  // ---------------------------------------------------------------------
  // The allocator

  class Allocator {
    /** `MEMORY_SIZE` */
    const size: int
    /** The address of the arena, as the host allocator returned it. */
    const base: int
    /** `mem` */
    const mem: array<byte>
    /** `freeList`, as an offset into `mem` */
    var freeList: int

    /** The blocks tiling the arena, in address order. */
    ghost var blocks: seq<Block>
    /** The offsets of the free-list nodes, from `freeList` onwards. */
    ghost var flist: seq<int>

    ghost predicate Basic()
      reads this
    {
      && mem.Length == size
      && NODE + TAG <= size <= INT32_MAX
      && 0 < base && base + size < TWO64
    }

    /** The bytes agree with the ghost layout and list, and every listed node is
        a free block; this holds inside operations as well as between them. */
    ghost predicate Coherent()
      reads this, mem
    {
      Basic() && State(mem[..], base, size, blocks, flist, freeList)
    }

    /** The allocator's invariant between operations. */
    ghost predicate Valid()
      reads this, mem
    {
      Coherent() && Inv(blocks, flist, size)
    }

    /** `init_myalloc`: the arena, with the bytes the host allocator handed out,
        becomes one free block that is the whole free list. */
    constructor (memorySize: int, base: int, contents: seq<byte>)
      requires NODE + TAG <= memorySize <= INT32_MAX && 0 < base && base + memorySize < TWO64
      requires |contents| == memorySize
      ensures Valid()
      ensures size == memorySize && this.base == base
      ensures blocks == [Block(0, memorySize - OVERHEAD, true)] && flist == [0] && freeList == 0
      ensures fresh(mem)
    {
      size := memorySize;
      this.base := base;
      mem := new byte[memorySize](j requires 0 <= j < memorySize => contents[j]);
      new;
      freeList := NULL;
      flist := [];
      var space := memorySize - OVERHEAD;
      StoreInt(0, space);
      ghost var m1 := mem[..];
      AddNode(0);
      assert flist == [0];
      ghost var m2 := mem[..];
      blocks := [Block(0, memorySize - OVERHEAD, true)];
      StoreInt(memorySize - TAG, space);
      InitState(m1, m2, mem[..], base, memorySize);
    }

    /** `*(int *) (mem + p) = v` */
    method StoreInt(p: int, v: int)
      requires Basic() && 0 <= p && p + TAG <= size && IsInt32(v)
      modifies mem
      ensures Int32At(mem[..], p) == v && SameOutside(old(mem[..]), mem[..], p, p + TAG)
    {
      var e := EncodeInt32(v);
      mem[p], mem[p + 1], mem[p + 2], mem[p + 3] := e[0], e[1], e[2], e[3];
      assert mem[..] == Put(old(mem[..]), p, e);
      Int32AtPut(old(mem[..]), p, v);
    }

    /** `*(node **) (mem + p) = (node *) u` */
    method StoreLink(p: int, u: int)
      requires Basic() && 0 <= p && p + 8 <= size && 0 <= u < TWO64
      modifies mem
      ensures U64At(mem[..], p) == u && SameOutside(old(mem[..]), mem[..], p, p + 8)
    {
      var e := EncodeU64(u);
      mem[p], mem[p + 1], mem[p + 2], mem[p + 3], mem[p + 4], mem[p + 5], mem[p + 6], mem[p + 7]
        := e[0], e[1], e[2], e[3], e[4], e[5], e[6], e[7];
      assert mem[..] == Put(old(mem[..]), p, e);
      U64AtPut(old(mem[..]), p, u);
    }

    /** `splitBlock`: cut the free block at `headptr` into a free block of
        payload `size` and a free remainder, and return the remainder.  Only
        tags are written; the free list is not touched. */
    method SplitBlock(headptr: int, size: int, ghost i: int) returns (newHeadptr: int)
      requires Coherent() && 0 <= i < |blocks| && headptr == blocks[i].off && blocks[i].free
      requires MIN_PAYLOAD <= size && size + OVERHEAD + MIN_PAYLOAD <= blocks[i].space
      modifies this`blocks, mem
      ensures Coherent()
      ensures blocks == SplitAt(old(blocks), i, size)
      ensures newHeadptr == headptr + size + OVERHEAD
      ensures TagsOnly(old(mem[..]), mem[..], SplitTags(headptr, size, Foot(old(blocks)[i])))
      ensures SameOutside(old(mem[..]), mem[..], headptr, End(old(blocks)[i]))
    {
      ghost var bs := blocks;
      assert BlockTagsOK(mem[..], bs[i]);
      var space := Int32At(mem[..], headptr);
      ghost var m0 := mem[..];
      var footptr := headptr + TAG + space;
      var newFootptr := headptr + TAG + size;
      newHeadptr := newFootptr + TAG;
      var newSpace := space - size - OVERHEAD;
      StoreInt(headptr, size);
      ghost var m1 := mem[..];
      StoreInt(newFootptr, size);
      ghost var m2 := mem[..];
      StoreInt(newHeadptr, newSpace);
      ghost var m3 := mem[..];
      StoreInt(footptr, newSpace);
      assert footptr == Foot(bs[i]);
      blocks := SplitAt(bs, i, size);
      SplitWrites(m0, m1, m2, m3, mem[..], bs, this.size, i, size, headptr, headptr + TAG + size, newHeadptr, Foot(bs[i]));
      SplitState(m0, mem[..], base, this.size, bs, flist, freeList, i, size);
    }

    /** `coalesce(A, B)`: merge the free block `headptrB` into the free block
        `headptrA` just before it and take `headptrB` off the free list. */
    method Coalesce(headptrA: int, headptrB: int)
      requires Coherent() && headptrA in FreeOffsets(blocks) && headptrB in flist
      requires IndexOf(blocks, headptrA) + 1 < |blocks| && blocks[IndexOf(blocks, headptrA) + 1].off == headptrB
      modifies this, mem
      ensures Coherent()
      ensures var i := IndexOf(old(blocks), headptrA);
        && blocks == MergeAt(old(blocks), i)
        && flist == Remove(old(flist), headptrB)
        && ChangedOnly(old(mem[..]), mem[..], TagPair(headptrA, Foot(old(blocks)[i + 1])), flist)
    {
      ghost var bs := blocks;
      ghost var i := IndexOf(bs, headptrA);
      assert bs[i].free && bs[i + 1].free by {
        FreeOffsetsMember(bs, size, i);
        FreeOffsetsMember(bs, size, i + 1);
      }
      assert BlockTagsOK(mem[..], bs[i]) && BlockTagsOK(mem[..], bs[i + 1]);
      ghost var m0 := mem[..];
      var newSpace := Int32At(mem[..], headptrA) + Int32At(mem[..], headptrB) + OVERHEAD;
      StoreInt(headptrA, newSpace);
      ghost var m1 := mem[..];
      var footptr := headptrA + newSpace + TAG;
      assert footptr == Foot(bs[i + 1]);
      StoreInt(footptr, newSpace);
      MergeWrites(m0, m1, mem[..], bs, size, i, headptrA, Foot(bs[i + 1]));
      ghost var m2 := mem[..];
      MergeListUnderTags(m0, m2, base, size, bs, flist, freeList, i);
      ghost var fl := flist;
      RemoveNode(headptrB);
      blocks := MergeAt(bs, i);
      MergeState(m0, m2, mem[..], base, size, bs, fl, old(freeList), flist, freeList, i);
      ChangedCompose(m0, m2, mem[..], TagPair(headptrA, Foot(bs[i + 1])), flist);
    }

    /** `node->space` and `node->next` of list node `k`. */
    method NodeAt(x: int, ghost k: int) returns (v: int, y: int)
      requires Coherent() && 0 <= k < |flist| && flist[k] == x
      ensures v == ListSpaces(blocks, flist)[k] && y == NextOf(flist, k)
    {
      ListedSpace(mem[..], base, size, blocks, flist, freeList, k);
      NextLink(mem[..], base, flist, freeList, k);
      v := Int32At(mem[..], x);
      y := Ptr(base, U64At(mem[..], x + 8));
    }

    /** `dataptr->space` for the header or footer `p` of block `j`. */
    method LoadTag(p: int, ghost j: int) returns (v: int)
      requires Coherent() && 0 <= j < |blocks| && (p == blocks[j].off || p == Foot(blocks[j]))
      ensures v == Tag(blocks[j])
    {
      assert BlockTagsOK(mem[..], blocks[j]);
      v := Int32At(mem[..], p);
    }

    /** `findHead`: walk the free list for the first block of the smallest
        payload of at least `size` bytes, stopping early at an exact fit. */
    method FindHead(size: int) returns (r: int)
      requires Coherent()
      ensures var b := BestFit(ListSpaces(blocks, flist), size);
        r == if b == -1 then NULL else flist[b]
    {
      ghost var fl := flist;
      ghost var sp := ListSpaces(blocks, fl);
      ghost var t := BestFit(sp, size);
      var resultptr := NULL;
      var lowest := 0;
      var headptr := freeList;
      ghost var k := 0;
      ghost var best := -1;
      while headptr != NULL
        invariant 0 <= k <= |fl| && -1 <= best < k
        invariant headptr == if k < |fl| then fl[k] else NULL
        invariant Scan(sp, size, k, best) == t
        invariant resultptr == if best == -1 then NULL else fl[best]
        invariant best != -1 ==> resultptr != NULL
        invariant best != -1 ==> lowest == sp[best]
        decreases |fl| - k
      {
        var space, next := NodeAt(headptr, k);
        if space == size {
          resultptr := headptr;
          best := k;
          break;
        }
        ghost var nb := if sp[k] > size && (best == -1 || sp[k] < sp[best]) then k else best;
        ScanStep(sp, size, k, best);
        if space > size && (resultptr == NULL || space < lowest) {
          lowest := space;
          resultptr := headptr;
        }
        best := nb;
        headptr := next;
        k := k + 1;
      }
      r := resultptr;
    }

    /** `splitBlock(h, k)` followed by `addNode` of the remainder. */
    method SplitOff(h: int, k: int, ghost i: int) returns (rem: int)
      requires Coherent() && 0 <= i < |blocks| && h == blocks[i].off && blocks[i].free
      requires MIN_PAYLOAD <= k && k + OVERHEAD + MIN_PAYLOAD <= blocks[i].space
      modifies this, mem
      ensures Coherent()
      ensures blocks == SplitAt(old(blocks), i, k)
      ensures rem == h + k + OVERHEAD && flist == [rem] + old(flist)
      ensures ChangedOnly(old(mem[..]), mem[..], SplitTags(h, k, Foot(old(blocks)[i])), flist)
    {
      ghost var bs, fl := blocks, flist;
      rem := SplitBlock(h, k, i);
      RemainderApart(bs, size, i, k, fl);
      ghost var m1, head1 := mem[..], freeList;
      AddNode(rem);
      PushRemainderState(m1, mem[..], base, size, bs, fl, head1, i, k);
      ChangedCompose(old(mem[..]), m1, mem[..], SplitTags(h, k, Foot(bs[i])), flist);
    }

    /** `removeNode(x)` on a coherent arena. */
    method Unlist(x: int)
      requires Coherent() && x in flist
      modifies this`freeList, this`flist, mem
      ensures Coherent()
      ensures flist == Remove(old(flist), x) && x !in flist
      ensures LinksOnly(old(mem[..]), mem[..], flist)
    {
      ghost var m0, fl, head := mem[..], flist, freeList;
      RemoveNode(x);
      RemoveState(m0, mem[..], base, size, blocks, fl, head, x, freeList);
      RemoveElems(fl, x);
    }

    /** `addNode(x)` for the free block `j` at `x`, which is not yet listed. */
    method Relist(x: int, ghost j: int)
      requires Coherent() && 0 <= j < |blocks| && x == blocks[j].off && blocks[j].free && x !in flist
      modifies this`freeList, this`flist, mem
      ensures Coherent()
      ensures flist == [x] + old(flist) && x in flist
      ensures LinksOnly(old(mem[..]), mem[..], flist)
    {
      ghost var m0, bs, fl, head := mem[..], blocks, flist, freeList;
      NodesApart(bs, size, j, fl);
      assert 0 <= x && x + NODE <= size by {
        Ordered(bs, size);
      }
      AddNode(x);
      PushElems(fl, x);
      FreeOffsetsMember(bs, size, j);
      LinksState(m0, mem[..], base, size, bs, fl, head, flist, freeList);
    }

    /** Write `Tag` of block `i` with state `f` into both of its tags, at the
        header `h` and the footer `h + 4 + space`. */
    method MarkBlock(h: int, space: int, ghost i: int, f: bool)
      requires Coherent() && 0 <= i < |blocks| && h == blocks[i].off && space == blocks[i].space
      requires !f ==> h !in flist
      modifies this`blocks, mem
      ensures Coherent()
      ensures blocks == Mark(old(blocks), i, f)
      ensures TagsOnly(old(mem[..]), mem[..], TagPair(h, Foot(old(blocks)[i])))
    {
      ghost var bs, m0 := blocks, mem[..];
      assert BlockTagsOK(m0, bs[i]);
      var v := if f then space else -space;
      StoreInt(h, v);
      ghost var m1 := mem[..];
      StoreInt(h + TAG + space, v);
      blocks := Mark(bs, i, f);
      MarkWrites(m0, m1, mem[..], bs, size, i, f, h, h + TAG + space);
      MarkState(m0, mem[..], base, size, bs, flist, freeList, i, f);
    }

    /** The split of `myalloc`: when the free block `i` (header `h`) exceeds
        `k` by more than 28 bytes, `splitBlock` and `addNode` of the
        remainder. */
    method SplitExcess(h: int, k: int, ghost i: int)
      requires Coherent() && 0 <= i < |blocks| && h == blocks[i].off && blocks[i].free
      requires MIN_PAYLOAD <= k <= blocks[i].space
      modifies this, mem
      ensures Coherent()
      ensures blocks == SplitIf(old(blocks), i, k) && flist == PushIf(old(blocks), i, k, old(flist))
      ensures ChangedOnly(old(mem[..]), mem[..], TakeTags(old(blocks), i, k), flist)
    {
      var space := LoadTag(h, i);
      if space > k + SPLIT_SLACK {
        var rem := SplitOff(h, k, i);
      }
    }

    /** The part of `myalloc` after `findHead`: split off the excess of block
        `i` (header `h`) when it is more than 28 bytes, then take the block
        off the free list and mark it allocated. */
    method Take(h: int, k: int, ghost i: int) returns (r: int)
      requires Coherent() && 0 <= i < |blocks| && h == blocks[i].off && h in flist
      requires MIN_PAYLOAD <= k <= blocks[i].space
      modifies this, mem
      ensures Coherent()
      ensures r == h + TAG
      ensures blocks == AllocBlocks(old(blocks), i, k) && flist == AllocList(old(blocks), i, k, old(flist))
      ensures ChangedOnly(old(mem[..]), mem[..], TakeTags(old(blocks), i, k), PushIf(old(blocks), i, k, old(flist)))
    {
      ghost var bs, fl, m0 := blocks, flist, mem[..];
      assert bs[i].free by {
        FreeOffsetsMember(bs, size, i);
      }
      SplitExcess(h, k, i);
      ghost var fl1, m1 := flist, mem[..];
      Unlist(h);
      ghost var m2 := mem[..];
      var space := LoadTag(h, i);
      MarkBlock(h, space, i, false);
      TakeFrame(m0, m1, m2, mem[..], bs, i, k, fl1);
      r := h + TAG;
    }

    /** `myalloc(size)`: take the best-fitting free block, split off the
        excess when it is more than 28 bytes, and mark the block allocated.
        Returns the offset of the payload, or NULL when nothing fits. */
    method Alloc(size: int) returns (r: int)
      requires Valid() && 0 <= size <= INT32_MAX
      modifies this, mem
      ensures Valid()
      ensures r == NULL <==> NoFit(old(blocks), size)
      ensures var b := BestFit(ListSpaces(old(blocks), old(flist)), size);
        && (b == -1 <==> r == NULL)
        && (b == -1 ==> blocks == old(blocks) && flist == old(flist) && mem[..] == old(mem[..]))
        && (b != -1 ==>
              var i := IndexOf(old(blocks), old(flist)[b]);
              && 0 <= i < |blocks| && r == old(flist)[b] + TAG
              && blocks == AllocBlocks(old(blocks), i, Clamp(size))
              && flist == AllocList(old(blocks), i, Clamp(size), old(flist))
              && blocks[i].off == old(flist)[b] && !blocks[i].free && Clamp(size) <= blocks[i].space
              && ChangedOnly(old(mem[..]), mem[..], TakeTags(old(blocks), i, Clamp(size)),
                             PushIf(old(blocks), i, Clamp(size), old(flist))))
      ensures PayloadsKept(old(mem[..]), mem[..], old(blocks))
    {
      ghost var bs, fl := blocks, flist;
      ghost var b := BestFit(ListSpaces(bs, fl), size);
      var headptr := FindHead(size);
      BestFitNone(bs, this.size, fl, size);
      if headptr == NULL {
        return NULL;
      }
      ghost var i := IndexOf(bs, headptr);
      var k := if size > MIN_PAYLOAD then size else MIN_PAYLOAD;
      assert 0 <= i && bs[i].free && bs[i].space >= k && k == Clamp(size) by {
        BestFitChoice(bs, this.size, fl, size);
        assert bs[i].space >= MIN_PAYLOAD;
      }
      ghost var m0 := mem[..];
      r := Take(headptr, k, i);
      TakeKeeps(m0, mem[..], bs, fl, this.size, i, k);
      AllocInv(bs, fl, this.size, i, k);
      AllocResult(bs, this.size, fl, i, k);
    }

    /** `p` is the payload pointer of an allocated block. */
    ghost predicate IsPayload(p: int)
      reads this
    {
      var i := IndexOf(blocks, p - TAG);
      0 <= i && !blocks[i].free
    }

    /** The first step of `myfree`: make both tags of the allocated block `i`
        at `h` positive and push the block on the free list. */
    method Release(h: int, space: int, ghost i: int)
      requires Coherent() && 0 <= i < |blocks| && h == blocks[i].off && space == blocks[i].space
      requires !blocks[i].free
      modifies this`blocks, this`freeList, this`flist, mem
      ensures Coherent()
      ensures blocks == Mark(old(blocks), i, true) && flist == [h] + old(flist)
      ensures ChangedOnly(old(mem[..]), mem[..], TagPair(h, Foot(old(blocks)[i])), flist)
    {
      assert h !in flist by {
        FreeOffsetsMember(blocks, size, i);
      }
      ghost var m0 := mem[..];
      MarkBlock(h, space, i, true);
      ghost var m1 := mem[..];
      Relist(h, i);
      ChangedCompose(m0, m1, mem[..], TagPair(h, Foot(old(blocks)[i])), flist);
    }

    /** `coalesce` of the free block `i` with its free, listed successor in
        the form both directions of `myfree` use. */
    method MergeNext(a: int, b: int, ghost i: int)
      requires Coherent() && 0 <= i < |blocks| - 1 && a == blocks[i].off && b == blocks[i + 1].off
      requires blocks[i].free && blocks[i + 1].free && b in flist
      modifies this, mem
      ensures Coherent()
      ensures blocks == MergeAt(old(blocks), i) && flist == Remove(old(flist), b)
      ensures Elems(flist) <= Elems(old(flist))
      ensures ChangedOnly(old(mem[..]), mem[..], TagPair(a, Foot(old(blocks)[i + 1])), old(flist))
    {
      ghost var fl := flist;
      FreeOffsetsMember(blocks, size, i);
      IndexOfBlock(blocks, size, i);
      Coalesce(a, b);
      RemoveElems(fl, b);
      ChangedWeaken(old(mem[..]), mem[..], TagPair(a, Foot(old(blocks)[i + 1])), flist,
                    TagPair(a, Foot(old(blocks)[i + 1])), fl);
    }

    /** Coalesce-backward of `myfree`: when the block before the listed free
        block `i` (at `h`) is free, merge `i` into it.  Returns the header and
        payload size of the block that now holds `i`, at index `j`. */
    method MergeBack(h: int, space: int, ghost i: int) returns (headptr: int, sp: int, ghost j: int)
      requires Coherent() && 0 <= i < |blocks| && h == blocks[i].off && space == blocks[i].space
      requires blocks[i].free && h in flist
      modifies this, mem
      ensures Coherent()
      ensures j == (if PrevFree(old(blocks), i) then i - 1 else i)
      ensures blocks == (if PrevFree(old(blocks), i) then MergeAt(old(blocks), i - 1) else old(blocks))
      ensures flist == (if PrevFree(old(blocks), i) then Remove(old(flist), h) else old(flist))
      ensures 0 <= j < |blocks| && headptr == blocks[j].off && sp == blocks[j].space && blocks[j].free
      ensures Elems(flist) <= Elems(old(flist))
      ensures ChangedOnly(old(mem[..]), mem[..],
                          if PrevFree(old(blocks), i) then TagPair(old(blocks)[i - 1].off, Foot(old(blocks)[i])) else [],
                          old(flist))
    {
      headptr, sp, j := h, space, i;
      if h != 0 {
        assert 0 < i;
        var prevSpace := LoadTag(h - TAG, i - 1);
        if prevSpace > 0 {
          var prevHeadptr := h - prevSpace - OVERHEAD;
          assert prevHeadptr == blocks[i - 1].off && blocks[i - 1].free;
          MergeNext(prevHeadptr, h, i - 1);
          headptr := prevHeadptr;
          j := i - 1;
          sp := LoadTag(headptr, j);
        }
      } else if i > 0 {
        OrderedFrom(blocks, size, 0, i);
      }
    }

    /** Coalesce-forward of `myfree`: when the block after the free block `j`
        is free (and so, listed), merge it into `j`. */
    method MergeForward(headptr: int, space: int, ghost j: int)
      requires Coherent() && 0 <= j < |blocks| && headptr == blocks[j].off && space == blocks[j].space
      requires blocks[j].free && (NextFree(blocks, j) ==> blocks[j + 1].off in flist)
      modifies this, mem
      ensures Coherent()
      ensures blocks == (if NextFree(old(blocks), j) then MergeAt(old(blocks), j) else old(blocks))
      ensures flist == (if NextFree(old(blocks), j) then Remove(old(flist), old(blocks)[j + 1].off) else old(flist))
      ensures ChangedOnly(old(mem[..]), mem[..],
                          if NextFree(old(blocks), j) then TagPair(headptr, Foot(old(blocks)[j + 1])) else [],
                          old(flist))
    {
      var endptr := headptr + space + OVERHEAD;
      if endptr != size {
        assert j + 1 < |blocks|;
        var nextSpace := LoadTag(endptr, j + 1);
        if nextSpace > 0 {
          FreeOffsetsMember(blocks, size, j + 1);
          MergeNext(headptr, endptr, j);
        }
      }
    }

    /** The body of `myfree` once `isValid` has accepted the block at `h`:
        mark it free, push it on the free list, and coalesce it first with a
        free predecessor and then with a free successor. */
    method FreeBlock(h: int, ghost i: int)
      requires Valid() && 0 <= i < |blocks| && h == blocks[i].off && !blocks[i].free
      modifies this, mem
      ensures Valid()
      ensures blocks == FreeBlocks(old(blocks), i) && flist == FreeList(old(blocks), i, old(flist))
      ensures ChangedOnly(old(mem[..]), mem[..], NearTags(old(blocks), i), [h] + old(flist))
    {
      ghost var bs, fl := blocks, flist;
      var space := LoadTag(h, i);
      ghost var m0 := mem[..];
      Release(h, -space, i);
      ghost var m1 := mem[..];
      FreeSteps(bs, size, i, fl);
      var headptr, sp;
      ghost var j;
      headptr, sp, j := MergeBack(h, -space, i);
      ghost var m2, b2, l2 := mem[..], blocks, flist;
      MergeForward(headptr, sp, j);
      FreeInv(bs, fl, size, i);
      FreeFrame(m0, m1, m2, mem[..], bs, size, i, fl, b2, j, headptr, l2);
    }

    /** `myfree(p)`: abort unless `isValid` accepts `p`, otherwise free the
        block whose payload `p` is. */
    method Free(p: int) returns (aborted: bool)
      requires Valid() && (IsValid(p) ==> IsPayload(p))
      modifies this, mem
      ensures Valid()
      ensures aborted == !old(IsValid(p))
      ensures aborted ==> blocks == old(blocks) && flist == old(flist) && mem[..] == old(mem[..])
      ensures !aborted ==>
        var i := IndexOf(old(blocks), p - TAG);
        && 0 <= i && !old(blocks)[i].free
        && blocks == FreeBlocks(old(blocks), i) && flist == FreeList(old(blocks), i, old(flist))
        && ChangedOnly(old(mem[..]), mem[..], NearTags(old(blocks), i), [p - TAG] + old(flist))
        && PayloadsKept(old(mem[..]), mem[..], Mark(old(blocks), i, true))
    {
      if !IsValid(p) {
        return true;
      }
      aborted := false;
      ghost var bs, fl, m0 := blocks, flist, mem[..];
      ghost var i := IndexOf(blocks, p - TAG);
      FreeBlock(p - TAG, i);
      FreeKeeps(m0, mem[..], bs, fl, size, i);
    }

    // -------------------------------------------------------------------
    // myrealloc's failure path: undoing myfree of block i of `bs`

    /** `splitBlock(old, oldSpace)` and `addNode(next)` on the block that
        the free blocks `i` and `i + 1` of `m` were merged into. */
    method Resplit(h: int, oldSpace: int, ghost m: seq<Block>, ghost i: int)
      requires Coherent() && 0 <= i < |m| - 1 && m[i].free && m[i + 1].free && m[i + 1].off == End(m[i])
      requires MIN_PAYLOAD <= oldSpace && MIN_PAYLOAD <= m[i + 1].space
      requires blocks == MergeAt(m, i) && h == m[i].off && oldSpace == m[i].space
      modifies this, mem
      ensures Coherent() && blocks == m && flist == [m[i + 1].off] + old(flist)
      ensures ChangedOnly(old(mem[..]), mem[..], SplitTags(h, oldSpace, Foot(m[i + 1])), flist)
    {
      SplitUndoesMerge(m, i);
      var rem := SplitOff(h, oldSpace, i);
    }

    /** The first step of `UnmergeBoth`: `splitBlock(prev, prevSpace)` cuts
        the predecessor back out, leaving block `i` and its successor as one
        free block. */
    method SplitPrev(prevHeadptr: int, prevSpace: int, ghost bs: seq<Block>, ghost fl: seq<int>, ghost i: int)
      requires Coherent() && Wf(bs, size) && 0 < i < |bs| - 1
      requires !bs[i].free && bs[i - 1].free && bs[i + 1].free
      requires blocks == FreeBlocks(bs, i)
      requires prevHeadptr == bs[i - 1].off && prevSpace == bs[i - 1].space
      modifies this`blocks, mem
      ensures Coherent() && blocks == MergeAt(Mark(bs, i, true), i)
      ensures ChangedOnly(old(mem[..]), mem[..], NearTags(bs, i), [bs[i].off] + fl)
    {
      UndoBoth(bs, size, i);
      var _ := SplitBlock(prevHeadptr, prevSpace, i - 1);
      InNearTags(bs, i, i + 1);
      SplitNear(bs, size, i, i - 1, Foot(bs[i + 1]));
      ghost var tags := SplitTags(prevHeadptr, prevSpace, Foot(bs[i + 1]));
      TagsChanged(old(mem[..]), mem[..], tags, [bs[i].off] + fl);
      ChangedWeaken(old(mem[..]), mem[..], tags, [bs[i].off] + fl, NearTags(bs, i), [bs[i].off] + fl);
    }

    /** `removeNode(x)` inside a larger step whose frame `ps`, `xs` already
        names every listed node. */
    method UnlistIn(x: int, ghost ps: seq<int>, ghost xs: seq<int>)
      requires Coherent() && x in flist && Elems(flist) <= Elems(xs)
      modifies this`freeList, this`flist, mem
      ensures Coherent() && flist == Remove(old(flist), x)
      ensures ChangedOnly(old(mem[..]), mem[..], ps, xs)
    {
      ghost var fl := flist;
      Unlist(x);
      RemoveSub(fl, x);
      LinksChanged(old(mem[..]), mem[..], ps, flist);
      ChangedWeaken(old(mem[..]), mem[..], ps, flist, ps, xs);
    }

    /** `splitBlock(old, oldSpace)` and `addNode(next)` when block `i` of
        `bs` and its free successor are one merged free block: the tags it
        writes are near block `i`, and the links those of listed nodes. */
    method ResplitNext(h: int, oldSpace: int, ghost bs: seq<Block>, ghost fl: seq<int>, ghost i: int)
      requires Coherent() && Wf(bs, size) && 0 <= i < |bs| - 1 && !bs[i].free && bs[i + 1].free
      requires blocks == MergeAt(Mark(bs, i, true), i) && h == bs[i].off && oldSpace == bs[i].space
      requires Elems([bs[i + 1].off] + flist) <= Elems([h] + fl)
      modifies this, mem
      ensures Coherent() && blocks == Mark(bs, i, true) && flist == [bs[i + 1].off] + old(flist)
      ensures ChangedOnly(old(mem[..]), mem[..], NearTags(bs, i), [h] + fl)
    {
      assert Mark(bs, i, true)[i + 1] == bs[i + 1] && bs[i + 1].space >= MIN_PAYLOAD && bs[i].space >= MIN_PAYLOAD;
      Resplit(h, oldSpace, Mark(bs, i, true), i);
      InNearTags(bs, i, i + 1);
      SplitNear(bs, size, i, i, Foot(bs[i + 1]));
      ChangedWeaken(old(mem[..]), mem[..], SplitTags(h, oldSpace, Foot(bs[i + 1])), flist, NearTags(bs, i), [h] + fl);
    }

    /** Both neighbours were merged in: `splitBlock(prev, prevSpace)`,
        `splitBlock(old, oldSpace)` and `addNode(next)`. */
    method UnmergeBoth(prevHeadptr: int, prevSpace: int, h: int, oldSpace: int,
                       ghost bs: seq<Block>, ghost fl: seq<int>, ghost i: int)
      requires Coherent() && Wf(bs, size) && 0 < i < |bs| - 1 && bs[i + 1].off in fl
      requires !bs[i].free && bs[i - 1].free && bs[i + 1].free
      requires blocks == FreeBlocks(bs, i) && flist == FreeList(bs, i, fl)
      requires prevHeadptr == bs[i - 1].off && prevSpace == bs[i - 1].space
      requires h == bs[i].off && oldSpace == bs[i].space
      modifies this, mem
      ensures Coherent() && blocks == Mark(bs, i, true) && flist == RollbackList(bs, i, fl)
      ensures ChangedOnly(old(mem[..]), mem[..], NearTags(bs, i), [h] + fl)
    {
      var ps, xs := NearTags(bs, i), [h] + fl;
      UndoBoth(bs, size, i);
      var nx := bs[i + 1].off;
      assert ([h] + fl)[1..] == fl;
      assert flist == Remove(fl, nx);
      ghost var m0 := mem[..];
      SplitPrev(prevHeadptr, prevSpace, bs, fl, i);
      ghost var m1 := mem[..];
      RollbackElems(h, fl, nx);
      ResplitNext(h, oldSpace, bs, fl, i);
      ChangedTrans(m0, m1, mem[..], ps, xs);
    }

    /** Only the predecessor was merged in: `splitBlock(prev, prevSpace)`. */
    method UnmergePrev(prevHeadptr: int, prevSpace: int, h: int,
                       ghost bs: seq<Block>, ghost fl: seq<int>, ghost i: int)
      requires Coherent() && Wf(bs, size) && 0 < i < |bs|
      requires !bs[i].free && bs[i - 1].free && !NextFree(bs, i)
      requires blocks == FreeBlocks(bs, i) && flist == FreeList(bs, i, fl)
      requires prevHeadptr == bs[i - 1].off && prevSpace == bs[i - 1].space && h == bs[i].off
      modifies this, mem
      ensures Coherent() && blocks == Mark(bs, i, true) && flist == RollbackList(bs, i, fl)
      ensures ChangedOnly(old(mem[..]), mem[..], NearTags(bs, i), [h] + fl)
    {
      var ps, xs := NearTags(bs, i), [h] + fl;
      UndoPrev(bs, size, i);
      assert ([h] + fl)[1..] == fl;
      var _ := SplitBlock(prevHeadptr, prevSpace, i - 1);
      InNearTags(bs, i, i);
      SplitNear(bs, size, i, i - 1, Foot(bs[i]));
      TagsChanged(old(mem[..]), mem[..], SplitTags(prevHeadptr, prevSpace, Foot(bs[i])), xs);
      ChangedWeaken(old(mem[..]), mem[..], SplitTags(prevHeadptr, prevSpace, Foot(bs[i])), xs, ps, xs);
    }

    /** Only the successor was merged in: `splitBlock(old, oldSpace)`,
        `addNode(next)` and `removeNode(old)`. */
    method UnmergeNext(h: int, oldSpace: int, ghost bs: seq<Block>, ghost fl: seq<int>, ghost i: int)
      requires Coherent() && Wf(bs, size) && 0 <= i < |bs| - 1 && bs[i + 1].off in fl
      requires !bs[i].free && bs[i + 1].free && !PrevFree(bs, i)
      requires blocks == FreeBlocks(bs, i) && flist == FreeList(bs, i, fl)
      requires h == bs[i].off && oldSpace == bs[i].space
      modifies this, mem
      ensures Coherent() && blocks == Mark(bs, i, true) && flist == RollbackList(bs, i, fl)
      ensures ChangedOnly(old(mem[..]), mem[..], NearTags(bs, i), [h] + fl)
    {
      var ps, xs := NearTags(bs, i), [h] + fl;
      var nx := bs[i + 1].off;
      assert h != nx by {
        OrderedFrom(bs, size, i, i + 1);
      }
      assert ([h] + fl)[1..] == fl;
      assert flist == [h] + Remove(fl, nx);
      ghost var m0 := mem[..];
      RollbackElems(h, fl, nx);
      assert blocks == MergeAt(Mark(bs, i, true), i);
      assert [nx] + flist == [nx] + ([h] + Remove(fl, nx));
      ResplitNext(h, oldSpace, bs, fl, i);
      ghost var m1 := mem[..];
      UnlistIn(h, ps, xs);
      assert ([nx] + ([h] + Remove(fl, nx)))[1..] == [h] + Remove(fl, nx);
      ChangedTrans(m0, m1, mem[..], ps, xs);
    }

    /** Nothing was merged: `removeNode(old)`. */
    method UnmergeNone(h: int, ghost bs: seq<Block>, ghost fl: seq<int>, ghost i: int)
      requires Coherent() && 0 <= i < |bs|
      requires !bs[i].free && !PrevFree(bs, i) && !NextFree(bs, i)
      requires blocks == FreeBlocks(bs, i) && flist == FreeList(bs, i, fl) && h == bs[i].off
      modifies this, mem
      ensures Coherent() && blocks == Mark(bs, i, true) && flist == RollbackList(bs, i, fl)
      ensures ChangedOnly(old(mem[..]), mem[..], NearTags(bs, i), [h] + fl)
    {
      assert ([h] + fl)[1..] == fl;
      Unlist(h);
      LinksChanged(old(mem[..]), mem[..], [], flist);
      assert Elems(flist) <= Elems([h] + fl);
      ChangedWeaken(old(mem[..]), mem[..], [], flist, NearTags(bs, i), [h] + fl);
    }

    /** The end of `myrealloc`'s failure path: make both tags of the old
        block negative again and put back the two payload words that
        `myfree` overwrote with links.  (The source stores the header, the
        two words and then the footer; the stores are disjoint, so storing
        the footer second leaves the same bytes.) */
    method Restore(h: int, oldSpace: int, tempA: int, tempB: int, ghost bs: seq<Block>, ghost fl: seq<int>, ghost i: int)
      requires Coherent() && Wf(bs, size) && 0 <= i < |bs| && !bs[i].free && h == bs[i].off && oldSpace == bs[i].space
      requires blocks == Mark(bs, i, true) && h !in flist && 0 <= h && h + NODE <= size
      requires 0 <= tempA < TWO64 && 0 <= tempB < TWO64
      modifies this`blocks, mem
      ensures Coherent() && blocks == bs
      ensures ChangedOnly(old(mem[..]), mem[..], NearTags(bs, i), [h] + fl)
      ensures U64At(mem[..], h + 8) == tempA && U64At(mem[..], h + 16) == tempB
    {
      var ps, xs := NearTags(bs, i), [h] + fl;
      ghost var m1 := mem[..];
      MarkBlock(h, oldSpace, i, false);
      UnmarkRestores(bs, i);
      ghost var m2 := mem[..];
      InNearTags(bs, i, i);
      TagsChanged(m1, m2, TagPair(h, Foot(bs[i])), xs);
      ChangedWeaken(m1, m2, TagPair(h, Foot(bs[i])), xs, ps, xs);
      PutLinks(h, tempA, tempB, i);
      LinksChanged(m2, mem[..], [], [h]);
      ChangedWeaken(m2, mem[..], [], [h], ps, xs);
      ChangedTrans(m1, m2, mem[..], ps, xs);
    }

    /** The two link-sized stores `h->next = tempA` and `h->prev = tempB`
        into the payload of the allocated block `i` at `h`. */
    method PutLinks(h: int, tempA: int, tempB: int, ghost i: int)
      requires Coherent() && 0 <= i < |blocks| && !blocks[i].free && h == blocks[i].off
      requires 0 <= h && h + NODE <= size && 0 <= tempA < TWO64 && 0 <= tempB < TWO64
      modifies mem
      ensures Coherent() && LinksOnly(old(mem[..]), mem[..], [h])
      ensures U64At(mem[..], h + 8) == tempA && U64At(mem[..], h + 16) == tempB
    {
      assert blocks[i].space >= MIN_PAYLOAD;
      ghost var m2 := mem[..];
      StoreLink(h + 8, tempA);
      PayloadState(m2, mem[..], base, size, blocks, flist, freeList, i, h + 8, h + 16);
      ghost var m3 := mem[..];
      LinkStoreFrame(m2, m3, h, h + 8);
      StoreLink(h + 16, tempB);
      PayloadState(m3, mem[..], base, size, blocks, flist, freeList, i, h + 16, h + 24);
      LinkStoreFrame(m3, mem[..], h, h + 16);
      SliceUnchanged(m3, mem[..], h + 16, h + 24, h + 8, 8);
    }

    /** `myrealloc` when `myalloc` found no block after `myfree(old)`:
        split the coalesced block back at the saved sizes, put the merged
        successor back on the list, take the old block off it and restore
        the old block's tags and overwritten payload words. */
    method Rollback(h: int, oldSpace: int, prevHeadptr: int, prevSpace: int, nextHeadptr: int,
                    tempA: int, tempB: int, ghost bs: seq<Block>, ghost fl: seq<int>, ghost i: int)
      requires Coherent() && Inv(bs, fl, size) && 0 <= i < |bs| && !bs[i].free
      requires h == bs[i].off && oldSpace == bs[i].space
      requires blocks == FreeBlocks(bs, i) && flist == FreeList(bs, i, fl)
      requires (prevHeadptr != NULL) == PrevFree(bs, i)
      requires PrevFree(bs, i) ==> prevHeadptr == bs[i - 1].off && prevSpace == bs[i - 1].space
      requires (nextHeadptr != NULL) == NextFree(bs, i)
      requires 0 <= tempA < TWO64 && 0 <= tempB < TWO64 && 0 <= h && h + NODE <= size
      modifies this, mem
      ensures Valid() && blocks == bs && flist == RollbackList(bs, i, fl)
      ensures ChangedOnly(old(mem[..]), mem[..], NearTags(bs, i), [h] + fl)
      ensures U64At(mem[..], h + 8) == tempA && U64At(mem[..], h + 16) == tempB
    {
      if NextFree(bs, i) {
        FreeOffsetsMember(bs, size, i + 1);
        assert bs[i + 1].off in Elems(fl);
      }
      ghost var m0 := mem[..];
      if prevHeadptr != NULL && nextHeadptr != NULL {
        UnmergeBoth(prevHeadptr, prevSpace, h, oldSpace, bs, fl, i);
      } else if prevHeadptr != NULL {
        UnmergePrev(prevHeadptr, prevSpace, h, bs, fl, i);
      } else if nextHeadptr != NULL {
        UnmergeNext(h, oldSpace, bs, fl, i);
      } else {
        UnmergeNone(h, bs, fl, i);
      }
      ghost var m1 := mem[..];
      RollbackListed(bs, size, i, fl);
      Restore(h, oldSpace, tempA, tempB, bs, fl, i);
      ChangedTrans(m0, m1, mem[..], NearTags(bs, i), [h] + fl);
    }

    // -------------------------------------------------------------------
    // myrealloc

    /** What `myrealloc` saves about the old block before it frees it: its
        header, payload size, the two payload words `myfree` overwrites with
        links, and which neighbours `myfree` will merge it with. */
    method ReallocPrep(p: int) returns (h: int, oldSpace: int, prevHeadptr: int, prevSpace: int,
                                        nextHeadptr: int, tempA: int, tempB: int, ghost i: int)
      requires Coherent() && IsPayload(p)
      ensures h == p - TAG && i == IndexOf(blocks, h) && 0 <= i < |blocks| && !blocks[i].free
      ensures oldSpace == blocks[i].space && 0 <= h && h + NODE <= size && Foot(blocks[i]) <= size
      ensures (prevHeadptr != NULL) == PrevFree(blocks, i)
      ensures PrevFree(blocks, i) ==> prevHeadptr == blocks[i - 1].off && prevSpace == blocks[i - 1].space
      ensures (nextHeadptr != NULL) == NextFree(blocks, i)
      ensures tempA == U64At(mem[..], h + 8) && tempB == U64At(mem[..], h + 16)
    {
      h := p - TAG;
      i := IndexOf(blocks, h);
      assert blocks[i].space >= MIN_PAYLOAD;
      assert 0 <= h && End(blocks[i]) <= size by {
        if i > 0 { OrderedFrom(blocks, size, 0, i); }
        if i < |blocks| - 1 { OrderedFrom(blocks, size, i, |blocks| - 1); }
      }
      var tag := LoadTag(h, i);
      oldSpace := -tag;
      var endptr := h + oldSpace + OVERHEAD;
      tempA := U64At(mem[..], h + 8);
      tempB := U64At(mem[..], h + 16);
      prevHeadptr, nextHeadptr, prevSpace := NULL, NULL, 0;
      if h != 0 {
        assert i > 0 && h == End(blocks[i - 1]) && blocks[i - 1].space >= MIN_PAYLOAD;
        if i > 1 { OrderedFrom(blocks, size, 0, i - 1); }
        prevSpace := LoadTag(h - TAG, i - 1);
        if prevSpace > 0 {
          prevHeadptr := h - prevSpace - OVERHEAD;
        }
      } else if i > 0 {
        OrderedFrom(blocks, size, 0, i);
        assert false;
      }
      assert endptr == End(blocks[i]);
      if endptr != size {
        assert i + 1 < |blocks| && endptr == blocks[i + 1].off && blocks[i + 1].space >= MIN_PAYLOAD;
        var nextSpace := LoadTag(endptr, i + 1);
        if nextSpace > 0 {
          nextHeadptr := endptr;
        }
      } else if i + 1 < |blocks| {
        OrderedFrom(blocks, size, i + 1, |blocks| - 1);
        assert false;
      }
    }

    /** The failure path of `myrealloc`, from the state after `myfree` of
        block `i` of `bs` (the arena then was `m0`) and a `myalloc` that found
        nothing: afterwards the layout is `bs` again, the list holds the same
        nodes, and of all the bytes only links of listed nodes differ from
        `m0`. */
    method ReallocFail(h: int, oldSpace: int, prevHeadptr: int, prevSpace: int, nextHeadptr: int,
                       tempA: int, tempB: int, ghost m0: seq<byte>, ghost head0: int,
                       ghost bs: seq<Block>, ghost fl: seq<int>, ghost i: int)
      requires Coherent()
      requires Released(base, size, m0, head0, bs, fl, i, h, oldSpace, prevHeadptr, prevSpace, nextHeadptr,
                        tempA, tempB, blocks, flist, mem[..])
      modifies this, mem
      ensures Valid() && blocks == bs && flist == RollbackList(bs, i, fl)
      ensures LinksOnly(m0, mem[..], fl)
    {
      ghost var m1 := mem[..];
      Rollback(h, oldSpace, prevHeadptr, prevSpace, nextHeadptr, tempA, tempB, bs, fl, i);
      ghost var m2 := mem[..];
      assert State(m2, base, size, bs, flist, freeList);
      ChangedTrans(m0, m1, m2, NearTags(bs, i), [h] + fl);
      LinkBytesSame(m0, m2, h + 8);
      LinkBytesSame(m0, m2, h + 16);
      RestoreFrame(m0, m2, base, size, bs, fl, head0, flist, freeList, i);
    }

    /** `ReallocFail` when `myalloc` found nothing for `sz`: the outcome
        `myrealloc` promises for that case. */
    method ReallocUndo(h: int, oldSpace: int, prevHeadptr: int, prevSpace: int, nextHeadptr: int,
                       tempA: int, tempB: int, ghost p: int, ghost sz: int, ghost m0: seq<byte>, ghost head0: int,
                       ghost bs: seq<Block>, ghost fl: seq<int>, ghost i: int)
      requires Coherent()
      requires Released(base, size, m0, head0, bs, fl, i, h, oldSpace, prevHeadptr, prevSpace, nextHeadptr,
                        tempA, tempB, blocks, flist, mem[..])
      requires i == IndexOf(bs, p - TAG) && BestFit(ListSpaces(blocks, flist), sz) == -1
      modifies this, mem
      ensures Valid() && Reallocated(bs, fl, m0, p, sz, NULL, blocks, flist, mem[..])
    {
      ReallocFail(h, oldSpace, prevHeadptr, prevSpace, nextHeadptr, tempA, tempB, m0, head0, bs, fl, i);
    }

    /** The store of `saved` at offset `r` inside the payload of the
        allocated block `j`, one byte after another. */
    method CopyIn(r: int, saved: seq<byte>, ghost j: int)
      requires Coherent() && 0 <= j < |blocks| && !blocks[j].free
      requires blocks[j].off + TAG <= r && r + |saved| <= Foot(blocks[j]) && 0 <= r && r + |saved| <= size
      modifies mem
      ensures Coherent() && mem[..] == Put(old(mem[..]), r, saved)
    {
      var k := 0;
      while k < |saved|
        invariant 0 <= k <= |saved|
        invariant Coherent() && mem[..] == Put(old(mem[..]), r, saved[..k])
      {
        ghost var before := mem[..];
        Poke(r + k, saved[k], j);
        assert mem[..] == Put(old(mem[..]), r, saved[..k + 1]) by {
          assert before == Put(old(mem[..]), r, saved[..k]);
        }
        k := k + 1;
      }
      assert saved[..k] == saved;
    }

    /** The first half of `myrealloc`: save what `myfree` will overwrite
        (here the first `len` payload bytes), then `myfree` the block. */
    method ReallocRelease(p: int, len: int) returns (h: int, oldSpace: int, prevHeadptr: int, prevSpace: int,
                                                     nextHeadptr: int, tempA: int, tempB: int,
                                                     saved: seq<byte>, ghost i: int)
      requires Valid() && IsPayload(p) && 0 <= len
      modifies this, mem
      ensures Valid()
      ensures h == p - TAG && i == IndexOf(old(blocks), h) && 0 <= i < |old(blocks)| && !old(blocks)[i].free
      ensures oldSpace == old(blocks)[i].space && 0 <= h && h + NODE <= size && Foot(old(blocks)[i]) <= size
      ensures (prevHeadptr != NULL) == PrevFree(old(blocks), i)
      ensures PrevFree(old(blocks), i) ==> prevHeadptr == old(blocks)[i - 1].off && prevSpace == old(blocks)[i - 1].space
      ensures (nextHeadptr != NULL) == NextFree(old(blocks), i)
      ensures tempA == U64At(old(mem[..]), h + 8) && tempB == U64At(old(mem[..]), h + 16)
      ensures saved == old(mem[..])[p..p + Min(oldSpace, len)]
      ensures blocks == FreeBlocks(old(blocks), i) && flist == FreeList(old(blocks), i, old(flist))
      ensures ChangedOnly(old(mem[..]), mem[..], NearTags(old(blocks), i), [h] + old(flist))
    {
      h, oldSpace, prevHeadptr, prevSpace, nextHeadptr, tempA, tempB, i := ReallocPrep(p);
      saved := mem[p..p + Min(oldSpace, len)];
      IsValidAccepts(i);
      var _ := Free(p);
    }

    /** The success path of `myrealloc`, once `myalloc` has taken the free
        block `ffl[b]` for the new payload `r`: the saved prefix of the old
        payload is stored at the start of the new one. */
    method MoveSaved(r: int, saved: seq<byte>, ghost p: int, sz: int, ghost oldSpace: int, ghost m0: seq<byte>,
                     ghost bs: seq<Block>, ghost fl: seq<int>, ghost i: int,
                     ghost fb: seq<Block>, ghost ffl: seq<int>, ghost b: int)
      requires Valid() && 0 <= sz <= INT32_MAX && 0 <= p
      requires i == IndexOf(bs, p - TAG) && 0 <= i < |bs| && !bs[i].free
      requires fb == FreeBlocks(bs, i) && ffl == FreeList(bs, i, fl) && b == BestFit(ListSpaces(fb, ffl), sz)
      requires b != -1 && r != NULL
      requires var j := IndexOf(fb, ffl[b]);
        && 0 <= j < |blocks| && r == ffl[b] + TAG && !blocks[j].free && Clamp(sz) <= blocks[j].space
        && blocks == AllocBlocks(fb, j, Clamp(sz)) && flist == AllocList(fb, j, Clamp(sz), ffl)
        && ChangedOnly(m0, mem[..], NearTags(bs, i) + TakeTags(fb, j, Clamp(sz)), PushIf(fb, j, Clamp(sz), [bs[i].off] + fl))
      requires oldSpace == bs[i].space && p == bs[i].off + TAG && 0 <= oldSpace && p + oldSpace <= size == |m0|
      requires saved == m0[p..p + Min(oldSpace, sz)]
      modifies mem
      ensures Valid() && Reallocated(bs, fl, m0, p, sz, r, blocks, flist, mem[..])
    {
      ghost var j := IndexOf(fb, ffl[b]);
      ghost var mid := mem[..];
      InArena(blocks, size, j);
      CopyIn(r, saved, j);
      assert mem[..][r..r + |saved|] == saved;
      MovedReallocated(bs, fl, m0, p, sz, saved, i, fb, ffl, b, r, blocks, flist, mid, mem[..]);
    }

    /** `myrealloc(p, sz)` as its design intends: free the block, take the
        best fit for `sz` bytes from the pool that freeing left, and carry
        over the first `min(oldSpace, sz)` payload bytes. When nothing fits
        the pool is put back: the same layout, the same free nodes (the list
        order may differ), the old block's payload intact. */
    method Realloc(p: int, sz: int) returns (r: int)
      requires Valid() && IsPayload(p) && 0 <= sz <= INT32_MAX
      modifies this, mem
      ensures Valid()
      ensures Reallocated(old(blocks), old(flist), old(mem[..]), p, sz, r, blocks, flist, mem[..])
    {
      ghost var bs, fl, m0, head0 := blocks, flist, mem[..], freeList;
      var h, oldSpace, prevHeadptr, prevSpace, nextHeadptr, tempA, tempB, saved, i := ReallocRelease(p, sz);
      r := ReallocFinish(sz, saved, h, oldSpace, prevHeadptr, prevSpace, nextHeadptr, tempA, tempB,
                         p, m0, head0, bs, fl, i);
    }

    /** `myrealloc(p, sz)` as written: on success the copy reads the old
        payload after `myfree` and `myalloc` have written into the pool, so
        what lands in the new block is that arena's bytes (`AsWrittenBytes`). */
    method ReallocAsWritten(p: int, sz: int) returns (r: int, ghost mid: seq<byte>)
      requires Valid() && IsPayload(p) && 0 <= sz <= INT32_MAX && CopyInArena(blocks, flist, p, sz, size)
      modifies this, mem
      ensures Valid()
      ensures ReallocatedAsWritten(old(blocks), old(flist), old(mem[..]), p, sz, r, blocks, flist, mid, mem[..])
      ensures r != NULL ==> State(mid, base, size, blocks, flist, freeList)
    {
      ghost var bs, fl, m0, head0 := blocks, flist, mem[..], freeList;
      var h, oldSpace, prevHeadptr, prevSpace, nextHeadptr, tempA, tempB, _, i := ReallocRelease(p, 0);
      r, mid := ReallocFinishAsWritten(sz, h, oldSpace, prevHeadptr, prevSpace, nextHeadptr, tempA, tempB,
                                       p, m0, head0, bs, fl, i);
    }

    /** The second half of `myrealloc` as written. */
    method ReallocFinishAsWritten(sz: int, h: int, oldSpace: int, prevHeadptr: int, prevSpace: int,
                                  nextHeadptr: int, tempA: int, tempB: int, p: int, ghost m0: seq<byte>,
                                  ghost head0: int, ghost bs: seq<Block>, ghost fl: seq<int>, ghost i: int)
                                  returns (r: int, ghost mid: seq<byte>)
      requires Valid()
      requires Released(base, size, m0, head0, bs, fl, i, h, oldSpace, prevHeadptr, prevSpace, nextHeadptr,
                        tempA, tempB, blocks, flist, mem[..])
      requires 0 <= sz <= INT32_MAX && i == IndexOf(bs, p - TAG) && h == p - TAG && Foot(bs[i]) <= size
      requires CopyInArena(bs, fl, p, sz, size)
      modifies this, mem
      ensures Valid() && ReallocatedAsWritten(bs, fl, m0, p, sz, r, blocks, flist, mid, mem[..])
      ensures r != NULL ==> State(mid, base, size, blocks, flist, freeList)
    {
      ghost var fb, ffl, m1 := blocks, flist, mem[..];
      ghost var b := BestFit(ListSpaces(fb, ffl), sz);
      r := Alloc(sz);
      mid := mem[..];
      if r == NULL {
        ReallocUndo(h, oldSpace, prevHeadptr, prevSpace, nextHeadptr, tempA, tempB, p, sz, m0, head0, bs, fl, i);
        FailedAsWritten(bs, fl, m0, p, sz, blocks, flist, mid, mem[..]);
        assert Valid() && ReallocatedAsWritten(bs, fl, m0, p, sz, r, blocks, flist, mid, mem[..]);
      } else {
        assert tempA == U64At(m0, p + 4) && tempB == U64At(m0, p + 12);
        FreedThenTaken(m0, m1, mem[..], bs, fl, i, fb, IndexOf(fb, ffl[b]), Clamp(sz));
        MoveAsWritten(r, p, sz, tempA, tempB, m0, bs, fl, i, fb, ffl, b);
      }
    }

    /** The success path of `myrealloc` as written, once `myalloc` has
        taken the free block `ffl[b]` for the new payload `r`: the copy
        turns the arena `myalloc` left into `AsWrittenBytes` of it. */
    method MoveAsWritten(r: int, p: int, sz: int, tempA: int, tempB: int, ghost m0: seq<byte>,
                         ghost bs: seq<Block>, ghost fl: seq<int>, ghost i: int,
                         ghost fb: seq<Block>, ghost ffl: seq<int>, ghost b: int)
      requires Valid() && 0 <= sz <= INT32_MAX && |m0| == size && 0 <= p - TAG && p + 20 <= size
      requires i == IndexOf(bs, p - TAG) && 0 <= i < |bs| && !bs[i].free
      requires fb == FreeBlocks(bs, i) && ffl == FreeList(bs, i, fl) && b == BestFit(ListSpaces(fb, ffl), sz)
      requires b != -1 && r != NULL && CopyInArena(bs, fl, p, sz, size)
      requires var j := IndexOf(fb, ffl[b]);
        && 0 <= j < |blocks| && r == ffl[b] + TAG && !blocks[j].free
        && blocks == AllocBlocks(fb, j, Clamp(sz)) && flist == AllocList(fb, j, Clamp(sz), ffl)
        && ChangedOnly(m0, mem[..], NearTags(bs, i) + TakeTags(fb, j, Clamp(sz)), PushIf(fb, j, Clamp(sz), [bs[i].off] + fl))
      requires tempA == U64At(m0, p + 4) && tempB == U64At(m0, p + 12)
      modifies mem
      ensures Valid() && ReallocatedAsWritten(bs, fl, m0, p, sz, r, blocks, flist, old(mem[..]), mem[..])
    {
      ghost var mid := mem[..];
      ghost var j := IndexOf(fb, ffl[b]);
      InArena(blocks, size, j);
      CopyOverAsWritten(r, p, sz, tempA, tempB, j);
      CopiedAsWritten(bs, fl, m0, p, sz, i, fb, ffl, b, j, r, blocks, flist, mid, mem[..]);
    }

    /** The second half of `myrealloc`: `myalloc(sz)`, then either the copy
        or, when nothing fits, the rollback of `myfree`. */
    method ReallocFinish(sz: int, saved: seq<byte>, h: int, oldSpace: int, prevHeadptr: int, prevSpace: int,
                         nextHeadptr: int, tempA: int, tempB: int, ghost p: int, ghost m0: seq<byte>,
                         ghost head0: int, ghost bs: seq<Block>, ghost fl: seq<int>, ghost i: int)
                         returns (r: int)
      requires Valid()
      requires Released(base, size, m0, head0, bs, fl, i, h, oldSpace, prevHeadptr, prevSpace, nextHeadptr,
                        tempA, tempB, blocks, flist, mem[..])
      requires 0 <= sz <= INT32_MAX && i == IndexOf(bs, p - TAG) && h == p - TAG && Foot(bs[i]) <= size
      requires saved == m0[p..p + Min(oldSpace, sz)]
      modifies this, mem
      ensures Valid() && Reallocated(bs, fl, m0, p, sz, r, blocks, flist, mem[..])
    {
      ghost var fb, ffl, m1 := blocks, flist, mem[..];
      ghost var b := BestFit(ListSpaces(fb, ffl), sz);
      r := Alloc(sz);
      if r == NULL {
        ReallocUndo(h, oldSpace, prevHeadptr, prevSpace, nextHeadptr, tempA, tempB, p, sz, m0, head0, bs, fl, i);
      } else {
        FreedThenTaken(m0, m1, mem[..], bs, fl, i, fb, IndexOf(fb, ffl[b]), Clamp(sz));
        MoveSaved(r, saved, p, sz, oldSpace, m0, bs, fl, i, fb, ffl, b);
      }
    }

    /** The byte loop of `myrealloc` as written:
        `for (k = 20; k < nSpace && k < size; k++) newptr[k] = oldptr[k]`. */
    method CopyAsWritten(newptr: int, oldptr: int, nSpace: int, sz: int, ghost j: int)
      requires Coherent() && 0 <= j < |blocks| && !blocks[j].free
      requires newptr == blocks[j].off + TAG && nSpace == blocks[j].space && 0 <= newptr && Foot(blocks[j]) <= size
      requires 0 <= oldptr && oldptr + 20 <= size && oldptr + Min(nSpace, sz) <= size
      modifies mem
      ensures Coherent() && mem[..] == CopyForward(old(mem[..]), newptr, oldptr, 20, Min(nSpace, sz))
    {
      var k := 20;
      while k < nSpace && k < sz
        invariant 20 <= k && (k <= Min(nSpace, sz) || k == 20)
        invariant Coherent() && mem[..] == CopyForward(old(mem[..]), newptr, oldptr, 20, k)
        decreases nSpace - k
      {
        Poke(newptr + k, mem[oldptr + k], j);
        k := k + 1;
      }
    }

    /** The success path of `myrealloc` as written, after `myalloc`
        returned the payload `r` of block `j`: copy the first `int` of the
        old payload, store the saved words, then the byte loop. */
    method CopyOverAsWritten(r: int, p: int, sz: int, tempA: int, tempB: int, ghost j: int)
      requires Coherent() && 0 <= j < |blocks| && !blocks[j].free && r == blocks[j].off + TAG
      requires 0 <= r && Foot(blocks[j]) <= size
      requires 0 <= p && p + 20 <= size && p + Min(blocks[j].space, sz) <= size
      requires 0 <= tempA < TWO64 && 0 <= tempB < TWO64
      modifies mem
      ensures Coherent()
      ensures mem[..] == AsWrittenBytes(old(mem[..]), p, r, blocks[j].space, sz, tempA, tempB)
    {
      var tag := LoadTag(r - TAG, j);
      var nSpace := -tag;
      assert nSpace >= MIN_PAYLOAD;
      var w := mem[p..p + 4];
      CopyIn(r, w, j);
      CopyIn(r + 4, EncodeU64(tempA), j);
      CopyIn(r + 12, EncodeU64(tempB), j);
      CopyAsWritten(r, p, nSpace, sz, j);
    }

    /** A store by the block's owner of the byte `v` at offset `q` of the
        payload of the allocated block `i`. */
    method Poke(q: int, v: byte, ghost i: int)
      requires Coherent() && 0 <= i < |blocks| && !blocks[i].free
      requires blocks[i].off + TAG <= q < Foot(blocks[i]) && 0 <= q < size
      modifies mem
      ensures Coherent()
      ensures mem[..] == old(mem[..])[q := v]
    {
      mem[q] := v;
      PayloadState(old(mem[..]), mem[..], base, size, blocks, flist, freeList, i, q, q + 1);
    }

    /** `checkMem`: walk the blocks by their header tags and add up their spans. */
    method CheckMem() returns (r: int)
      requires Coherent()
      ensures r == AllocSpan(blocks) + FreeSpan(blocks)
      ensures r == size
    {
      var freeMem := 0;
      var allocMem := 0;
      var dataptr := 0;
      ghost var k := 0;
      while dataptr != size
        invariant 0 <= k <= |blocks|
        invariant dataptr == if k < |blocks| then blocks[k].off else size
        invariant k < |blocks| ==> blocks[k].off < size
        invariant allocMem == AllocSpan(blocks[..k]) && freeMem == FreeSpan(blocks[..k])
        decreases |blocks| - k
      {
        assert BlockTagsOK(mem[..], blocks[k]);
        var space := Int32At(mem[..], dataptr);
        var blockSize := (if space < 0 then -space else space) + OVERHEAD;
        if space < 0 {
          allocMem := allocMem + blockSize;
        } else {
          freeMem := freeMem + blockSize;
        }
        dataptr := dataptr + blockSize;
        k := k + 1;
        assert blocks[..k][..k - 1] == blocks[..k - 1];
        if k < |blocks| - 1 {
          OrderedFrom(blocks, this.size, k, |blocks| - 1);
        }
      }
      assert blocks[..k] == blocks;
      SpanTotal(blocks, this.size);
      r := allocMem + freeMem;
    }

    /** `isValid`: the cheap plausibility test `myfree` applies to a payload
        pointer, here the offset `p` of that pointer from `mem`. */
    function IsValid(p: int): (r: bool)
      reads this, mem
      requires Basic()
      ensures r ==> TAG <= p && p + TAG <= size && Int32At(mem[..], p - TAG) <= 0
    {
      if p < TAG || p > size - TAG then false
      else
        var space := -Int32At(mem[..], p - TAG);
        if space < 0 || p + space > size - TAG then false
        else Int32At(mem[..], p + space) == -space
    }

    /** `isValid` never rejects the payload of an allocated block. */
    lemma IsValidAccepts(i: int)
      requires Coherent() && 0 <= i < |blocks| && !blocks[i].free
      ensures IsValid(blocks[i].off + TAG)
    {
      assert BlockTagsOK(mem[..], blocks[i]);
    }

    /** `isValid` rejects the payload of a free block. */
    lemma IsValidRejectsFree(i: int)
      requires Coherent() && 0 <= i < |blocks| && blocks[i].free
      ensures !IsValid(blocks[i].off + TAG)
    {
      assert BlockTagsOK(mem[..], blocks[i]);
    }

    /** `addNode`: push the node at `n` on the front of the free list. */
    method AddNode(n: int)
      requires Basic() && ListOK(mem[..], base, flist, freeList)
      requires 0 <= n && n + NODE <= size
      requires forall k :: 0 <= k < |flist| ==> flist[k] + NODE <= n || n + NODE <= flist[k]
      modifies this`freeList, this`flist, mem
      ensures flist == [n] + old(flist) && freeList == n
      ensures ListOK(mem[..], base, flist, freeList)
      ensures LinksOnly(old(mem[..]), mem[..], flist)
    {
      ghost var m0 := mem[..];
      var oldFirstNode := freeList;
      StoreLink(n + 8, Addr(base, oldFirstNode));
      ghost var m1 := mem[..];
      StoreLink(n + 16, Addr(base, NULL));
      ghost var m2 := mem[..];
      if oldFirstNode != NULL {
        StoreLink(oldFirstNode + 16, Addr(base, n));
      }
      PushWrites(m0, m1, m2, mem[..], base, flist, oldFirstNode, n);
      freeList := n;
      flist := [n] + flist;
    }

    /** `node->prev` and `node->next` of list node `k`. */
    method NodeLinks(x: int, ghost k: int) returns (pv: int, nx: int)
      requires Basic() && ListOK(mem[..], base, flist, freeList) && 0 <= k < |flist| && flist[k] == x
      ensures pv == PrevOf(flist, k) && nx == NextOf(flist, k)
    {
      assert NodeOK(mem[..], base, flist, k);
      pv := Ptr(base, U64At(mem[..], x + 16));
      nx := Ptr(base, U64At(mem[..], x + 8));
    }

    /** `removeNode`: splice the node at `x` out of the free list. */
    method RemoveNode(x: int)
      requires Basic() && ListOK(mem[..], base, flist, freeList) && Distinct(flist) && x in flist
      modifies this`freeList, this`flist, mem
      ensures flist == Remove(old(flist), x)
      ensures ListOK(mem[..], base, flist, freeList)
      ensures LinksOnly(old(mem[..]), mem[..], flist)
    {
      ghost var m0 := mem[..];
      ghost var fl := flist;
      ghost var k :| 0 <= k < |fl| && fl[k] == x;
      var prevNode, nextNode := NodeLinks(x, k);
      if prevNode == NULL {
        freeList := nextNode;
      } else {
        StoreLink(prevNode + 8, Addr(base, nextNode));
      }
      ghost var m1 := mem[..];
      if nextNode != NULL {
        StoreLink(nextNode + 16, Addr(base, prevNode));
      }
      UnlinkWrites(m0, m1, mem[..], base, fl, old(freeList), k,
                   if prevNode == NULL then 0 else prevNode + 8, if nextNode == NULL then 0 else nextNode + 16);
      RemoveAtIndex(fl, k);
      flist := Unlinked(fl, k);
    }
  }
}
