/** The block layout of the arena, as an abstract sequence of blocks, and the
    pure facts the allocator relies on: tiling, splitting, merging, the set of
    free blocks and the best-fit choice among the free-list nodes. */
module Layout {

  /** `sizeof(int)`: one boundary tag. */
  const TAG: int := 4
  /** `sizeof(node)` under LP64: `space` at 0, padding at 4, `next` at 8, `prev` at 16. */
  const NODE: int := 24
  /** Header tag plus footer tag of one block. */
  const OVERHEAD: int := 8
  /** `sizeof(node) - sizeof(int)`: the smallest payload a block may have. */
  const MIN_PAYLOAD: int := 20
  /** A block is split iff its payload exceeds the request by more than this. */
  const SPLIT_SLACK: int := 28

  /** A block: header tag at `off`, payload of `space` bytes, footer tag after it. */
  datatype Block = Block(off: int, space: int, free: bool)

  /** Offset of the footer tag. */
  function Foot(b: Block): int { b.off + TAG + b.space }

  /** Offset just past the block. */
  function End(b: Block): int { b.off + b.space + OVERHEAD }

  /** The signed value both tags hold: positive when free, negative when allocated. */
  function Tag(b: Block): int { if b.free then b.space else -b.space }

  /** The blocks tile `[0, n)` end to end. */
  ghost predicate Tiled(bs: seq<Block>, n: int)
  {
    && |bs| > 0
    && bs[0].off == 0
    && End(bs[|bs| - 1]) == n
    && (forall i :: 0 <= i < |bs| ==> bs[i].space >= 0)
    && (forall i :: 0 <= i < |bs| - 1 ==> bs[i + 1].off == End(bs[i]))
  }

  /** Every payload can hold a free-list node once freed. */
  ghost predicate MinPayload(bs: seq<Block>)
  {
    forall i :: 0 <= i < |bs| ==> bs[i].space >= MIN_PAYLOAD
  }

  ghost predicate Wf(bs: seq<Block>, n: int)
  {
    Tiled(bs, n) && MinPayload(bs)
  }

  /** No two address-adjacent blocks are both free. */
  ghost predicate NoAdjacentFree(bs: seq<Block>)
  {
    forall i :: 0 <= i < |bs| - 1 ==> !(bs[i].free && bs[i + 1].free)
  }

  lemma {:induction false} OrderedFrom(bs: seq<Block>, n: int, i: int, j: int)
    requires Tiled(bs, n)
    requires 0 <= i < j < |bs|
    ensures End(bs[i]) <= bs[j].off
    decreases j - i
  {
    if j > i + 1 {
      OrderedFrom(bs, n, i, j - 1);
    }
  }

  /** Blocks lie in address order, inside the arena. */
  lemma Ordered(bs: seq<Block>, n: int)
    requires Tiled(bs, n)
    ensures forall i, j :: 0 <= i < j < |bs| ==> End(bs[i]) <= bs[j].off
    ensures forall i :: 0 <= i < |bs| ==> 0 <= bs[i].off && End(bs[i]) <= n
  {
    forall i, j | 0 <= i < j < |bs|
      ensures End(bs[i]) <= bs[j].off
    {
      OrderedFrom(bs, n, i, j);
    }
    forall i | 0 <= i < |bs|
      ensures 0 <= bs[i].off && End(bs[i]) <= n
    {
      if i > 0 { OrderedFrom(bs, n, 0, i); }
      if i < |bs| - 1 { OrderedFrom(bs, n, i, |bs| - 1); }
    }
  }

  /** Each block lies inside the arena. */
  lemma InArena(bs: seq<Block>, n: int, i: int)
    requires Tiled(bs, n) && 0 <= i < |bs|
    ensures 0 <= bs[i].off && End(bs[i]) <= n
  {
    if i > 0 { OrderedFrom(bs, n, 0, i); }
    if i < |bs| - 1 { OrderedFrom(bs, n, i, |bs| - 1); }
  }

  /** Two blocks with the same offset are the same block. */
  lemma OffsetsUnique(bs: seq<Block>, n: int)
    requires Tiled(bs, n)
    ensures forall i, j :: 0 <= i < |bs| && 0 <= j < |bs| && bs[i].off == bs[j].off ==> i == j
  {
    Ordered(bs, n);
  }

  // ---------------------------------------------------------------------
  // Splitting and merging

  /** Block `i` cut into a free block of payload `k` and a free remainder. */
  function SplitAt(bs: seq<Block>, i: int, k: int): (r: seq<Block>)
    requires 0 <= i < |bs|
    ensures |r| == |bs| + 1
    ensures forall j :: 0 <= j < i ==> r[j] == bs[j]
    ensures r[i] == Block(bs[i].off, k, true)
    ensures r[i + 1] == Block(bs[i].off + k + OVERHEAD, bs[i].space - k - OVERHEAD, true)
    ensures forall j :: i + 1 < j < |r| ==> r[j] == bs[j - 1]
  {
    bs[..i] + [Block(bs[i].off, k, true), Block(bs[i].off + k + OVERHEAD, bs[i].space - k - OVERHEAD, true)] + bs[i + 1..]
  }

  /** Blocks `i` and `i + 1` combined into one free block. */
  function MergeAt(bs: seq<Block>, i: int): (r: seq<Block>)
    requires 0 <= i < |bs| - 1
    ensures |r| == |bs| - 1
    ensures forall j :: 0 <= j < i ==> r[j] == bs[j]
    ensures r[i] == Block(bs[i].off, bs[i].space + bs[i + 1].space + OVERHEAD, true)
    ensures forall j :: i < j < |r| ==> r[j] == bs[j + 1]
  {
    bs[..i] + [Block(bs[i].off, bs[i].space + bs[i + 1].space + OVERHEAD, true)] + bs[i + 2..]
  }

  /** Block `i` with its state flag set to `f`. */
  function Mark(bs: seq<Block>, i: int, f: bool): (r: seq<Block>)
    requires 0 <= i < |bs|
    ensures |r| == |bs| && r[i] == bs[i].(free := f)
    ensures forall j :: 0 <= j < |bs| && j != i ==> r[j] == bs[j]
  {
    bs[i := bs[i].(free := f)]
  }

  lemma SplitWf(bs: seq<Block>, n: int, i: int, k: int)
    requires Wf(bs, n) && 0 <= i < |bs|
    requires MIN_PAYLOAD <= k && k + OVERHEAD + MIN_PAYLOAD <= bs[i].space
    ensures Wf(SplitAt(bs, i, k), n)
  {
    var r := SplitAt(bs, i, k);
    forall j | 0 <= j < |r| - 1
      ensures r[j + 1].off == End(r[j])
    {
      if j + 1 < i {
      } else if j + 1 == i {
      } else if j == i {
      } else if j == i + 1 {
      } else {
        assert r[j] == bs[j - 1] && r[j + 1] == bs[j];
      }
    }
  }

  lemma MergeWf(bs: seq<Block>, n: int, i: int)
    requires Wf(bs, n) && 0 <= i < |bs| - 1
    ensures Wf(MergeAt(bs, i), n)
  {
    var r := MergeAt(bs, i);
    forall j | 0 <= j < |r| - 1
      ensures r[j + 1].off == End(r[j])
    {
      if j + 1 < i {
      } else if j + 1 == i {
      } else if j == i {
        assert r[j + 1] == bs[j + 2];
      } else {
        assert r[j] == bs[j + 1] && r[j + 1] == bs[j + 2];
      }
    }
  }

  lemma MarkWf(bs: seq<Block>, n: int, i: int, f: bool)
    requires Wf(bs, n) && 0 <= i < |bs|
    ensures Wf(Mark(bs, i, f), n)
  {
    var r := Mark(bs, i, f);
    forall j | 0 <= j < |r| - 1
      ensures r[j + 1].off == End(r[j])
    {
    }
  }

  /** Splitting a merged pair at the first block's old payload gives the pair back. */
  lemma SplitUndoesMerge(bs: seq<Block>, i: int)
    requires 0 <= i < |bs| - 1 && bs[i].free && bs[i + 1].free
    requires bs[i + 1].off == End(bs[i])
    ensures SplitAt(MergeAt(bs, i), i, bs[i].space) == bs
  {
    var r := SplitAt(MergeAt(bs, i), i, bs[i].space);
    assert |r| == |bs|;
    forall j | 0 <= j < |bs|
      ensures r[j] == bs[j]
    {
      if j > i + 1 {
        assert r[j] == MergeAt(bs, i)[j - 1];
      }
    }
  }

  // ---------------------------------------------------------------------
  // The set of free blocks

  function FreeOffsets(bs: seq<Block>): set<int>
  {
    set i | 0 <= i < |bs| && bs[i].free :: bs[i].off
  }

  lemma FreeOffsetsMember(bs: seq<Block>, n: int, i: int)
    requires Tiled(bs, n) && 0 <= i < |bs|
    ensures bs[i].off in FreeOffsets(bs) <==> bs[i].free
  {
    OffsetsUnique(bs, n);
  }

  lemma FreeOffsetsSplit(bs: seq<Block>, n: int, i: int, k: int)
    requires Wf(bs, n) && 0 <= i < |bs| && bs[i].free
    requires MIN_PAYLOAD <= k && k + OVERHEAD + MIN_PAYLOAD <= bs[i].space
    ensures FreeOffsets(SplitAt(bs, i, k)) == FreeOffsets(bs) + {bs[i].off + k + OVERHEAD}
  {
    var r := SplitAt(bs, i, k);
    forall x | x in FreeOffsets(r)
      ensures x in FreeOffsets(bs) + {bs[i].off + k + OVERHEAD}
    {
      var j :| 0 <= j < |r| && r[j].free && r[j].off == x;
      if j < i {
      } else if j == i {
      } else if j == i + 1 {
      } else {
        assert r[j] == bs[j - 1];
      }
    }
    forall x | x in FreeOffsets(bs) + {bs[i].off + k + OVERHEAD}
      ensures x in FreeOffsets(r)
    {
      if x == bs[i].off + k + OVERHEAD {
        assert r[i + 1].off == x && r[i + 1].free;
      } else {
        var j :| 0 <= j < |bs| && bs[j].free && bs[j].off == x;
        if j < i {
          assert r[j] == bs[j];
        } else if j == i {
          assert r[i].off == x;
        } else {
          assert r[j + 1] == bs[j];
        }
      }
    }
  }

  lemma FreeOffsetsMerge(bs: seq<Block>, n: int, i: int)
    requires Wf(bs, n) && 0 <= i < |bs| - 1 && bs[i].free && bs[i + 1].free
    ensures FreeOffsets(MergeAt(bs, i)) == FreeOffsets(bs) - {bs[i + 1].off}
  {
    var r := MergeAt(bs, i);
    forall x | x in FreeOffsets(r)
      ensures x in FreeOffsets(bs) - {bs[i + 1].off}
    {
      var j :| 0 <= j < |r| && r[j].free && r[j].off == x;
      if j < i {
        OrderedFrom(bs, n, j, i + 1);
      } else if j == i {
      } else {
        assert r[j] == bs[j + 1];
        OrderedFrom(bs, n, i + 1, j + 1);
      }
    }
    forall x | x in FreeOffsets(bs) - {bs[i + 1].off}
      ensures x in FreeOffsets(r)
    {
      var j :| 0 <= j < |bs| && bs[j].free && bs[j].off == x;
      if j < i {
        assert r[j] == bs[j];
      } else if j == i {
        assert r[i].off == x;
      } else {
        assert r[j - 1] == bs[j];
      }
    }
  }

  lemma FreeOffsetsMark(bs: seq<Block>, n: int, i: int, f: bool)
    requires Tiled(bs, n) && 0 <= i < |bs|
    ensures FreeOffsets(Mark(bs, i, f)) == if f then FreeOffsets(bs) + {bs[i].off} else FreeOffsets(bs) - {bs[i].off}
  {
    OffsetsUnique(bs, n);
    var r := Mark(bs, i, f);
    forall x | x in FreeOffsets(r)
      ensures x in (if f then FreeOffsets(bs) + {bs[i].off} else FreeOffsets(bs) - {bs[i].off})
    {
      var j :| 0 <= j < |r| && r[j].free && r[j].off == x;
      if j != i {
        assert bs[j].free && bs[j].off == x;
      }
    }
    forall x | x in (if f then FreeOffsets(bs) + {bs[i].off} else FreeOffsets(bs) - {bs[i].off})
      ensures x in FreeOffsets(r)
    {
      if x == bs[i].off {
        assert r[i].off == x;
      } else {
        var j :| 0 <= j < |bs| && bs[j].free && bs[j].off == x;
        assert r[j] == bs[j];
      }
    }
  }

  // ---------------------------------------------------------------------
  // Looking blocks up by offset

  /** The index of the block at offset `x`, or -1. */
  function IndexOf(bs: seq<Block>, x: int): (r: int)
    ensures -1 <= r < |bs|
    ensures r >= 0 ==> bs[r].off == x
    ensures r == -1 ==> forall j :: 0 <= j < |bs| ==> bs[j].off != x
  {
    if bs == [] then -1
    else if bs[0].off == x then 0
    else
      var r := IndexOf(bs[1..], x);
      if r == -1 then -1 else r + 1
  }

  lemma IndexOfBlock(bs: seq<Block>, n: int, i: int)
    requires Tiled(bs, n) && 0 <= i < |bs|
    ensures IndexOf(bs, bs[i].off) == i
  {
    OffsetsUnique(bs, n);
  }

  /** The payload size of the block at offset `x` (0 if there is none). */
  function SpaceOf(bs: seq<Block>, x: int): int
  {
    var i := IndexOf(bs, x);
    if i == -1 then 0 else bs[i].space
  }

  /** The payload sizes of the free-list nodes `fl`, in list order. */
  function ListSpaces(bs: seq<Block>, fl: seq<int>): (r: seq<int>)
    ensures |r| == |fl|
    ensures forall k {:trigger r[k]} :: 0 <= k < |fl| ==> r[k] == SpaceOf(bs, fl[k])
  {
    if fl == [] then [] else [SpaceOf(bs, fl[0])] + ListSpaces(bs, fl[1..])
  }

  // ---------------------------------------------------------------------
  // Best fit

  /** The scan of `findHead` from position `i`, with `best` the candidate so far. */
  function Scan(sp: seq<int>, size: int, i: int, best: int): (r: int)
    requires 0 <= i <= |sp| && -1 <= best < |sp|
    ensures -1 <= r < |sp|
    decreases |sp| - i
  {
    if i == |sp| then best
    else if sp[i] == size then i
    else if sp[i] > size && (best == -1 || sp[i] < sp[best]) then Scan(sp, size, i + 1, i)
    else Scan(sp, size, i + 1, best)
  }

  /** One step of the scan past a node that is not an exact fit. */
  lemma ScanStep(sp: seq<int>, size: int, i: int, best: int)
    requires 0 <= i < |sp| && -1 <= best < |sp| && sp[i] != size
    ensures Scan(sp, size, i, best)
         == Scan(sp, size, i + 1, if sp[i] > size && (best == -1 || sp[i] < sp[best]) then i else best)
  {
  }

  /** Index into `sp` of the block `findHead` chooses, or -1 if none fits. */
  function BestFit(sp: seq<int>, size: int): (r: int)
    ensures -1 <= r < |sp|
  {
    Scan(sp, size, 0, -1)
  }

  /** `r` is the first index holding the smallest size that is at least `size`. */
  ghost predicate IsBestFit(sp: seq<int>, size: int, r: int)
  {
    && 0 <= r < |sp|
    && sp[r] >= size
    && (forall j :: 0 <= j < |sp| && sp[j] >= size ==> sp[r] <= sp[j])
    && (forall j :: 0 <= j < r ==> sp[j] < size || sp[j] > sp[r])
  }

  /** What the scan knows after looking at `sp[..i]`. */
  ghost predicate ScanState(sp: seq<int>, size: int, i: int, best: int)
    requires 0 <= i <= |sp| && -1 <= best < |sp|
  {
    && (forall j :: 0 <= j < i ==> sp[j] != size)
    && (best == -1 ==> forall j :: 0 <= j < i ==> sp[j] < size)
    && (best != -1 ==>
          && best < i && sp[best] > size
          && (forall j :: 0 <= j < i && sp[j] >= size ==> sp[best] <= sp[j])
          && (forall j :: 0 <= j < best ==> sp[j] < size || sp[j] > sp[best]))
  }

  lemma {:induction false} ScanCorrect(sp: seq<int>, size: int, i: int, best: int)
    requires 0 <= i <= |sp| && -1 <= best < |sp|
    requires ScanState(sp, size, i, best)
    ensures var r := Scan(sp, size, i, best);
      && (r == -1 <==> forall j :: 0 <= j < |sp| ==> sp[j] < size)
      && (r != -1 ==> IsBestFit(sp, size, r))
    decreases |sp| - i
  {
    if i == |sp| {
    } else if sp[i] == size {
    } else if sp[i] > size && (best == -1 || sp[i] < sp[best]) {
      ScanCorrect(sp, size, i + 1, i);
    } else {
      ScanCorrect(sp, size, i + 1, best);
    }
  }

  /** `findHead` fails iff nothing fits, and otherwise picks the first smallest fit. */
  lemma BestFitCorrect(sp: seq<int>, size: int)
    ensures BestFit(sp, size) == -1 <==> forall j :: 0 <= j < |sp| ==> sp[j] < size
    ensures BestFit(sp, size) != -1 ==> IsBestFit(sp, size, BestFit(sp, size))
  {
    ScanCorrect(sp, size, 0, -1);
  }

  /** There is only one first smallest fit. */
  lemma BestFitUnique(sp: seq<int>, size: int, r: int, r': int)
    requires IsBestFit(sp, size, r) && IsBestFit(sp, size, r')
    ensures r == r'
  {
  }
}
