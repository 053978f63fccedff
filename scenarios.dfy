/** Concrete runs of the allocator: the sequence of calls in
    myalloc/simpletest.c, and the arena in which `myrealloc` as written
    loses data when it shrinks a block. */
module Scenarios {
  import opened Bytes
  import opened Layout
  import opened Pool
  import opened MyAlloc

  // ---------------------------------------------------------------------
  // myalloc/simpletest.c

  /** What `myalloc(size)` on the pool `bs`, `fl` returns and leaves. */
  ghost predicate Allocated(bs: seq<Block>, fl: seq<int>, size: int, r: int, bs': seq<Block>, fl': seq<int>)
  {
    var b := BestFit(ListSpaces(bs, fl), size);
    && (b == -1 <==> r == NULL)
    && (b == -1 ==> bs' == bs && fl' == fl)
    && (b != -1 ==>
          var i := IndexOf(bs, fl[b]);
          && 0 <= i && r == fl[b] + TAG
          && bs' == AllocBlocks(bs, i, Clamp(size)) && fl' == AllocList(bs, i, Clamp(size), fl))
  }

  /** The bytes `[lo, hi)` of `m` all hold `c`. */
  ghost predicate Filled(m: seq<byte>, lo: int, hi: int, c: byte)
  {
    0 <= lo <= hi <= |m| && forall q :: lo <= q < hi ==> m[q] == c
  }

  /** A filled payload stays filled while the payload of its block is kept. */
  lemma KeptFilled(m: seq<byte>, m': seq<byte>, bs: seq<Block>, t: int, c: byte)
    requires PayloadsKept(m, m', bs) && 0 <= t < |bs| && !bs[t].free
    requires Filled(m, bs[t].off + TAG, Foot(bs[t]), c)
    ensures Filled(m', bs[t].off + TAG, Foot(bs[t]), c)
  {
    assert PayloadKept(m, m', bs[t]);
  }

  /** `allocate(size, fill)`: `myalloc(size)`, then fill the whole request
      with `fill`; the payloads of the blocks allocated before stay as they
      were. */
  method Allocate(al: Allocator, size: int, fill: byte) returns (block: int)
    requires al.Valid() && 0 <= size <= INT32_MAX
    modifies al, al.mem
    ensures al.Valid()
    ensures Allocated(old(al.blocks), old(al.flist), size, block, al.blocks, al.flist)
    ensures block != NULL ==>
      0 <= block && block + size <= al.size && forall q :: block <= q < block + size ==> al.mem[q] == fill
    ensures PayloadsKept(old(al.mem[..]), al.mem[..], old(al.blocks))
  {
    ghost var bs, fl, m0 := al.blocks, al.flist, al.mem[..];
    ghost var b := BestFit(ListSpaces(bs, fl), size);
    block := al.Alloc(size);
    if block == NULL {
      return;
    }
    ghost var j := IndexOf(bs, fl[b]);
    ghost var m1 := al.mem[..];
    InArena(al.blocks, al.size, j);
    BestFitChoice(bs, al.size, fl, size);
    var k := 0;
    while k < size
      invariant 0 <= k <= size && al.Valid() && al.blocks == AllocBlocks(bs, j, Clamp(size))
      invariant al.flist == AllocList(bs, j, Clamp(size), fl)
      invariant forall q :: block <= q < block + k ==> al.mem[q] == fill
      invariant SameOutside(m1, al.mem[..], block, block + size)
    {
      al.Poke(block + k, fill, j);
      k := k + 1;
    }
    InsideKeeps(m1, al.mem[..], bs, al.size, j, block, block + size);
    KeptTrans(m0, m1, al.mem[..], bs);
  }

  // The layouts and lists that the calls of simpletest.c pass through, in a
  // pool of 40000 bytes, one lemma per call.

  /** a = allocate(100, 'A') */
  lemma SimpleAllocA()
    ensures BestFit(ListSpaces([Block(0, 39992, true)], [0]), 100) == 0
    ensures IndexOf([Block(0, 39992, true)], 0) == 0
    ensures AllocBlocks([Block(0, 39992, true)], 0, 100) == [Block(0, 100, false), Block(108, 39884, true)]
    ensures AllocList([Block(0, 39992, true)], 0, 100, [0]) == [108]
  {
  }

  /** b = allocate(200, 'B') */
  lemma SimpleAllocB()
    ensures BestFit(ListSpaces([Block(0, 100, false), Block(108, 39884, true)], [108]), 200) == 0
    ensures IndexOf([Block(0, 100, false), Block(108, 39884, true)], 108) == 1
    ensures AllocBlocks([Block(0, 100, false), Block(108, 39884, true)], 1, 200)
         == [Block(0, 100, false), Block(108, 200, false), Block(316, 39676, true)]
    ensures AllocList([Block(0, 100, false), Block(108, 39884, true)], 1, 200, [108]) == [316]
  {
  }

  /** c = allocate(300, 'C') */
  lemma SimpleAllocC()
    ensures BestFit(ListSpaces([Block(0, 100, false), Block(108, 200, false), Block(316, 39676, true)], [316]), 300) == 0
    ensures IndexOf([Block(0, 100, false), Block(108, 200, false), Block(316, 39676, true)], 316) == 2
    ensures AllocBlocks([Block(0, 100, false), Block(108, 200, false), Block(316, 39676, true)], 2, 300)
         == [Block(0, 100, false), Block(108, 200, false), Block(316, 300, false), Block(624, 39368, true)]
    ensures AllocList([Block(0, 100, false), Block(108, 200, false), Block(316, 39676, true)], 2, 300, [316]) == [624]
  {
  }

  /** myfree(a) */
  lemma SimpleFreeA()
    ensures IndexOf([Block(0, 100, false), Block(108, 200, false), Block(316, 300, false), Block(624, 39368, true)], 0) == 0
    ensures FreeBlocks([Block(0, 100, false), Block(108, 200, false), Block(316, 300, false), Block(624, 39368, true)], 0)
         == [Block(0, 100, true), Block(108, 200, false), Block(316, 300, false), Block(624, 39368, true)]
    ensures FreeList([Block(0, 100, false), Block(108, 200, false), Block(316, 300, false), Block(624, 39368, true)], 0, [624])
         == [0, 624]
  {
  }

  /** allocate(100, 'A') takes the exact fit back */
  lemma SimpleAllocAgain()
    ensures BestFit(ListSpaces([Block(0, 100, true), Block(108, 200, false), Block(316, 300, false), Block(624, 39368, true)],
                               [0, 624]), 100) == 0
    ensures IndexOf([Block(0, 100, true), Block(108, 200, false), Block(316, 300, false), Block(624, 39368, true)], 0) == 0
    ensures AllocBlocks([Block(0, 100, true), Block(108, 200, false), Block(316, 300, false), Block(624, 39368, true)], 0, 100)
         == [Block(0, 100, false), Block(108, 200, false), Block(316, 300, false), Block(624, 39368, true)]
    ensures AllocList([Block(0, 100, true), Block(108, 200, false), Block(316, 300, false), Block(624, 39368, true)], 0, 100,
                      [0, 624]) == [624]
  {
  }

  /** myfree(c) merges with the free block after it */
  lemma SimpleFreeC()
    ensures IndexOf([Block(0, 100, true), Block(108, 200, false), Block(316, 300, false), Block(624, 39368, true)], 316) == 2
    ensures FreeBlocks([Block(0, 100, true), Block(108, 200, false), Block(316, 300, false), Block(624, 39368, true)], 2)
         == [Block(0, 100, true), Block(108, 200, false), Block(316, 39676, true)]
    ensures FreeList([Block(0, 100, true), Block(108, 200, false), Block(316, 300, false), Block(624, 39368, true)], 2, [0, 624])
         == [316, 0]
  {
    assert [316] + [0, 624] == [316, 0, 624];
    assert Remove([316, 0, 624], 624) == [316, 0];
  }

  /** b = myrealloc(b, 400): freeing b merges all three blocks; myalloc(400) splits the pool again */
  lemma SimpleReallocB()
    ensures IndexOf([Block(0, 100, true), Block(108, 200, false), Block(316, 39676, true)], 108) == 1
    ensures FreeBlocks([Block(0, 100, true), Block(108, 200, false), Block(316, 39676, true)], 1) == [Block(0, 39992, true)]
    ensures FreeList([Block(0, 100, true), Block(108, 200, false), Block(316, 39676, true)], 1, [316, 0]) == [0]
    ensures BestFit(ListSpaces([Block(0, 39992, true)], [0]), 400) == 0
    ensures AllocBlocks([Block(0, 39992, true)], 0, 400) == [Block(0, 400, false), Block(408, 39584, true)]
    ensures AllocList([Block(0, 39992, true)], 0, 400, [0]) == [408]
  {
  }

  /** myfree(b) */
  lemma SimpleFreeB()
    ensures IndexOf([Block(0, 400, false), Block(408, 39584, true)], 0) == 0
    ensures FreeBlocks([Block(0, 400, false), Block(408, 39584, true)], 0) == [Block(0, 39992, true)]
    ensures FreeList([Block(0, 400, false), Block(408, 39584, true)], 0, [408]) == [0]
  {
    assert [0] + [408] == [0, 408];
    assert Remove([0, 408], 408) == [0];
  }

  /** `b = myrealloc(b, 400)`: the slots of the arena that `myfree` and
      `myalloc` write to, for the layouts of `SimpleReallocB`. */
  lemma SimpleMoveSlots()
    ensures NearTags([Block(0, 100, true), Block(108, 200, false), Block(316, 39676, true)], 1)
         == [0, 104, 108, 312, 316, 39996]
    ensures TakeTags([Block(0, 39992, true)], 0, 400) == [0, 404, 408, 39996]
    ensures PushIf([Block(0, 39992, true)], 0, 400, [108] + [316, 0]) == [408, 108, 316, 0]
    ensures CopyInArena([Block(0, 100, true), Block(108, 200, false), Block(316, 39676, true)], [316, 0], 112, 400, 40000)
  {
    SimpleReallocB();
  }

  /** `myrealloc(112, 400)` as written moves the old payload down to 4.
      None of the slots written before the copy lies in bytes 4..8 or 24..200
      of the old payload, and bytes 8..24 come from the two saved words, so
      the 200 bytes 'B' all arrive. */
  lemma SimpleMoveBytes(m0: seq<byte>, mid: seq<byte>, m': seq<byte>)
    requires |m0| == 40000 && |mid| == 40000 && Filled(m0, 112, 312, 'B' as int)
    requires ChangedOnly(m0, mid, [0, 104, 108, 312, 316, 39996] + [0, 404, 408, 39996], [408, 108, 316, 0])
    requires m' == AsWrittenBytes(mid, 112, 4, 400, 400, U64At(m0, 116), U64At(m0, 124))
    ensures Filled(m', 4, 204, 'B' as int)
  {
    var ps, xs := [0, 104, 108, 312, 316, 39996] + [0, 404, 408, 39996], [408, 108, 316, 0];
    forall q | 112 <= q < 116 || 132 <= q < 312
      ensures mid[q] == m0[q]
    {
      assert !InTagSlots(ps, q) && !InLinkSlots(xs, q);
    }
    var m1 := Put(mid, 4, mid[112..116]);
    U64BytesRoundTrip(m0[116..124]);
    U64BytesRoundTrip(m0[124..132]);
    var m2 := Put(Put(m1, 8, EncodeU64(U64At(m0, 116))), 16, EncodeU64(U64At(m0, 124)));
    CopyForwardMoves(m2, 4, 112, 20, 400);
    forall q | 4 <= q < 204
      ensures m'[q] == 'B' as int
    {
      if q < 8 {
        assert m'[q] == m1[q] == mid[q + 108];
      } else if q < 16 {
        assert m'[q] == m0[116..124][q - 8];
      } else if q < 24 {
        assert m'[q] == m0[124..132][q - 16];
      } else {
        assert m'[q] == m2[q + 108] == mid[q + 108];
      }
    }
  }

  /** The first three calls of simpletest.c. */
  method SimpleAllocs(base: int, contents: seq<byte>) returns (al: Allocator, a: int, b: int, c: int)
    requires 0 < base && base + 40000 < TWO64 && |contents| == 40000
    ensures fresh(al) && fresh(al.mem) && al.Valid() && al.size == 40000
    ensures al.blocks == [Block(0, 100, false), Block(108, 200, false), Block(316, 300, false), Block(624, 39368, true)]
    ensures al.flist == [624] && a == 4 && b == 112 && c == 320
    ensures Filled(al.mem[..], 112, 312, 'B' as int)
  {
    al := new Allocator(40000, base, contents);
    SimpleAllocA();
    a := Allocate(al, 100, 'A' as int);
    assert al.blocks == [Block(0, 100, false), Block(108, 39884, true)] && al.flist == [108];
    SimpleAllocB();
    b := Allocate(al, 200, 'B' as int);
    assert al.blocks == [Block(0, 100, false), Block(108, 200, false), Block(316, 39676, true)] && al.flist == [316];
    assert Filled(al.mem[..], 112, 312, 'B' as int);
    ghost var bs, m := al.blocks, al.mem[..];
    SimpleAllocC();
    c := Allocate(al, 300, 'C' as int);
    KeptFilled(m, al.mem[..], bs, 1, 'B' as int);
  }

  /** `myfree(a)`, which has no free neighbour; `b` still holds its 'B's. */
  method SimpleFreeFirst(al: Allocator, a: int)
    requires al.Valid() && al.size == 40000 && a == 4
    requires al.blocks == [Block(0, 100, false), Block(108, 200, false), Block(316, 300, false), Block(624, 39368, true)]
    requires al.flist == [624] && Filled(al.mem[..], 112, 312, 'B' as int)
    modifies al, al.mem
    ensures al.Valid()
    ensures al.blocks == [Block(0, 100, true), Block(108, 200, false), Block(316, 300, false), Block(624, 39368, true)]
    ensures al.flist == [0, 624] && Filled(al.mem[..], 112, 312, 'B' as int)
  {
    ghost var bs, m := al.blocks, al.mem[..];
    SimpleFreeA();
    al.IsValidAccepts(0);
    var aborted := al.Free(a);
    KeptFilled(m, al.mem[..], Mark(bs, 0, true), 1, 'B' as int);
  }

  /** `myfree(a)` and `allocate(100, 'A')`, which gets the same block back:
      the pool is as it was before, and `b` still holds its 'B's. */
  method SimpleReuse(al: Allocator, a: int) returns (again: int)
    requires al.Valid() && al.size == 40000 && a == 4
    requires al.blocks == [Block(0, 100, false), Block(108, 200, false), Block(316, 300, false), Block(624, 39368, true)]
    requires al.flist == [624] && Filled(al.mem[..], 112, 312, 'B' as int)
    modifies al, al.mem
    ensures al.Valid() && again == 4
    ensures al.blocks == [Block(0, 100, false), Block(108, 200, false), Block(316, 300, false), Block(624, 39368, true)]
    ensures al.flist == [624] && Filled(al.mem[..], 112, 312, 'B' as int)
  {
    SimpleFreeFirst(al, a);
    ghost var bs, m := al.blocks, al.mem[..];
    SimpleAllocAgain();
    again := Allocate(al, 100, 'A' as int);
    KeptFilled(m, al.mem[..], bs, 1, 'B' as int);
  }

  /** `myfree(a)` and `myfree(c)`, which merges `c` with the free rest of
      the pool; `b` still holds its 'B's. */
  method SimpleFrees(al: Allocator, a: int, c: int)
    requires al.Valid() && al.size == 40000 && a == 4 && c == 320
    requires al.blocks == [Block(0, 100, false), Block(108, 200, false), Block(316, 300, false), Block(624, 39368, true)]
    requires al.flist == [624] && Filled(al.mem[..], 112, 312, 'B' as int)
    modifies al, al.mem
    ensures al.Valid()
    ensures al.blocks == [Block(0, 100, true), Block(108, 200, false), Block(316, 39676, true)]
    ensures al.flist == [316, 0] && Filled(al.mem[..], 112, 312, 'B' as int)
  {
    SimpleFreeFirst(al, a);
    ghost var bs, m := al.blocks, al.mem[..];
    SimpleFreeC();
    al.IsValidAccepts(2);
    var aborted := al.Free(c);
    KeptFilled(m, al.mem[..], Mark(bs, 2, true), 1, 'B' as int);
  }

  /** `b = myrealloc(b, 400)` as the source writes it: `b` merges with both
      free neighbours into one free block at 0, `myalloc(400)` takes its
      start, and the 200 bytes 'B' arrive at the start of the new payload. */
  method SimpleMove(al: Allocator, b: int) returns (moved: int)
    requires al.Valid() && al.size == 40000 && b == 112
    requires al.blocks == [Block(0, 100, true), Block(108, 200, false), Block(316, 39676, true)]
    requires al.flist == [316, 0] && Filled(al.mem[..], 112, 312, 'B' as int)
    modifies al, al.mem
    ensures al.Valid() && moved == 4 && Filled(al.mem[..], 4, 204, 'B' as int)
    ensures al.blocks == [Block(0, 400, false), Block(408, 39584, true)] && al.flist == [408]
  {
    ghost var m0 := al.mem[..];
    SimpleReallocB();
    SimpleMoveSlots();
    ghost var mid;
    moved, mid := al.ReallocAsWritten(b, 400);
    SimpleMoveBytes(m0, mid, al.mem[..]);
  }

  /** `b = myrealloc(b, 400)` as written and `myfree(b)`, then `checkMem()`;
      `carried` says whether the new block starts with the 200 bytes 'B'. */
  method SimpleRealloc(al: Allocator, b: int) returns (moved: int, carried: bool, total: int)
    requires al.Valid() && al.size == 40000 && b == 112
    requires al.blocks == [Block(0, 100, true), Block(108, 200, false), Block(316, 39676, true)]
    requires al.flist == [316, 0] && Filled(al.mem[..], 112, 312, 'B' as int)
    modifies al, al.mem
    ensures al.Valid() && moved == 4 && carried && total == 40000
    ensures al.blocks == [Block(0, 39992, true)] && al.flist == [0]
  {
    moved := SimpleMove(al, b);
    carried := forall q :: 4 <= q < 204 ==> al.mem[q] == 'B' as int;
    al.IsValidAccepts(0);
    SimpleFreeB();
    var aborted := al.Free(moved);
    total := al.CheckMem();
  }

  /** The calls of simpletest.c in order: every result as the model
      determines it, the 'B's of `b` carried over by `myrealloc`, and
      `checkMem()` accounting for all 40000 bytes. */
  method SimpleTest(base: int, contents: seq<byte>)
    returns (a: int, b: int, c: int, again: int, moved: int, carried: bool, total: int)
    requires 0 < base && base + 40000 < TWO64 && |contents| == 40000
    ensures a == 4 && b == 112 && c == 320 && again == 4 && moved == 4 && carried && total == 40000
  {
    var al;
    al, a, b, c := SimpleAllocs(base, contents);
    again := SimpleReuse(al, a);
    SimpleFrees(al, a, c);
    moved, carried, total := SimpleRealloc(al, b);
  }

  /** A 192-byte pool after `myalloc(20)`, `myalloc(100)` and `myalloc(48)`:
      the three blocks fill it. */
  method SmallPoolFull(base: int, contents: seq<byte>) returns (al: Allocator, x: int)
    requires 0 < base && base + 192 < TWO64 && |contents| == 192
    ensures fresh(al) && fresh(al.mem) && al.Valid() && al.size == 192 && al.base == base
    ensures al.blocks == [Block(0, 20, false), Block(28, 100, false), Block(136, 48, false)]
    ensures al.flist == [] && x == 4
  {
    al := new Allocator(192, base, contents);
    SmallPoolSteps();
    x := al.Alloc(20);
    assert al.blocks == [Block(0, 20, false), Block(28, 156, true)] && al.flist == [28];
    var y := al.Alloc(100);
    assert al.blocks == [Block(0, 20, false), Block(28, 100, false), Block(136, 48, true)] && al.flist == [136];
    var z := al.Alloc(48);
  }

  /** The pool of `SmallPoolFull` after `myfree` of its first block: a free
      20-byte block, then allocated blocks of 100 and 48 bytes. */
  method SmallPool(base: int, contents: seq<byte>) returns (al: Allocator)
    requires 0 < base && base + 192 < TWO64 && |contents| == 192
    ensures fresh(al) && fresh(al.mem) && al.Valid() && al.size == 192 && al.base == base
    ensures al.blocks == [Block(0, 20, true), Block(28, 100, false), Block(136, 48, false)]
    ensures al.flist == [0]
  {
    var x;
    al, x := SmallPoolFull(base, contents);
    SmallPoolSteps();
    al.IsValidAccepts(0);
    var _ := al.Free(x);
  }

  /** The layouts and lists `SmallPool` passes through. */
  lemma SmallPoolSteps()
    ensures BestFit(ListSpaces([Block(0, 184, true)], [0]), 20) == 0
    ensures IndexOf([Block(0, 184, true)], 0) == 0
    ensures AllocBlocks([Block(0, 184, true)], 0, 20) == [Block(0, 20, false), Block(28, 156, true)]
    ensures AllocList([Block(0, 184, true)], 0, 20, [0]) == [28]
    ensures BestFit(ListSpaces([Block(0, 20, false), Block(28, 156, true)], [28]), 100) == 0
    ensures IndexOf([Block(0, 20, false), Block(28, 156, true)], 28) == 1
    ensures AllocBlocks([Block(0, 20, false), Block(28, 156, true)], 1, 100)
         == [Block(0, 20, false), Block(28, 100, false), Block(136, 48, true)]
    ensures AllocList([Block(0, 20, false), Block(28, 156, true)], 1, 100, [28]) == [136]
    ensures BestFit(ListSpaces([Block(0, 20, false), Block(28, 100, false), Block(136, 48, true)], [136]), 48) == 0
    ensures IndexOf([Block(0, 20, false), Block(28, 100, false), Block(136, 48, true)], 136) == 2
    ensures AllocBlocks([Block(0, 20, false), Block(28, 100, false), Block(136, 48, true)], 2, 48)
         == [Block(0, 20, false), Block(28, 100, false), Block(136, 48, false)]
    ensures AllocList([Block(0, 20, false), Block(28, 100, false), Block(136, 48, true)], 2, 48, [136]) == []
    ensures IndexOf([Block(0, 20, false), Block(28, 100, false), Block(136, 48, false)], 0) == 0
    ensures FreeBlocks([Block(0, 20, false), Block(28, 100, false), Block(136, 48, false)], 0)
         == [Block(0, 20, true), Block(28, 100, false), Block(136, 48, false)]
    ensures FreeList([Block(0, 20, false), Block(28, 100, false), Block(136, 48, false)], 0, []) == [0]
  {
  }

  /** The reallocation that `SmallPool` sets up: block 28 (payload 32)
      merges with the free block before it, and `myalloc(40)` splits the
      merged block, leaving a free remainder node at 48. */
  lemma ShrinkSteps()
    ensures IndexOf([Block(0, 20, true), Block(28, 100, false), Block(136, 48, false)], 28) == 1
    ensures FreeBlocks([Block(0, 20, true), Block(28, 100, false), Block(136, 48, false)], 1)
         == [Block(0, 128, true), Block(136, 48, false)]
    ensures FreeList([Block(0, 20, true), Block(28, 100, false), Block(136, 48, false)], 1, [0]) == [0]
    ensures BestFit(ListSpaces([Block(0, 128, true), Block(136, 48, false)], [0]), 40) == 0
    ensures IndexOf([Block(0, 128, true), Block(136, 48, false)], 0) == 0
    ensures AllocBlocks([Block(0, 128, true), Block(136, 48, false)], 0, 40)
         == [Block(0, 40, false), Block(48, 80, true), Block(136, 48, false)]
    ensures AllocList([Block(0, 128, true), Block(136, 48, false)], 0, 40, [0]) == [48]
    ensures CopyInArena([Block(0, 20, true), Block(28, 100, false), Block(136, 48, false)], [0], 32, 40, 192)
  {
  }

  /** `SmallPool` with 66 stored at byte 24 of the payload at 32. */
  method ShrinkSetup(base: int, contents: seq<byte>) returns (al: Allocator)
    requires 0 < base && base + 192 < TWO64 && |contents| == 192
    ensures fresh(al) && fresh(al.mem) && al.Valid() && al.size == 192 && al.base == base
    ensures al.blocks == [Block(0, 20, true), Block(28, 100, false), Block(136, 48, false)]
    ensures al.flist == [0] && al.mem[56] == 66
  {
    al := SmallPool(base, contents);
    al.Poke(56, 66, 1);
  }

  /** After `myalloc` left the single free node at 48, its `next` link is
      NULL, so byte 56 of the arena is 0, and the as-written copy moves that
      byte to 28. */
  lemma ShrinkRead(m0: seq<byte>, mid: seq<byte>, m': seq<byte>, base: int, bs: seq<Block>, head: int)
    requires |m0| == 192 && State(mid, base, 192, bs, [48], head)
    requires m' == AsWrittenBytes(mid, 32, 4, 40, 40, U64At(m0, 36), U64At(m0, 44))
    ensures m'[28] == 0
  {
    assert NodeOK(mid, base, [48], 0);
    U64ZeroBytes(mid[56..64]);
    assert mid[56] == mid[56..64][0];
    AsWrittenCopiesArena(mid, 32, 4, 40, 40, U64At(m0, 36), U64At(m0, 44));
  }

  /** `myrealloc(p, 40)` as written on a block of 100 bytes whose byte 24
      holds 66: the byte that arrives at byte 24 of the new block is a byte
      of the free-list node `myalloc` left at 48, not the 66. */
  method ShrinkAsWritten(base: int, contents: seq<byte>) returns (moved: byte)
    requires 0 < base && base + 192 < TWO64 && |contents| == 192
    ensures moved == 0
  {
    var al := ShrinkSetup(base, contents);
    ghost var m0 := al.mem[..];
    ShrinkSteps();
    var r, mid := al.ReallocAsWritten(32, 40);
    assert r == 4 && al.flist == [48];
    ShrinkRead(m0, mid, al.mem[..], base, al.blocks, al.freeList);
    moved := al.mem[28];
  }

  /** The same call to the corrected `myrealloc`: the 66 arrives. */
  method ShrinkCorrected(base: int, contents: seq<byte>) returns (moved: byte)
    requires 0 < base && base + 192 < TWO64 && |contents| == 192
    ensures moved == 66
  {
    var al := ShrinkSetup(base, contents);
    ghost var m0 := al.mem[..];
    ShrinkSteps();
    var r := al.Realloc(32, 40);
    assert r == 4;
    assert al.mem[..][4..44] == m0[32..72];
    assert al.mem[..][4..44][24] == al.mem[28];
    moved := al.mem[28];
  }


  /** A 136-byte pool with a free block of 100 bytes and an allocated one of
      20 after it, and `myrealloc(112, 100)`: freeing merges the two into one
      free block of 128 bytes, `myalloc(100)` takes all of it, and the copy
      loop of `myrealloc` as written runs to byte 100 of the old payload,
      which ends 76 bytes past the arena. */
  lemma CopyOverrun()
    ensures var bs := [Block(0, 100, true), Block(108, 20, false)];
      && Inv(bs, [0], 136) && IndexOf(bs, 108) == 1 && !bs[1].free
      && FreeBlocks(bs, 1) == [Block(0, 128, true)]
      && AllocBlocks(FreeBlocks(bs, 1), 0, 100) == [Block(0, 128, false)]
      && 112 + Min(128, 100) == 136 + 76
      && !CopyInArena(bs, [0], 112, 100, 136)
  {
    var bs := [Block(0, 100, true), Block(108, 20, false)];
    assert Elems([0]) == {0};
    assert FreeOffsets(bs) == {0} by {
      assert bs[0].free && bs[0].off == 0;
      forall x | x in FreeOffsets(bs)
        ensures x == 0
      {
        var i :| 0 <= i < |bs| && bs[i].free && bs[i].off == x;
        assert i == 0;
      }
    }
    var fb := FreeBlocks(bs, 1);
    assert fb == [Block(0, 128, true)];
    assert ListSpaces(fb, [0]) == [128] && BestFit([128], 100) == 0 && IndexOf(fb, 0) == 0;
    assert AllocBlocks(fb, 0, 100)[0].space == 128;
  }

}
