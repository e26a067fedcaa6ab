/** The small-memory heap as a specification: what one call does to the block chain, and what
    follows for any run of calls. Offsets count 4-byte words; the sizes callers ask for count bytes. */
module SmallHeap {
  import opened Option
  import opened BlockChain
  import opened Sizes

  const HDR: nat := 3             // words in an item header: pool_ptr, next, prev
  const MIN_WORDS: nat := 3       // MIN_SIZE_ALIGNED
  /** The words a block must offer for a request of `size` bytes. */
  function Need(size: nat): nat {
    Larger(AlignedWords(size), MIN_WORDS)
  }

  /** `total` is mem_size_aligned in words; the closing header sits at `total + HDR`. */
  datatype Heap = Heap(chain: Chain, total: nat, max: int) {
    function Used(): int {
      BlockChain.Total(UsedExtent, chain)
    }
  }

  ghost predicate Inv(h: Heap) {
    && WellFormed(h.chain, HDR) && NoTwoFree(h.chain)
    && h.chain[0].off == 0 && h.chain[|h.chain| - 1].off == h.total + HDR
    && MIN_WORDS <= h.total && 4 * (h.total + 2 * HDR) < SIZE_SPAN
    && 0 <= h.Used() <= h.max
  }

  function Empty(total: nat): Heap {
    Heap([Block(0, false), Block(total + HDR, true)], total, 0)
  }

  /** What an allocation of `need` words gives of a block of `size`: the words, or all when what is left
      over is less than a header and the minimum. */
  function GivenOf(size: int, need: nat): int {
    if size >= need + HDR + MIN_WORDS then need else size
  }

  /** The block an allocation takes: the lowest one that fits, or the closing block. */
  function Chosen(h: Heap, size: nat): nat
    requires h.chain != []
  {
    if size == 0 || AlignedWords(size) > h.total then |h.chain| - 1
    else FirstFit(h.chain, HDR, Need(size), 0)
  }

  /** Uses block `i` for `need` words. */
  function Take(h: Heap, need: nat, i: nat): Heap
    requires i + 1 < |h.chain|
  {
    var c := Occupy(h.chain, HDR, MIN_WORDS, need, i);
    Heap(c, h.total, Larger(h.max, Total(UsedExtent, c)))
  }

  function Alloc(h: Heap, size: nat): (Heap, Option<nat>)
    requires h.chain != []
  {
    var i := Chosen(h, size);
    if i == |h.chain| - 1 then (h, None)
    else (Take(h, Need(size), i), Some(h.chain[i].off + HDR))
  }

  function Free(h: Heap, p: Option<nat>): Heap {
    if p.None? || BlockAt(h.chain, HDR, p.value) + 1 >= |h.chain| then h
    else h.(chain := Release(h.chain, BlockAt(h.chain, HDR, p.value)))
  }

  /** Realloc has to find a new block: the old one neither has the size nor can be cut to it. */
  predicate Moves(h: Heap, p: nat, words: nat) {
    SizeAt(h.chain, HDR, p) != words && words + HDR + MIN_WORDS >= SizeAt(h.chain, HDR, p)
  }

  function Stay(h: Heap, p: nat, words: nat): Heap {
    if SizeAt(h.chain, HDR, p) == words || BlockAt(h.chain, HDR, p) + 1 >= |h.chain| then h
    else h.(chain := Shrink(h.chain, BlockAt(h.chain, HDR, p), p + words))
  }

  function Move(h: Heap, p: nat, words: nat): (Heap, Option<nat>)
    requires h.chain != []
  {
    var (h1, r) := Alloc(h, 4 * words);
    (if r.Some? then Free(h1, Some(p)) else h, r)
  }

  function Realloc(h: Heap, p: Option<nat>, size: nat): (Heap, Option<nat>)
    requires h.chain != []
  {
    var words := AlignedWords(size);
    if words > h.total then (h, None)
    else if words == 0 then (Free(h, p), None)
    else if p.None? then Alloc(h, 4 * words)
    else if Moves(h, p.value, words) then Move(h, p.value, words)
    else (Stay(h, p.value, words), p)
  }

  /** The last offset, in bytes, at which the scan of an allocation looks: `total - need` on 32-bit sizes. */
  function LastLooked(total: nat, size: nat): int {
    (4 * total - 4 * Need(size)) % SIZE_SPAN
  }

  /** Why a heap needs MIN_WORDS data words: the scan stops at heap_end for every request that the tests
      before it let through, those that round to zero included, exactly when it has them. */
  lemma ScanStopsIff(total: nat)
    requires 4 * (total + 2 * HDR) < SIZE_SPAN
    ensures (forall size: nat :: 0 < size && AlignedWords(size) <= total ==> LastLooked(total, size) < 4 * (total + HDR))
            <==> MIN_WORDS <= total
  {
    if total < MIN_WORDS {
      var size := SIZE_SPAN - 1;
      assert (size + 3) % SIZE_SPAN == 2 && AlignedWords(size) == 0;
      assert LastLooked(total, size) == 4 * total - 12 + SIZE_SPAN;
    }
  }

  /** Where `k` steps along the next words lead. */
  function Followed(w: seq<int>, at: int, k: nat): int
    decreases k
  {
    if k == 0 || at < 0 || at + 1 >= |w| then at else Followed(w, w[at + 1], k - 1)
  }

  /** Below that size no request whatever is ended at heap_end, whose next is itself: a scan that gets
      there looks at it for ever. */
  lemma {:induction false} ScanStuck(w: seq<int>, total: nat, size: nat, k: nat)
    requires total < MIN_WORDS && total + HDR + 1 < |w| && w[total + HDR + 1] == total + HDR
    requires 0 < size && AlignedWords(size) <= total
    decreases k
    ensures Followed(w, total + HDR, k) == total + HDR && 4 * (total + HDR) <= LastLooked(total, size)
  {
    assert LastLooked(total, size) == 4 * total - 12 + SIZE_SPAN;
    if k > 0 {
      ScanStuck(w, total, size, k - 1);
    }
  }

  // ---------- one call ----------

  lemma AllocKeeps(h: Heap, size: nat)
    requires Inv(h)
    ensures Inv(Alloc(h, size).0) && Alloc(h, size).0.total == h.total
  {
    if Chosen(h, size) < |h.chain| - 1 {
      TakeKeeps(h, Need(size), Chosen(h, size));
    }
  }

  lemma TakeKeeps(h: Heap, need: nat, i: nat)
    requires Inv(h) && 0 < need && Fits(h.chain, HDR, need, i)
    ensures Inv(Take(h, need, i)) && Take(h, need, i).total == h.total
  {
    OccupyKeeps(h.chain, HDR, MIN_WORDS, need, i);
    OccupyTotal(h.chain, HDR, MIN_WORDS, need, i);
  }

  lemma InvFromParts(h: Heap, k: Heap)
    requires Inv(h) && k.total == h.total && SameEnds(h.chain, k.chain)
    requires WellFormed(k.chain, HDR) && NoTwoFree(k.chain) && 0 <= k.Used() <= k.max
    ensures Inv(k)
  {}

  lemma ReleaseKeepsHeap(c: Chain, i: nat)
    requires WellFormed(c, HDR) && NoTwoFree(c) && i + 1 < |c| && c[i].used
    ensures WellFormed(Release(c, i), HDR) && NoTwoFree(Release(c, i)) && SameEnds(c, Release(c, i))
    ensures 0 <= Total(UsedExtent, Release(c, i)) == Total(UsedExtent, c) - (c[i + 1].off - c[i].off)
  {
    ReleaseKeeps(c, HDR, i);
    ReleaseTotal(c, HDR, i);
    NothingUsedOneBlock(Release(c, i), HDR);
  }

  lemma FreeKeeps(h: Heap, p: Option<nat>)
    requires Inv(h) && Pointer(h.chain, HDR, p)
    ensures Inv(Free(h, p)) && Free(h, p).total == h.total && Free(h, p).max == h.max
    ensures p.Some? ==> Free(h, p).Used() == h.Used() - (SizeAt(h.chain, HDR, p.value) + HDR)
  {
    hide Release;
    if p.Some? {
      var c, i := h.chain, BlockAt(h.chain, HDR, p.value);
      PointerBlock(c, HDR, p.value);
      assert Room(c, HDR, i);
      ReleaseKeepsHeap(c, i);
      InvFromParts(h, Free(h, p));
    }
  }

  /** Allocation is complete and lowest-first: it fails exactly when the request is zero, exceeds
      the heap, or no free block fits; otherwise it hands out the lowest block that fits, as one
      new extent, disjoint from every extent already held, and disturbs none of those. */
  lemma AllocMeaning(h: Heap, size: nat)
    requires Inv(h)
    ensures Alloc(h, size).1.None? <==>
            size == 0 || AlignedWords(size) > h.total || forall i :: !Fits(h.chain, HDR, Need(size), i)
    ensures Alloc(h, size).1.None? ==> Alloc(h, size).0 == h
    ensures Alloc(h, size).1.Some? ==>
              var i := Chosen(h, size);
              && Fits(h.chain, HDR, Need(size), i)
              && (forall j :: 0 <= j < i ==> !Fits(h.chain, HDR, Need(size), j))
              && Alloc(h, size).1.value == h.chain[i].off + HDR
              && NewExtent(h, Alloc(h, size).0, Extent(h.chain[i].off + HDR, Alloc(h, size).0.chain[i + 1].off), Need(size))
              && Alloc(h, size).0.chain[i + 1].off - h.chain[i].off - HDR == GivenOf(h.chain[i + 1].off - h.chain[i].off - HDR, Need(size))
  {
    var i := Chosen(h, size);
    if i < |h.chain| - 1 {
      TakenIsNew(h, Need(size), i);
    }
  }

  /** `k` holds what `h` held and the new extent `e` of at least `need` words. */
  ghost predicate NewExtent(h: Heap, k: Heap, e: Extent, need: nat) {
    && e.from + need <= e.to <= h.total + HDR && !Holds(h.chain, HDR, e)
    && (forall x :: Holds(k.chain, HDR, x) <==> x == e || Holds(h.chain, HDR, x))
    && k.Used() == h.Used() + (e.to - e.from + HDR) && k.max == Larger(h.max, k.Used())
  }

  lemma TakenIsNew(h: Heap, need: nat, i: nat)
    requires Inv(h) && 0 < need && Fits(h.chain, HDR, need, i)
    ensures var k := Take(h, need, i);
            i + 1 < |k.chain| && NewExtent(h, k, Extent(h.chain[i].off + HDR, k.chain[i + 1].off), need)
  {
    OccupyKeeps(h.chain, HDR, MIN_WORDS, need, i);
    OccupyTotal(h.chain, HDR, MIN_WORDS, need, i);
    AllIncreasing(h.chain, HDR);
    var d := Occupy(h.chain, HDR, MIN_WORDS, need, i);
    var e := Extent(h.chain[i].off + HDR, d[i + 1].off);
    forall x ensures Holds(d, HDR, x) <==> x == e || Holds(h.chain, HDR, x) {
      OccupyHolds(h.chain, HDR, MIN_WORDS, need, i, x);
    }
    OccupyHolds(h.chain, HDR, MIN_WORDS, need, i, e);
  }

  /** The caller gets the bytes it asked for exactly when rounding the size up did not wrap. */
  lemma AllocGivesAskedBytes(h: Heap, size: nat)
    requires Inv(h) && size < SIZE_SPAN && Alloc(h, size).1.Some?
    ensures var p := Alloc(h, size).1.value;
            4 * SizeAt(Alloc(h, size).0.chain, HDR, p) >= size <==> size <= SIZE_SPAN - 4
  {
    AllocKeeps(h, size);
    var i := Chosen(h, size);
    var d := Alloc(h, size).0.chain;
    OccupyKeeps(h.chain, HDR, MIN_WORDS, Need(size), i);
    IndexOfHeader(d, HDR, i);
    AllIncreasing(d, HDR);
    if size > SIZE_SPAN - 4 {
      assert (size + 3) % SIZE_SPAN == size + 3 - SIZE_SPAN;
    } else {
      assert (size + 3) % SIZE_SPAN == size + 3;
    }
  }

  /** The block given is never more than a header and the minimum larger than it must be. */
  lemma AllocGivesLittleMore(h: Heap, size: nat)
    requires Inv(h) && Alloc(h, size).1.Some?
    ensures SizeAt(Alloc(h, size).0.chain, HDR, Alloc(h, size).1.value) < Need(size) + HDR + MIN_WORDS
  {
    AllocKeeps(h, size);
    var i := Chosen(h, size);
    OccupyKeeps(h.chain, HDR, MIN_WORDS, Need(size), i);
    IndexOfHeader(Alloc(h, size).0.chain, HDR, i);
  }

  /** Freeing removes exactly the extent it is given. */
  lemma FreeMeaning(h: Heap, p: nat, x: Extent)
    requires Inv(h) && Pointer(h.chain, HDR, Some(p))
    ensures Holds(Free(h, Some(p)).chain, HDR, x) <==> Holds(h.chain, HDR, x) && x.from != p
  {
    ReleaseMeaning(h.chain, HDR, p, x);
  }

  /** Freeing a block straight after allocating it restores the chain, split or not. */
  lemma FreeUndoesAlloc(h: Heap, size: nat)
    requires Inv(h)
    ensures Free(Alloc(h, size).0, Alloc(h, size).1).chain == h.chain
  {
    var i := Chosen(h, size);
    if i < |h.chain| - 1 {
      OccupyKeeps(h.chain, HDR, MIN_WORDS, Need(size), i);
      IndexOfHeader(Alloc(h, size).0.chain, HDR, i);
      ReleaseUndoesOccupy(h.chain, HDR, MIN_WORDS, Need(size), i);
    }
  }

  /** A pointer stays valid across an allocation, with the same size. */
  lemma PointerSurvivesAlloc(h: Heap, size: nat, p: nat)
    requires Inv(h) && Pointer(h.chain, HDR, Some(p))
    ensures Pointer(Alloc(h, size).0.chain, HDR, Some(p)) && SizeAt(Alloc(h, size).0.chain, HDR, p) == SizeAt(h.chain, HDR, p)
    ensures Alloc(h, size).1 != Some(p)
  {
    hide Occupy;
    PointerBlock(h.chain, HDR, p);
    AllocKeeps(h, size);
    AllocMeaning(h, size);
    assert Alloc(h, size).1 != Some(p) by {
      IndexOfHeader(h.chain, HDR, Chosen(h, size));
    }
    var e := Extent(p, h.chain[BlockAt(h.chain, HDR, p) + 1].off);
    assert Holds(h.chain, HDR, e);
    var k := Alloc(h, size).0;
    assert Holds(k.chain, HDR, e);
    var i :| Owns(k.chain, HDR, e, i);
    IndexOfHeader(k.chain, HDR, i);
  }

  lemma MoveKeeps(h: Heap, p: nat, words: nat)
    requires Inv(h) && Pointer(h.chain, HDR, Some(p))
    ensures Inv(Move(h, p, words).0) && Move(h, p, words).0.total == h.total
    ensures Move(h, p, words).0.max == Larger(h.max, Alloc(h, 4 * words).0.Used())
  {
    AllocKeeps(h, 4 * words);
    AllocMeaning(h, 4 * words);
    PointerSurvivesAlloc(h, 4 * words, p);
    FreeKeeps(Alloc(h, 4 * words).0, Some(p));
  }

  lemma StayKeeps(h: Heap, p: nat, words: nat)
    requires Inv(h) && Pointer(h.chain, HDR, Some(p)) && 0 < words && !Moves(h, p, words)
    ensures Inv(Stay(h, p, words)) && Stay(h, p, words).total == h.total && Stay(h, p, words).max == h.max
    ensures Stay(h, p, words).Used() == h.Used() - (SizeAt(h.chain, HDR, p) - words)
  {
    PointerBlock(h.chain, HDR, p);
    if SizeAt(h.chain, HDR, p) != words {
      CutKeeps(h, BlockAt(h.chain, HDR, p), p, words, Stay(h, p, words));
    }
  }

  lemma CutKeeps(h: Heap, i: nat, p: nat, words: nat, k: Heap)
    requires Inv(h) && i + 1 < |h.chain| && h.chain[i].used && p == h.chain[i].off + HDR
    requires 0 < words && p + words + HDR < h.chain[i + 1].off && k == h.(chain := Shrink(h.chain, i, p + words))
    ensures Inv(k) && k.Used() == h.Used() - (h.chain[i + 1].off - p - words)
  {
    ShrinkKeepsHeap(h.chain, i, p + words);
    InvFromParts(h, k);
  }

  lemma ShrinkKeepsHeap(c: Chain, i: nat, at: nat)
    requires WellFormed(c, HDR) && NoTwoFree(c) && i + 1 < |c| && c[i].used
    requires c[i].off + HDR < at && at + HDR < c[i + 1].off
    ensures WellFormed(Shrink(c, i, at), HDR) && NoTwoFree(Shrink(c, i, at)) && SameEnds(c, Shrink(c, i, at))
    ensures 0 <= Total(UsedExtent, Shrink(c, i, at)) == Total(UsedExtent, c) - (c[i + 1].off - at)
  {
    ShrinkKeeps(c, HDR, i, at);
    ShrinkTotal(c, HDR, i, at);
    NothingUsedOneBlock(Shrink(c, i, at), HDR);
  }

  lemma AllocHasBlock(h: Heap, size: nat)
    requires Inv(h) && Alloc(h, size).1.Some?
    ensures HasBlock(Alloc(h, size).0.chain, HDR, Alloc(h, size).1.value, Need(size))
  {
    AllocMeaning(h, size);
  }

  /** After allocating `need` words for a move, both blocks have the words to copy. */
  lemma MoveReady(h: Heap, p: nat, need: nat)
    requires Inv(h) && Pointer(h.chain, HDR, Some(p)) && 0 < 4 * need < SIZE_SPAN && Alloc(h, 4 * need).1.Some?
    ensures var (k, r) := Alloc(h, 4 * need);
            && Inv(k) && Pointer(k.chain, HDR, Some(p)) && r != Some(p)
            && HasBlock(k.chain, HDR, p, SmallerOf(SizeAt(h.chain, HDR, p), need)) && HasBlock(k.chain, HDR, r.value, SmallerOf(SizeAt(h.chain, HDR, p), need))
  {
    var (k, r) := Alloc(h, 4 * need);
    AllocKeeps(h, 4 * need);
    PointerSurvivesAlloc(h, 4 * need, p);
    AllocHasBlock(h, 4 * need);
    AlignedFour(need);
    HasLess(k.chain, HDR, r.value, Need(4 * need), need);
    BothHave(k.chain, p, r.value, SizeAt(h.chain, HDR, p), need);
  }

  lemma AlignedFour(need: nat)
    requires 4 * need < SIZE_SPAN
    ensures AlignedWords(4 * need) == need <= Need(4 * need)
  {}

  lemma BothHave(c: Chain, p: nat, r: nat, size: int, need: nat)
    requires WellFormed(c, HDR) && Pointer(c, HDR, Some(p)) && SizeAt(c, HDR, p) == size && HasBlock(c, HDR, r, need)
    ensures HasBlock(c, HDR, p, SmallerOf(size, need)) && HasBlock(c, HDR, r, SmallerOf(size, need))
  {
    PointerHasBlock(c, HDR, p);
    HasLess(c, HDR, p, size, SmallerOf(size, need));
    HasLess(c, HDR, r, need, SmallerOf(size, need));
  }

  lemma RoundsUp(size: nat)
    requires 0 < size < SIZE_SPAN
    ensures AlignedWords(size) == 0 <==> size > SIZE_SPAN - 4
    ensures size <= SIZE_SPAN - 4 ==> size <= 4 * AlignedWords(size) < size + 4
  {}

  /** What realloc of a block promises. Null leaves the heap alone exactly when the size is not zero and
      rounding it up does not wrap; for the other sizes the block is freed. For these, the block stays
      exactly when it has the words asked for or more than a header and the minimum over, and then has
      just those words; null comes exactly when the size exceeds the heap, or the block does not stay and
      no free block fits; and no block but the old and the new one changes. */
  lemma ReallocMeaning(h: Heap, p: nat, size: nat)
    requires Inv(h) && Pointer(h.chain, HDR, Some(p)) && size < SIZE_SPAN
    ensures var (k, r) := Realloc(h, Some(p), size);
            (r.None? ==> k == h) <==> 0 < size <= SIZE_SPAN - 4
    ensures size == 0 || size > SIZE_SPAN - 4 ==>
              Realloc(h, Some(p), size) == (Free(h, Some(p)), None) && !Pointer(Free(h, Some(p)).chain, HDR, Some(p))
    ensures 0 < size <= SIZE_SPAN - 4 ==>
              var words, had := AlignedWords(size), SizeAt(h.chain, HDR, p);
              var stays := had == words || words + HDR + MIN_WORDS < had;
              var (k, r) := Realloc(h, Some(p), size);
              && size <= 4 * words < size + 4
              && (r == Some(p) <==> stays)
              && (r.None? <==> words > h.total || (!stays && forall i :: !Fits(h.chain, HDR, Larger(words, MIN_WORDS), i)))
              && (r == Some(p) ==> SizeAt(k.chain, HDR, p) == words)
              && (r.Some? && r != Some(p) ==>
                    !Pointer(k.chain, HDR, Some(p)) && SizeAt(k.chain, HDR, r.value) < Larger(words, MIN_WORDS) + HDR + MIN_WORDS)
              && (r.Some? ==> HasBlock(k.chain, HDR, r.value, words) && OnlyChanges(h.chain, k.chain, HDR, p, r.value))
  {
    if size == 0 {
      FreeTakesAway(h, p);
    } else {
      RoundsUp(size);
      if size > SIZE_SPAN - 4 {
        FreeTakesAway(h, p);
      } else {
        ReallocRounded(h, p, size);
      }
    }
  }

  /** A null pointer: realloc allocates, but a size that rounds to zero gives nothing. */
  lemma ReallocOfNull(h: Heap, size: nat)
    requires Inv(h) && size < SIZE_SPAN
    ensures Realloc(h, None, size) == if size <= SIZE_SPAN - 4 then Alloc(h, size) else (h, None)
  {
    if 0 < size {
      RoundsUp(size);
      AlignedFour(AlignedWords(size));
    }
  }

  lemma FreeTakesAway(h: Heap, p: nat)
    requires Inv(h) && Pointer(h.chain, HDR, Some(p))
    ensures !Pointer(Free(h, Some(p)).chain, HDR, Some(p)) && Free(h, Some(p)) != h
  {
    forall x ensures Holds(Free(h, Some(p)).chain, HDR, x) <==> Holds(h.chain, HDR, x) && x.from != p {
      FreeMeaning(h, p, x);
    }
  }

  /** A block has no more words than the heap. */
  lemma SizeBelow(h: Heap, p: nat)
    requires Inv(h) && Pointer(h.chain, HDR, Some(p))
    ensures 0 < SizeAt(h.chain, HDR, p) <= h.total
  {
    var i := BlockAt(h.chain, HDR, p);
    PointerBlock(h.chain, HDR, p);
    AllIncreasing(h.chain, HDR);
  }

  lemma ReallocRounded(h: Heap, p: nat, size: nat)
    requires Inv(h) && Pointer(h.chain, HDR, Some(p)) && AlignedWords(size) > 0
    ensures var words, had := AlignedWords(size), SizeAt(h.chain, HDR, p);
            var stays := had == words || words + HDR + MIN_WORDS < had;
            var (k, r) := Realloc(h, Some(p), size);
            && (r.None? ==> k == h)
            && (r == Some(p) <==> stays)
            && (r.None? <==> words > h.total || (!stays && forall i :: !Fits(h.chain, HDR, Larger(words, MIN_WORDS), i)))
            && (r == Some(p) ==> SizeAt(k.chain, HDR, p) == words)
            && (r.Some? && r != Some(p) ==>
                  !Pointer(k.chain, HDR, Some(p)) && SizeAt(k.chain, HDR, r.value) < Larger(words, MIN_WORDS) + HDR + MIN_WORDS)
            && (r.Some? ==> HasBlock(k.chain, HDR, r.value, words) && OnlyChanges(h.chain, k.chain, HDR, p, r.value))
  {
    var words := AlignedWords(size);
    SizeBelow(h, p);
    if words <= h.total {
      if Moves(h, p, words) {
        AlignedFour(words);
        AllocMeaning(h, 4 * words);
        if Alloc(h, 4 * words).1.Some? {
          MoveMeaning(h, p, words);
        }
      } else {
        StayMeaning(h, p, words);
      }
    }
  }

  /** A realloc of any block to 0xFFFF_FFFD bytes returns null and the block is gone. */
  lemma HugeReallocFrees(h: Heap, p: nat)
    requires Inv(h) && Pointer(h.chain, HDR, Some(p))
    ensures Realloc(h, Some(p), 0xFFFF_FFFD).1 == None
    ensures !Pointer(Realloc(h, Some(p), 0xFFFF_FFFD).0.chain, HDR, Some(p))
  {
    ReallocMeaning(h, p, 0xFFFF_FFFD);
  }

  lemma MoveMeaning(h: Heap, p: nat, words: nat)
    requires Inv(h) && Pointer(h.chain, HDR, Some(p)) && 0 < 4 * words < SIZE_SPAN && Alloc(h, 4 * words).1.Some?
    ensures var (k, r) := Move(h, p, words);
            && r.Some? && r != Some(p) && !Pointer(k.chain, HDR, Some(p))
            && SizeAt(k.chain, HDR, r.value) < Larger(words, MIN_WORDS) + HDR + MIN_WORDS
            && HasBlock(k.chain, HDR, r.value, words) && OnlyChanges(h.chain, k.chain, HDR, p, r.value)
  {
    var (h1, r) := Alloc(h, 4 * words);
    var end := h1.chain[Chosen(h, 4 * words) + 1].off;
    AlignedFour(words);
    AllocKeeps(h, 4 * words);
    assert NewExtent(h, h1, Extent(r.value, end), words) && end - r.value < Need(4 * words) + HDR + MIN_WORDS by {
      AllocMeaning(h, 4 * words);
    }
    PointerSurvivesAlloc(h, 4 * words, p);
    FreeKeeps(h1, Some(p));
    MoveHolds(h, h1, p, r.value, words, end);
    SizeOfHeld(Free(h1, Some(p)).chain, HDR, Extent(r.value, end));
  }

  lemma MoveHolds(h: Heap, h1: Heap, p: nat, r: nat, words: nat, end: nat)
    requires Inv(h1) && Pointer(h1.chain, HDR, Some(p)) && r != p && NewExtent(h, h1, Extent(r, end), words)
    ensures var k := Free(h1, Some(p));
            && !Pointer(k.chain, HDR, Some(p)) && Holds(k.chain, HDR, Extent(r, end))
            && HasBlock(k.chain, HDR, r, words) && OnlyChanges(h.chain, k.chain, HDR, p, r)
  {
    var k := Free(h1, Some(p));
    forall x ensures Holds(k.chain, HDR, x) <==> Holds(h1.chain, HDR, x) && x.from != p {
      FreeMeaning(h1, p, x);
    }
    assert Holds(k.chain, HDR, Extent(r, end));
  }

  lemma StayMeaning(h: Heap, p: nat, words: nat)
    requires Inv(h) && Pointer(h.chain, HDR, Some(p)) && 0 < words && !Moves(h, p, words)
    ensures var k := Stay(h, p, words);
            && HasBlock(k.chain, HDR, p, words) && Pointer(k.chain, HDR, Some(p)) && OnlyChanges(h.chain, k.chain, HDR, p, p)
            && SizeAt(k.chain, HDR, p) == words
  {
    hide Shrink;
    PointerHasBlock(h.chain, HDR, p);
    if SizeAt(h.chain, HDR, p) != words {
      PointerBlock(h.chain, HDR, p);
      ShrinkMeaning(h.chain, HDR, p, words, Stay(h, p, words).chain);
      StayKeeps(h, p, words);
      SizeOfHeld(Stay(h, p, words).chain, HDR, Extent(p, p + words));
    }
  }

  // ---------- any run of calls ----------

  datatype Call = AllocCall(size: nat) | FreeCall(p: Option<nat>) | ReallocCall(p: Option<nat>, size: nat)

  /** Callers pass null or a pointer they hold. */
  ghost predicate Legal(h: Heap, call: Call) {
    call.AllocCall? || Pointer(h.chain, HDR, call.p)
  }

  function Step(h: Heap, call: Call): Heap
    requires h.chain != []
  {
    match call
    case AllocCall(size) => Alloc(h, size).0
    case FreeCall(p) => Free(h, p)
    case ReallocCall(p, size) => Realloc(h, p, size).0
  }

  /** `h` becomes `k` through the calls, each legal when it is made. */
  ghost predicate Reaches(h: Heap, calls: seq<Call>, k: Heap)
    decreases |calls|
  {
    if calls == [] then h == k
    else h.chain != [] && Legal(h, calls[0]) && Reaches(Step(h, calls[0]), calls[1..], k)
  }

  lemma EmptyInv(total: nat)
    requires MIN_WORDS <= total && 4 * (total + 2 * HDR) < SIZE_SPAN
    ensures Inv(Empty(total)) && Empty(total).Used() == 0
  {
    var c := Empty(total).chain;
    assert forall i :: Room(c, HDR, i) && !FreePair(c, i);
    assert Sum(UsedExtent, c, 0, 1) == Sum(UsedExtent, c, 1, 1);
  }

  lemma StepKeeps(h: Heap, call: Call)
    requires Inv(h) && Legal(h, call)
    ensures Inv(Step(h, call)) && Step(h, call).total == h.total
    ensures Step(h, call).max == Larger(h.max, StepPeak(h, call))
  {
    match call
    case AllocCall(size) =>
      AllocKeeps(h, size);
      AllocMeaning(h, size);
    case FreeCall(p) => FreeKeeps(h, p);
    case ReallocCall(p, size) => ReallocKeeps(h, p, size);
  }

  lemma ReallocKeeps(h: Heap, p: Option<nat>, size: nat)
    requires Inv(h) && Pointer(h.chain, HDR, p)
    ensures Inv(Realloc(h, p, size).0) && Realloc(h, p, size).0.total == h.total
    ensures Realloc(h, p, size).0.max == Larger(h.max, StepPeak(h, ReallocCall(p, size)))
  {
    var words := AlignedWords(size);
    if 0 < words <= h.total {
      if p.None? {
        AllocKeeps(h, 4 * words);
        AllocMeaning(h, 4 * words);
      } else if Moves(h, p.value, words) {
        MoveKeeps(h, p.value, words);
      } else {
        StayKeeps(h, p.value, words);
      }
    } else {
      FreeKeeps(h, p);
    }
  }

  /** Every heap any run of calls can reach keeps the invariant. */
  lemma {:induction false} RunKeeps(h: Heap, calls: seq<Call>, k: Heap)
    requires Inv(h) && Reaches(h, calls, k)
    ensures Inv(k) && k.total == h.total
    decreases |calls|
  {
    if calls != [] {
      StepKeeps(h, calls[0]);
      RunKeeps(Step(h, calls[0]), calls[1..], k);
    }
  }

  /** Once everything is freed, in whatever order and after whatever calls, the heap is the one
      free block it started as: nothing is lost to fragmentation. Counting says so too. */
  lemma RunCoalescesFully(total: nat, calls: seq<Call>, k: Heap)
    requires MIN_WORDS <= total && 4 * (total + 2 * HDR) < SIZE_SPAN
    requires Reaches(Empty(total), calls, k)
    ensures k.chain == Empty(total).chain <==> forall e :: !Holds(k.chain, HDR, e)
    ensures k.chain == Empty(total).chain <==> k.Used() == 0
  {
    EmptyInv(total);
    RunKeeps(Empty(total), calls, k);
    NothingUsedOneBlock(k.chain, HDR);
    if |k.chain| == 2 && !k.chain[0].used {
      assert k.chain == [k.chain[0], k.chain[1]];
    }
  }

  /** The most words in use at any moment of one call. */
  function StepPeak(h: Heap, call: Call): int
    requires h.chain != []
  {
    match call
    case AllocCall(size) => Alloc(h, size).0.Used()
    case FreeCall(p) => h.Used()
    case ReallocCall(p, size) =>
      // a move holds both blocks until the old one is freed
      if 0 < AlignedWords(size) <= h.total && (p.None? || Moves(h, p.value, AlignedWords(size)))
      then Alloc(h, 4 * AlignedWords(size)).0.Used() else h.Used()
  }

  /** The most words in use at any moment of a run. */
  function Peak(h: Heap, calls: seq<Call>): int
    requires h.chain != []
    decreases |calls|
  {
    if calls == [] || Step(h, calls[0]).chain == [] then h.Used()
    else Larger(h.Used(), Larger(StepPeak(h, calls[0]), Peak(Step(h, calls[0]), calls[1..])))
  }

  /** The `max` field is the running maximum of the words in use. */
  lemma {:induction false} RunMax(h: Heap, calls: seq<Call>, k: Heap)
    requires Inv(h) && Reaches(h, calls, k)
    ensures k.max == Larger(h.max, Peak(h, calls))
    decreases |calls|
  {
    if calls != [] {
      StepKeeps(h, calls[0]);
      RunMax(Step(h, calls[0]), calls[1..], k);
    }
  }
}
