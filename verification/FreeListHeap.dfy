/** The memheap as a specification: a block chain and the order of its free list. What one call
    does to them, what callers may rely on, and what holds after any run of calls. */
module FreeListHeap {
  import opened Option
  import opened BlockChain
  import opened Sizes

  const HDR: nat := 6         // words in an item: magic, pool_ptr, next, prev, next_free, prev_free
  const MIN_WORDS: nat := 3   // RT_MEMHEAP_MINIALLOC
  const WORD_SPAN: nat := 0x4000_0000   // SIZE_SPAN in words
  const WIDE: nat := 8        // WellFormed(c, WIDE): every block before the tailer has MIN_WORDS of data

  /** `pool` is the pool's size. The pool starts at offset HDR, behind the free list's own header;
      `frees` are the headers on the free list, in order. */
  datatype Heap = Heap(chain: Chain, frees: seq<nat>, pool: nat, maxUsed: int) {
    function Available(): int {
      Total(FreeData(HDR), chain)
    }
  }

  ghost predicate NoDup(f: seq<nat>) {
    forall i, j :: 0 <= i < j < |f| ==> f[i] != f[j]
  }

  /** The list names each free block once and nothing else. */
  ghost predicate Listed(c: Chain, f: seq<nat>) {
    NoDup(f) && forall off: nat :: off in f <==> IsFree(c, off)
  }

  ghost predicate Inv(h: Heap) {
    && WellFormed(h.chain, WIDE) && NoTwoFree(h.chain) && Listed(h.chain, h.frees)
    && h.chain[0].off == HDR && h.chain[|h.chain| - 1].off == h.pool
    && 4 * (h.pool + HDR) <= SIZE_SPAN
    && h.pool - h.Available() <= h.maxUsed
  }

  function Empty(pool: nat): Heap {
    Heap([Block(HDR, false), Block(pool, true)], [HDR], pool, 2 * HDR)
  }

  /** The position of `x` in `f` from `k` on, or |f|. */
  function Find(f: seq<nat>, x: nat, k: nat): (r: nat)
    requires k <= |f|
    ensures k <= r <= |f| && (r < |f| ==> f[r] == x)
    ensures forall i :: k <= i < r ==> f[i] != x
    decreases |f| - k
  {
    if k == |f| || f[k] == x then k else Find(f, x, k + 1)
  }

  /** The list without its node `x`. */
  function Minus(f: seq<nat>, x: nat): seq<nat> {
    var k := Find(f, x, 0);
    if k < |f| then f[..k] + f[k + 1..] else f
  }

  /** The words a block must offer for a request of `size` bytes. */
  function Need(size: nat): nat {
    Larger(AlignedWords(size), MIN_WORDS)
  }

  /** The data words of the block headed at `off`. */
  function DataOf(c: Chain, off: nat): int {
    SizeAt(c, HDR, off + HDR)
  }

  /** The first entry of the free list from `k` on with room for `need`, or |f|. */
  function FirstListed(c: Chain, f: seq<nat>, need: nat, k: nat): (r: nat)
    requires k <= |f|
    ensures k <= r <= |f| && (r < |f| ==> DataOf(c, f[r]) >= need)
    ensures forall i :: k <= i < r ==> DataOf(c, f[i]) < need
    decreases |f| - k
  {
    if k == |f| || DataOf(c, f[k]) >= need then k else FirstListed(c, f, need, k + 1)
  }

  function WithPeak(c: Chain, f: seq<nat>, pool: nat, peak: int): Heap {
    Heap(c, f, pool, Larger(peak, pool - Total(FreeData(HDR), c)))
  }

  /** Uses block `i`, which is on the free list, for `need` words. */
  function Take(h: Heap, need: nat, i: nat): Heap
    requires i + 1 < |h.chain|
  {
    var off := h.chain[i].off;
    var rest := Minus(h.frees, off);
    var split := Fits(h.chain, HDR, need + HDR + MIN_WORDS, i);
    WithPeak(Occupy(h.chain, HDR, MIN_WORDS, need, i),
             if split then [off + HDR + need] + rest else rest, h.pool, h.maxUsed)
  }

  function Alloc(h: Heap, size: nat): (Heap, Option<nat>) {
    var k := FirstListed(h.chain, h.frees, Need(size), 0);
    if Need(size) >= h.Available() || k == |h.frees| then (h, None)
    else
      var i := BlockAt(h.chain, HDR, h.frees[k] + HDR);
      if i + 1 < |h.chain| then (Take(h, Need(size), i), Some(h.frees[k] + HDR)) else (h, None)
  }

  /** Frees block `i`: it goes to the front of the list unless it joins its left neighbour. */
  function Give(h: Heap, i: nat): Heap
    requires i + 1 < |h.chain|
  {
    var c := h.chain;
    var f := if c[i + 1].used then h.frees else Minus(h.frees, c[i + 1].off);
    h.(chain := Release(c, i), frees := if i > 0 && !c[i - 1].used then f else [c[i].off] + f)
  }

  function Free(h: Heap, p: Option<nat>): Heap {
    if p.None? || BlockAt(h.chain, HDR, p.value) + 1 >= |h.chain| then h
    else Give(h, BlockAt(h.chain, HDR, p.value))
  }

  /** The test on 32-bit sizes by which a block of a heap grows in place: with its free neighbour behind
      it, it has more than the words wanted and the minimum; their sum can wrap. */
  predicate CanGrow(c: Chain, i: nat, need: nat) {
    i + 2 < |c| && !c[i + 1].used
    && (c[i + 2].off - c[i + 1].off - HDR) + (c[i + 1].off - c[i].off - HDR) > (need + MIN_WORDS) % WORD_SPAN
  }

  /** Block `i` takes words from its free right neighbour, whose header moves; its address can wrap. */
  function Grow(h: Heap, i: nat, need: nat): Heap
    requires i + 1 < |h.chain|
  {
    var at := (h.chain[i].off + HDR + need) % WORD_SPAN;
    WithPeak(Slide(h.chain, i + 1, at), [at] + Minus(h.frees, h.chain[i + 1].off), h.pool, h.maxUsed)
  }

  /** Block `i` is cut to `need` words. */
  function Cut(h: Heap, i: nat, need: nat): Heap
    requires i + 1 < |h.chain|
  {
    var at := h.chain[i].off + HDR + need;
    var f := if h.chain[i + 1].used then h.frees else Minus(h.frees, h.chain[i + 1].off);
    h.(chain := Shrink(h.chain, i, at), frees := [at] + f)
  }

  function Move(h: Heap, p: nat, need: nat): (Heap, Option<nat>) {
    var (h1, r) := Alloc(h, 4 * need);
    (if r.Some? then Free(h1, Some(p)) else h, r)
  }

  /** Realloc of the block `i` at `p`: in place when the size or the right neighbour allows. */
  function Resize(h: Heap, p: nat, i: nat, need: nat): (Heap, Option<nat>)
    requires i + 1 < |h.chain|
  {
    var size := SizeAt(h.chain, HDR, p);
    if need > size then
      if CanGrow(h.chain, i, need) then (Grow(h, i, need), Some(p)) else Move(h, p, need)
    else if need + HDR + MIN_WORDS >= size then (h, Some(p))
    else (Cut(h, i, need), Some(p))
  }

  function Realloc(h: Heap, p: Option<nat>, size: nat): (Heap, Option<nat>) {
    if size == 0 then (Free(h, p), None)
    else if p.None? then Alloc(h, 4 * Need(size))
    else
      var i := BlockAt(h.chain, HDR, p.value);
      if i + 1 >= |h.chain| then (h, None) else Resize(h, p.value, i, Need(size))
  }

  // ---------- the free list ----------

  lemma MinusMeaning(f: seq<nat>, x: nat)
    requires NoDup(f)
    ensures NoDup(Minus(f, x)) && forall y: nat :: y in Minus(f, x) <==> y in f && y != x
  {
    var k := Find(f, x, 0);
    var g := Minus(f, x);
    if k < |f| {
      forall y: nat ensures y in g <==> y in f && y != x {
        if y in f && y != x {
          var i :| 0 <= i < |f| && f[i] == y;
          assert g[if i < k then i else i - 1] == y;
        }
      }
    }
  }

  lemma PushMeaning(f: seq<nat>, x: nat)
    requires NoDup(f) && x !in f
    ensures NoDup([x] + f) && forall y: nat :: y in [x] + f <==> y == x || y in f
  {}

  lemma Narrow(c: Chain)
    requires WellFormed(c, WIDE)
    ensures WellFormed(c, HDR)
  {
    forall i ensures Room(c, HDR, i) {
      assert Room(c, WIDE, i);
    }
  }

  // ---------- each change keeps the list true ----------

  lemma TakeListed(h: Heap, need: nat, i: nat)
    requires Inv(h) && Fits(h.chain, HDR, need, i) && MIN_WORDS <= need
    ensures Listed(Take(h, need, i).chain, Take(h, need, i).frees)
  {
    hide Carve;
    var c, off, at := h.chain, h.chain[i].off, h.chain[i].off + HDR + need;
    MinusMeaning(h.frees, off);
    if Fits(c, HDR, need + HDR + MIN_WORDS, i) {
      NotFreeInside(c, i, at);
      PushMeaning(Minus(h.frees, off), at);
      forall x: nat ensures IsFree(Carve(c, i, at), x) <==> (IsFree(c, x) && x != off) || x == at {
        CarveFree(c, WIDE, i, at, x);
      }
    } else {
      var d := c[i := Block(off, true)];
      forall x: nat ensures IsFree(d, x) <==> IsFree(c, x) && x != off {
        FlagFree(c, WIDE, i, true, x);
      }
    }
  }

  /** No header lies strictly inside a block. */
  lemma NotFreeInside(c: Chain, i: nat, at: nat)
    requires WellFormed(c, WIDE) && i + 1 < |c| && c[i].off < at < c[i + 1].off
    ensures !IsFree(c, at)
  {
    AllIncreasing(c, WIDE);
  }

  lemma JoinRightFree(c: Chain, i: nat, x: nat)
    requires WellFormed(c, WIDE) && i + 1 < |c| && !c[i].used
    ensures WellFormed(JoinRight(c, i), WIDE)
    ensures IsFree(JoinRight(c, i), x) <==> IsFree(c, x) && (c[i + 1].used || x != c[i + 1].off)
  {
    if !c[i + 1].used {
      DropKeeps(c, WIDE, i + 1);
      DropFree(c, WIDE, i + 1, x);
    }
  }

  /** Freeing the offsets of a coalesced chain: the right neighbour's goes, and the block's own
      unless it stands alone on the left. */
  lemma CoalesceFree(c: Chain, i: nat, x: nat)
    requires WellFormed(c, WIDE) && i + 1 < |c| && !c[i].used
    ensures IsFree(Coalesce(c, i), x) <==>
            && IsFree(c, x) && (c[i + 1].used || x != c[i + 1].off)
            && (i == 0 || c[i - 1].used || x != c[i].off)
  {
    JoinRightFree(c, i, x);
    var d := JoinRight(c, i);
    if i > 0 && !c[i - 1].used {
      DropFree(d, WIDE, i, x);
    }
  }

  lemma GiveListed(h: Heap, i: nat)
    requires Inv(h) && i + 1 < |h.chain| && h.chain[i].used
    ensures Listed(Give(h, i).chain, Give(h, i).frees)
  {
    var c := h.chain;
    var off, next := c[i].off, c[i + 1].off;
    MinusMeaning(h.frees, next);
    assert !IsFree(c, off) by { AllIncreasing(c, WIDE); }
    PushMeaning(if c[i + 1].used then h.frees else Minus(h.frees, next), off);
    forall x: nat ensures IsFree(Release(c, i), x) <==>
        && (IsFree(c, x) || x == off) && (c[i + 1].used || x != next) && (i == 0 || c[i - 1].used || x != off) {
      GiveFree(c, i, x);
    }
    assert off < next by { AllIncreasing(c, WIDE); }
  }

  lemma GiveFree(c: Chain, i: nat, x: nat)
    requires WellFormed(c, WIDE) && i + 1 < |c|
    ensures IsFree(Release(c, i), x) <==>
            && (IsFree(c, x) || x == c[i].off) && (c[i + 1].used || x != c[i + 1].off)
            && (i == 0 || c[i - 1].used || x != c[i].off)
  {
    var b := c[i := Block(c[i].off, false)];
    FlagKeeps(c, WIDE, i, false);
    FlagFree(c, WIDE, i, false, x);
    CoalesceFree(b, i, x);
  }

  lemma NoWrap(x: nat)
    requires x < WORD_SPAN
    ensures x % WORD_SPAN == x
  {}

  lemma OneWrap(x: nat)
    requires WORD_SPAN <= x < 2 * WORD_SPAN
    ensures x % WORD_SPAN == x - WORD_SPAN
  {}

  /** Where three blocks in a row lie. */
  lemma InsidePool(h: Heap, i: nat)
    requires Inv(h) && i + 2 < |h.chain|
    ensures HDR <= h.chain[i].off && h.chain[i].off + WIDE < h.chain[i + 1].off
    ensures h.chain[i + 1].off + WIDE < h.chain[i + 2].off <= h.pool && h.pool + HDR <= WORD_SPAN
  {
    assert Room(h.chain, WIDE, i) && Room(h.chain, WIDE, i + 1);
    if i > 0 {
      Increasing(h.chain, WIDE, 0, i);
    }
    if i + 2 < |h.chain| - 1 {
      Increasing(h.chain, WIDE, i + 2, |h.chain| - 1);
    }
  }

  /** A growth that does not wrap moves the neighbour's header inside the room there is. */
  lemma GrowsInside(h: Heap, i: nat, need: nat)
    requires Inv(h) && CanGrow(h.chain, i, need) && need + MIN_WORDS < WORD_SPAN
    ensures var at := h.chain[i].off + HDR + need;
            && at + WIDE < h.chain[i + 2].off
            && Grow(h, i, need) == WithPeak(Slide(h.chain, i + 1, at), [at] + Minus(h.frees, h.chain[i + 1].off), h.pool, h.maxUsed)
  {
    var at := h.chain[i].off + HDR + need;
    InsidePool(h, i);
    NoWrap(need + MIN_WORDS);
    assert at + WIDE < h.chain[i + 2].off;
    NoWrap(at);
  }

  lemma GrowListed(h: Heap, i: nat, need: nat)
    requires Inv(h) && CanGrow(h.chain, i, need) && need + MIN_WORDS < WORD_SPAN
    requires h.chain[i].used && need + HDR > h.chain[i + 1].off - h.chain[i].off
    ensures Listed(Grow(h, i, need).chain, Grow(h, i, need).frees)
  {
    var c, at := h.chain, h.chain[i].off + HDR + need;
    GrowsInside(h, i, need);
    MinusMeaning(h.frees, c[i + 1].off);
    NotFreeInside(c, i + 1, at);
    PushMeaning(Minus(h.frees, c[i + 1].off), at);
    forall x: nat {
      SlideFree(c, WIDE, i + 1, at, x);
    }
  }

  lemma CutListed(h: Heap, i: nat, need: nat, g: Heap)
    requires Inv(h) && i + 1 < |h.chain| && h.chain[i].used && MIN_WORDS <= need
    requires h.chain[i].off + HDR + need + HDR + MIN_WORDS < h.chain[i + 1].off && g == Cut(h, i, need)
    ensures Listed(g.chain, g.frees)
  {
    var c, at := h.chain, h.chain[i].off + HDR + need;
    var next := c[i + 1].off;
    MinusMeaning(h.frees, next);
    NotFreeInside(c, i, at);
    PushMeaning(if c[i + 1].used then h.frees else Minus(h.frees, next), at);
    forall x: nat ensures IsFree(g.chain, x) <==> (IsFree(c, x) || x == at) && (c[i + 1].used || x != next) {
      CutFree(c, i, at, x);
    }
  }

  lemma CutFree(c: Chain, i: nat, at: nat, x: nat)
    requires WellFormed(c, WIDE) && i + 1 < |c| && c[i].used && c[i].off + WIDE < at && at + WIDE < c[i + 1].off
    ensures IsFree(Shrink(c, i, at), x) <==> (IsFree(c, x) || x == at) && (c[i + 1].used || x != c[i + 1].off)
  {
    var b := Carve(c, i, at);
    CarveKeeps(c, WIDE, i, at);
    CarveFree(c, WIDE, i, at, x);
    assert b[i + 2] == c[i + 1];
    assert !IsFree(c, c[i].off) by { AllIncreasing(c, WIDE); }
    CoalesceFree(b, i + 1, x);
  }

  // ---------- one call ----------

  lemma OccupyWide(c: Chain, need: nat, i: nat)
    requires WellFormed(c, WIDE) && NoTwoFree(c) && Fits(c, HDR, need, i) && MIN_WORDS <= need
    ensures var d := Occupy(c, HDR, MIN_WORDS, need, i);
            && WellFormed(d, WIDE) && NoTwoFree(d) && SameEnds(c, d) && i + 1 < |d| && d[i].used
            && d[i].off == c[i].off && d[i].off + HDR + need <= d[i + 1].off <= c[i + 1].off
  {
    Narrow(c);
    OccupyKeeps(c, HDR, MIN_WORDS, need, i);
    if Fits(c, HDR, need + HDR + MIN_WORDS, i) {
      CarveKeeps(c, WIDE, i, c[i].off + HDR + need);
    } else {
      FlagKeeps(c, WIDE, i, true);
    }
  }

  lemma TakeKeeps(h: Heap, need: nat, i: nat)
    requires Inv(h) && Fits(h.chain, HDR, need, i) && MIN_WORDS <= need
    ensures Inv(Take(h, need, i))
  {
    OccupyWide(h.chain, need, i);
    TakeListed(h, need, i);
  }

  lemma GiveKeeps(h: Heap, i: nat)
    requires Inv(h) && i + 1 < |h.chain| && h.chain[i].used
    ensures Inv(Give(h, i)) && Give(h, i).Available() > h.Available()
  {
    hide Release;
    GiveListed(h, i);
    ReleaseKeeps(h.chain, WIDE, i);
    Narrow(h.chain);
    assert Room(h.chain, HDR, i);
    ReleaseTotal(h.chain, HDR, i);
  }

  lemma GrowKeeps(h: Heap, i: nat, need: nat)
    requires Inv(h) && CanGrow(h.chain, i, need) && need + MIN_WORDS < WORD_SPAN
    requires h.chain[i].used && need + HDR > h.chain[i + 1].off - h.chain[i].off
    ensures Inv(Grow(h, i, need))
  {
    var at := h.chain[i].off + HDR + need;
    GrowsInside(h, i, need);
    GrowListed(h, i, need);
    assert Room(h.chain, WIDE, i);
    SlideKeeps(h.chain, WIDE, i + 1, at);
  }

  lemma InvFromParts(h: Heap, g: Heap)
    requires Inv(h) && g.pool == h.pool && SameEnds(h.chain, g.chain)
    requires WellFormed(g.chain, WIDE) && NoTwoFree(g.chain) && Listed(g.chain, g.frees)
    requires g.pool - g.Available() <= g.maxUsed
    ensures Inv(g)
  {}

  lemma CutAvailable(c: Chain, i: nat, need: nat, d: Chain)
    requires WellFormed(c, WIDE) && i + 1 < |c| && c[i].used && MIN_WORDS <= need
    requires c[i].off + HDR + need + HDR + MIN_WORDS < c[i + 1].off
    requires d == Shrink(c, i, c[i].off + HDR + need)
    ensures Total(FreeData(HDR), d) == Total(FreeData(HDR), c) + (c[i + 1].off - (c[i].off + HDR + need) - HDR)
                                       + (if c[i + 1].used then 0 else HDR)
  {
    Narrow(c);
    ShrinkTotal(c, HDR, i, c[i].off + HDR + need);
  }

  lemma CutKeeps(h: Heap, i: nat, need: nat, g: Heap)
    requires Inv(h) && i + 1 < |h.chain| && h.chain[i].used && MIN_WORDS <= need
    requires h.chain[i].off + HDR + need + HDR + MIN_WORDS < h.chain[i + 1].off && g == Cut(h, i, need)
    ensures Inv(g) && g.Available() > h.Available()
  {
    hide Shrink;
    var c, d := h.chain, g.chain;
    assert d == Shrink(c, i, c[i].off + HDR + need);
    assert Listed(d, g.frees) by { CutListed(h, i, need, g); }
    CutAvailable(c, i, need, d);
    assert WellFormed(d, WIDE) && NoTwoFree(d) && SameEnds(c, d) by { CutShape(c, i, need, d); }
    InvFromParts(h, g);
  }

  lemma CutReady(h: Heap, i: nat, need: nat, g: Heap)
    requires Inv(h) && i + 1 < |h.chain| && h.chain[i].used && MIN_WORDS <= need && g == Cut(h, i, need)
    requires h.chain[i].off + HDR + need + HDR + MIN_WORDS < h.chain[i + 1].off
    ensures Inv(g) && (!h.chain[i + 1].used ==> h.chain[i + 1].off in h.frees)
    ensures g.Available() == h.Available() + (h.chain[i + 1].off - (h.chain[i].off + HDR + need) - HDR)
                             + (if h.chain[i + 1].used then 0 else HDR)
  {
    hide Shrink;
    var c, d := h.chain, g.chain;
    assert d == Shrink(c, i, c[i].off + HDR + need);
    CutAvailable(c, i, need, d);
    assert Inv(g) by { CutKeeps(h, i, need, g); }
    if !h.chain[i + 1].used {
      assert FreeAt(h.chain, h.chain[i + 1].off, i + 1);
    }
  }

  lemma CutShape(c: Chain, i: nat, need: nat, d: Chain)
    requires WellFormed(c, WIDE) && NoTwoFree(c) && i + 1 < |c| && c[i].used && MIN_WORDS <= need
    requires c[i].off + HDR + need + HDR + MIN_WORDS < c[i + 1].off
    requires d == Shrink(c, i, c[i].off + HDR + need)
    ensures WellFormed(d, WIDE) && NoTwoFree(d) && SameEnds(c, d)
  {
    ShrinkKeeps(c, WIDE, i, c[i].off + HDR + need);
  }

  /** What freeing block `i` finds: it is not listed, a free right neighbour is, the list without
      that one still lacks it, every extent left was there before, and the sum moves as counted. */
  lemma GiveReady(h: Heap, i: nat)
    requires Inv(h) && i + 1 < |h.chain| && h.chain[i].used
    ensures h.chain[i].off !in h.frees && (!h.chain[i + 1].used ==> h.chain[i + 1].off in h.frees)
    ensures h.chain[i].off !in Minus(h.frees, h.chain[i + 1].off)
    ensures forall e :: Holds(Release(h.chain, i), HDR, e) ==> Holds(h.chain, HDR, e)
    ensures Give(h, i).Available() == h.Available() + (h.chain[i + 1].off - h.chain[i].off - HDR)
              + (if h.chain[i + 1].used then 0 else HDR) + (if i == 0 || h.chain[i - 1].used then 0 else HDR)
  {
    var c := h.chain;
    Narrow(c);
    MinusMeaning(h.frees, c[i + 1].off);
    assert !IsFree(c, c[i].off) by { AllIncreasing(c, WIDE); }
    if !c[i + 1].used {
      assert FreeAt(c, c[i + 1].off, i + 1);
    }
    ReleaseTotal(c, HDR, i);
    forall e | Holds(Release(c, i), HDR, e) ensures Holds(c, HDR, e) {
      ReleaseHolds(c, HDR, i, e);
    }
  }

  /** An entry of the free list names a free block, which fits when its data words do. */
  lemma ListedBlock(h: Heap, off: nat, need: nat)
    requires Inv(h) && off in h.frees
    ensures var i := BlockAt(h.chain, HDR, off + HDR);
            && i + 1 < |h.chain| && h.chain[i].off == off && !h.chain[i].used
            && (Fits(h.chain, HDR, need, i) <==> DataOf(h.chain, off) >= need)
  {
    assert IsFree(h.chain, off);
    var i :| FreeAt(h.chain, off, i);
    IndexOfHeader(h.chain, WIDE, i);
  }

  /** A block that fits is on the list, with the data words it has. */
  lemma FittingIsListed(h: Heap, need: nat, i: nat)
    requires Inv(h) && Fits(h.chain, HDR, need, i)
    ensures h.chain[i].off in h.frees && DataOf(h.chain, h.chain[i].off) >= need
  {
    assert FreeAt(h.chain, h.chain[i].off, i);
    IndexOfHeader(h.chain, WIDE, i);
  }

  /** Allocation fails exactly when the request is not below the available size, or no free block
      fits; otherwise it hands out the first entry of the free list that fits. */
  lemma AllocMeaning(h: Heap, size: nat)
    requires Inv(h)
    ensures Inv(Alloc(h, size).0) && (Alloc(h, size).1.None? ==> Alloc(h, size).0 == h)
    ensures Alloc(h, size).1.None? <==> Need(size) >= h.Available() || forall i :: !Fits(h.chain, HDR, Need(size), i)
    ensures Alloc(h, size).1.Some? ==>
              exists k, i :: TakesEntry(h, Need(size), Alloc(h, size).0, Alloc(h, size).1.value, k, i)
  {
    var k := FirstListed(h.chain, h.frees, Need(size), 0);
    if k < |h.frees| {
      var i := BlockAt(h.chain, HDR, h.frees[k] + HDR);
      ListedBlock(h, h.frees[k], Need(size));
      EntryTaken(h, Need(size), k, i);
      hide Take, TakesEntry, Inv;
      assert Alloc(h, size).1.Some? ==> TakesEntry(h, Need(size), Alloc(h, size).0, Alloc(h, size).1.value, k, i);
    } else {
      forall i ensures !Fits(h.chain, HDR, Need(size), i) {
        if Fits(h.chain, HDR, Need(size), i) {
          FittingIsListed(h, Need(size), i);
        }
      }
    }
  }

  lemma EntryTaken(h: Heap, need: nat, k: nat, i: nat)
    requires Inv(h) && MIN_WORDS <= need && k == FirstListed(h.chain, h.frees, need, 0) && k < |h.frees|
    requires Fits(h.chain, HDR, need, i) && h.chain[i].off == h.frees[k]
    ensures Inv(Take(h, need, i)) && TakesEntry(h, need, Take(h, need, i), h.frees[k] + HDR, k, i)
  {
    TakeKeeps(h, need, i);
    TakenIsNew(h, need, i);
    hide NewExtent;
  }

  /** `g` is `h` with block `i`, entry `k` of the list and the first to fit, in use from `p` on. */
  ghost predicate TakesEntry(h: Heap, need: nat, g: Heap, p: nat, k: nat, i: nat) {
    && k < |h.frees| && Fits(h.chain, HDR, need, i) && h.chain[i].off == h.frees[k] && p == h.chain[i].off + HDR
    && (forall j :: 0 <= j < k ==> DataOf(h.chain, h.frees[j]) < need)
    && i + 1 < |g.chain| && NewExtent(h, g, Extent(p, g.chain[i + 1].off), need)
    && g.chain[i + 1].off - p == GivenOf(h.chain[i + 1].off - p, need)
  }

  /** What an allocation of `need` words gives of a block of `size`: the words, or all when what is left
      over is less than a header and the minimum. */
  function GivenOf(size: int, need: nat): int {
    if size >= need + HDR + MIN_WORDS then need else size
  }

  /** `g` holds what `h` held and the new extent `e` of at least `need` words, inside the pool. */
  ghost predicate NewExtent(h: Heap, g: Heap, e: Extent, need: nat) {
    && e.from + need <= e.to <= h.pool && !Holds(h.chain, HDR, e)
    && forall x :: Holds(g.chain, HDR, x) <==> x == e || Holds(h.chain, HDR, x)
  }

  lemma TakenIsNew(h: Heap, need: nat, i: nat)
    requires Inv(h) && MIN_WORDS <= need && Fits(h.chain, HDR, need, i)
    ensures var g := Take(h, need, i);
            i + 1 < |g.chain| && NewExtent(h, g, Extent(h.chain[i].off + HDR, g.chain[i + 1].off), need)
  {
    var d := Occupy(h.chain, HDR, MIN_WORDS, need, i);
    OccupyWide(h.chain, need, i);
    AllIncreasing(h.chain, WIDE);
    Narrow(h.chain);
    var e := Extent(h.chain[i].off + HDR, d[i + 1].off);
    forall x ensures Holds(d, HDR, x) <==> x == e || Holds(h.chain, HDR, x) {
      OccupyHolds(h.chain, HDR, MIN_WORDS, need, i, x);
    }
    OccupyHolds(h.chain, HDR, MIN_WORDS, need, i, e);
  }

  /** What the strict test against the available size costs: a request is turned away although a
      block fits in just one situation, when a single free block is left and is asked for exactly. */
  lemma StrictTestTurnsAway(h: Heap, size: nat)
    requires Inv(h) && Need(size) >= h.Available()
    ensures (exists i :: Fits(h.chain, HDR, Need(size), i)) <==>
            exists i :: LoneFree(h.chain, i) && h.chain[i + 1].off - h.chain[i].off - HDR == Need(size)
  {
    var c := h.chain;
    Narrow(c);
    if i: nat :| Fits(c, HDR, Need(size), i) {
      FreeSumAtLeast(c, HDR, 0, |c| - 1, i);
      assert LoneFree(c, i);
    }
    if i: nat :| LoneFree(c, i) && c[i + 1].off - c[i].off - HDR == Need(size) {
      assert Fits(c, HDR, Need(size), i);
    }
  }

  /** Block `i` is the only free one. */
  ghost predicate LoneFree(c: Chain, i: int) {
    0 <= i < |c| - 1 && !c[i].used && forall j :: 0 <= j < |c| - 1 && j != i ==> c[j].used
  }

  /** Freeing removes exactly the extent it is given, and keeps the invariant. */
  lemma FreeMeaning(h: Heap, p: Option<nat>)
    requires Inv(h) && Pointer(h.chain, HDR, p)
    ensures Inv(Free(h, p)) && (p.None? ==> Free(h, p) == h)
    ensures p.Some? ==> forall x :: Holds(Free(h, p).chain, HDR, x) <==> Holds(h.chain, HDR, x) && x.from != p.value
  {
    if p.Some? {
      Narrow(h.chain);
      PointerBlock(h.chain, HDR, p.value);
      GiveKeeps(h, BlockAt(h.chain, HDR, p.value));
      forall x ensures Holds(Free(h, p).chain, HDR, x) <==> Holds(h.chain, HDR, x) && x.from != p.value {
        ReleaseMeaning(h.chain, HDR, p.value, x);
      }
    }
  }

  /** Freeing straight after allocating restores the chain. */
  lemma FreeUndoesAlloc(h: Heap, size: nat)
    requires Inv(h)
    ensures Free(Alloc(h, size).0, Alloc(h, size).1).chain == h.chain
  {
    if Alloc(h, size).1.Some? {
      var i := AllocTakes(h, size);
      GiveUndoesTake(h.chain, Need(size), i);
    }
  }

  /** The allocation that finds entry `k`. */
  lemma AllocIs(h: Heap, size: nat, k: nat) returns (i: nat)
    requires Inv(h) && Need(size) < h.Available()
    requires k == FirstListed(h.chain, h.frees, Need(size), 0) && k < |h.frees|
    ensures Fits(h.chain, HDR, Need(size), i) && h.chain[i].off == h.frees[k]
    ensures DataOf(h.chain, h.frees[k]) == h.chain[i + 1].off - h.chain[i].off - HDR
    ensures Alloc(h, size) == (Take(h, Need(size), i), Some(h.frees[k] + HDR)) && Inv(Take(h, Need(size), i))
  {
    ListedBlock(h, h.frees[k], Need(size));
    i := BlockAt(h.chain, HDR, h.frees[k] + HDR);
    TakeKeeps(h, Need(size), i);
  }

  /** A successful allocation takes a block that fits. */
  lemma AllocTakes(h: Heap, size: nat) returns (i: nat)
    requires Inv(h) && Alloc(h, size).1.Some?
    ensures Fits(h.chain, HDR, Need(size), i)
    ensures Alloc(h, size) == (Take(h, Need(size), i), Some(h.chain[i].off + HDR))
  {
    hide Take, Total;
    var k := FirstListed(h.chain, h.frees, Need(size), 0);
    ListedBlock(h, h.frees[k], Need(size));
    i := BlockAt(h.chain, HDR, h.frees[k] + HDR);
  }

  lemma GiveUndoesTake(c: Chain, need: nat, i: nat)
    requires WellFormed(c, WIDE) && NoTwoFree(c) && Fits(c, HDR, need, i) && MIN_WORDS <= need
    ensures var d := Occupy(c, HDR, MIN_WORDS, need, i);
            var j := BlockAt(d, HDR, c[i].off + HDR);
            j + 1 < |d| && Release(d, j) == c
  {
    var d := Occupy(c, HDR, MIN_WORDS, need, i);
    OccupyWide(c, need, i);
    IndexOfHeader(d, WIDE, i);
    Narrow(c);
    ReleaseUndoesOccupy(c, HDR, MIN_WORDS, need, i);
  }

  /** The 32-bit growth test of realloc grants a growth only when it fits, for every neighbour a pool can
      have, exactly when adding the minimum to the request does not wrap. */
  lemma GrowthTestExactIff(need: nat)
    requires need < WORD_SPAN
    ensures (forall room: nat :: room < WORD_SPAN && GrantsGrowth(room, need) ==> room > need + MIN_WORDS)
            <==> need + MIN_WORDS < WORD_SPAN
  {
    if need + MIN_WORDS >= WORD_SPAN {
      assert (need + MIN_WORDS) % WORD_SPAN == need + MIN_WORDS - WORD_SPAN;
      assert GrantsGrowth(6, need);
    }
  }

  /** The growth test on 32-bit sizes, in words: both neighbours' data together give `room`. */
  predicate GrantsGrowth(room: nat, need: nat) {
    room > (need + MIN_WORDS) % WORD_SPAN
  }

  /** The request is so close to the top of the range that adding the minimum wraps, and the block has a
      free neighbour behind it. */
  predicate GrowthWraps(h: Heap, p: nat, size: nat) {
    var i := BlockAt(h.chain, HDR, p);
    Need(size) + MIN_WORDS >= WORD_SPAN && i + 1 < |h.chain| && !h.chain[i + 1].used
  }

  /** What realloc of a block promises. It keeps the heap exactly when its growth test does not wrap or
      the neighbour behind the block is used. The block stays exactly when it has the words the size rounds
      up to, or lacks some that a free neighbour behind it has, and the minimum more; null for a size that
      is not zero leaves the heap alone, and comes exactly when the block does not stay and nothing can be
      allocated. Without such a wrap, a block that stays has just those words unless it had no more than a
      header and the minimum over; and no block but the old and the new one changes.
      `ReallocGivesAskedBytes` compares words and bytes. */
  lemma ReallocMeaning(h: Heap, p: nat, size: nat, g: Heap, r: Option<nat>)
    requires Inv(h) && Pointer(h.chain, HDR, Some(p)) && size > 0 && (g, r) == Realloc(h, Some(p), size)
    ensures Inv(g) <==> !GrowthWraps(h, p, size)
    ensures g.pool == h.pool && (r.None? ==> g == h)
    ensures var c, i, need, had := h.chain, BlockAt(h.chain, HDR, p), Need(size), SizeAt(h.chain, HDR, p);
            var grows := i + 2 < |c| && !c[i + 1].used
                         && c[i + 2].off - c[i + 1].off - HDR + had > (need + MIN_WORDS) % WORD_SPAN;
            && (r == Some(p) <==> need <= had || grows)
            && (r.None? <==> need > had && !grows && (need >= h.Available() || forall k :: !Fits(c, HDR, need, k)))
            && (!GrowthWraps(h, p, size) && r == Some(p) ==>
                  SizeAt(g.chain, HDR, p) == if need <= had <= need + HDR + MIN_WORDS then had else need)
            && (r.Some? && r != Some(p) ==> SizeAt(g.chain, HDR, r.value) < need + HDR + MIN_WORDS)
    ensures r.Some? && !GrowthWraps(h, p, size) ==>
              HasBlock(g.chain, HDR, r.value, Need(size)) && OnlyChanges(h.chain, g.chain, HDR, p, r.value)
    ensures r.Some? && !GrowthWraps(h, p, size) ==> (r == Some(p) <==> Pointer(g.chain, HDR, Some(p)))
  {
    hide Resize;
    Narrow(h.chain);
    PointerBlock(h.chain, HDR, p);
    NeedTwice(size);
    AllocMeaning(h, 4 * Need(size));
    if GrowthWraps(h, p, size) {
      GrowthBreaks(h, p, BlockAt(h.chain, HDR, p), Need(size));
    } else {
      ResizeMeaning(h, p, BlockAt(h.chain, HDR, p), Need(size), g, r);
    }
  }

  /** A null pointer: realloc allocates; the size zero: it frees. */
  lemma ReallocOfNull(h: Heap, p: Option<nat>, size: nat)
    requires Inv(h)
    ensures Realloc(h, p, 0) == (Free(h, p), None)
    ensures size > 0 ==> Realloc(h, None, size) == Alloc(h, size)
  {
    NeedTwice(size);
  }

  /** A growth whose test wraps is always granted, and puts the neighbour's header back over the header of
      the block itself. */
  lemma GrowthBreaks(h: Heap, p: nat, i: nat, need: nat)
    requires Inv(h) && i + 1 < |h.chain| && p == h.chain[i].off + HDR && SizeAt(h.chain, HDR, p) == h.chain[i + 1].off - p
    requires need < WORD_SPAN <= need + MIN_WORDS && !h.chain[i + 1].used
    ensures CanGrow(h.chain, i, need) && need > SizeAt(h.chain, HDR, p)
    ensures Resize(h, p, i, need) == (Grow(h, i, need), Some(p))
    ensures h.chain[i].off < Grow(h, i, need).chain[i + 1].off < h.chain[i].off + HDR && !Inv(Grow(h, i, need))
  {
    hide Minus;
    var c, g := h.chain, Grow(h, i, need);
    LastUsed(h, i + 1);
    InsidePool(h, i);
    OneWrap(need + MIN_WORDS);
    OneWrap(c[i].off + HDR + need);
    assert g.chain == Slide(c, i + 1, c[i].off + HDR + need - WORD_SPAN);
    assert !Room(g.chain, WIDE, i);
  }

  lemma LastUsed(h: Heap, i: nat)
    requires Inv(h) && i < |h.chain| && !h.chain[i].used
    ensures i + 1 < |h.chain|
  {}

  // ---------- the bytes asked for ----------

  /** Rounding a size up to words wraps to nothing, and the minimum is taken, above SIZE_SPAN - 4. */
  lemma RoundsUp(size: nat)
    requires size < SIZE_SPAN
    ensures size <= SIZE_SPAN - 4 ==> size <= 4 * Need(size)
    ensures size > SIZE_SPAN - 4 ==> Need(size) == MIN_WORDS
  {}

  lemma BlockWords(h: Heap, p: nat, n: nat)
    requires Inv(h) && HasBlock(h.chain, HDR, p, n)
    ensures n <= SizeAt(h.chain, HDR, p) < WORD_SPAN - HDR
  {
    var e :| Holds(h.chain, HDR, e) && e.from == p && e.from + n <= e.to;
    var i :| Owns(h.chain, HDR, e, i);
    IndexOfHeader(h.chain, WIDE, i);
    if i + 1 < |h.chain| - 1 {
      Increasing(h.chain, WIDE, i + 1, |h.chain| - 1);
    }
  }

  /** What an allocation gives holds the bytes asked for exactly when rounding them up does not wrap. */
  lemma AllocGivesAskedBytes(h: Heap, size: nat)
    requires Inv(h) && size < SIZE_SPAN && Alloc(h, size).1.Some?
    ensures 4 * SizeAt(Alloc(h, size).0.chain, HDR, Alloc(h, size).1.value) >= size <==> size <= SIZE_SPAN - 4
  {
    var g, p := Alloc(h, size).0, Alloc(h, size).1.value;
    AllocMeaning(h, size);
    var k, i :| TakesEntry(h, Need(size), g, p, k, i);
    assert Holds(g.chain, HDR, Extent(p, g.chain[i + 1].off));
    BlockWords(g, p, Need(size));
    RoundsUp(size);
  }

  /** What a successful realloc gives holds the bytes asked for exactly when neither rounding them up nor
      the growth test wraps. */
  lemma ReallocGivesAskedBytes(h: Heap, p: nat, size: nat, g: Heap, r: nat)
    requires Inv(h) && Pointer(h.chain, HDR, Some(p)) && 0 < size < SIZE_SPAN
    requires (g, Some(r)) == Realloc(h, Some(p), size)
    ensures 4 * SizeAt(g.chain, HDR, r) >= size <==> size <= SIZE_SPAN - 4 && !GrowthWraps(h, p, size)
  {
    ReallocMeaning(h, p, size, g, Some(r));
    RoundsUp(size);
    if GrowthWraps(h, p, size) {
      WrappedSize(h, p, size, g);
    } else {
      BlockWords(g, r, Need(size));
    }
  }

  lemma SameIndex(c: Chain, d: Chain, off: nat, i: nat)
    requires i == IndexOf(c, off, 0) && i < |c| && i < |d| && forall j :: 0 <= j <= i ==> d[j] == c[j]
    ensures IndexOf(d, off, 0) == i
  {
    var k := IndexOf(d, off, 0);
    assert d[i].off == off;
    assert k < i ==> c[k].off == off;
  }

  lemma WrappedSize(h: Heap, p: nat, size: nat, g: Heap)
    requires Inv(h) && Pointer(h.chain, HDR, Some(p)) && size > 0 && GrowthWraps(h, p, size)
    requires g == Realloc(h, Some(p), size).0
    ensures Realloc(h, Some(p), size).1 == Some(p) && SizeAt(g.chain, HDR, p) < 0
  {
    var i := BlockAt(h.chain, HDR, p);
    Narrow(h.chain);
    PointerBlock(h.chain, HDR, p);
    GrowthBreaks(h, p, i, Need(size));
    SameIndex(h.chain, g.chain, p - HDR, i);
  }

  lemma NeedTwice(size: nat)
    ensures Need(4 * Need(size)) == Need(size)
  {}

  lemma ResizeMeaning(h: Heap, p: nat, i: nat, need: nat, g: Heap, r: Option<nat>)
    requires Inv(h) && Pointer(h.chain, HDR, Some(p)) && MIN_WORDS <= need == Need(4 * need)
    requires i == BlockAt(h.chain, HDR, p) && i + 1 < |h.chain| && h.chain[i].used && p == h.chain[i].off + HDR
    requires (g, r) == Resize(h, p, i, need) && (need + MIN_WORDS < WORD_SPAN || h.chain[i + 1].used)
    ensures Inv(g) && g.pool == h.pool && (r.None? ==> g == h)
    ensures r.None? <==> need > SizeAt(h.chain, HDR, p) && Alloc(h, 4 * need).1.None? && !CanGrow(h.chain, i, need)
    ensures r == Some(p) <==> need <= SizeAt(h.chain, HDR, p) || CanGrow(h.chain, i, need)
    ensures r == Some(p) ==>
              var had := SizeAt(h.chain, HDR, p);
              SizeAt(g.chain, HDR, p) == if need <= had <= need + HDR + MIN_WORDS then had else need
    ensures r.Some? && r != Some(p) ==> SizeAt(g.chain, HDR, r.value) < need + HDR + MIN_WORDS
    ensures r.Some? ==> HasBlock(g.chain, HDR, r.value, need) && OnlyChanges(h.chain, g.chain, HDR, p, r.value)
    ensures r.Some? ==> (r == Some(p) <==> Pointer(g.chain, HDR, Some(p)))
  {
    hide Cut, Grow, Move;
    if need <= SizeAt(h.chain, HDR, p) {
      StayMeaning(h, p, i, need, g);
    } else if CanGrow(h.chain, i, need) {
      GrowMeaning(h, i, need, g);
    } else if r.Some? {
      MoveMeaning(h, p, need, g, r);
    } else {
      MoveNothing(h, p, need, g, r);
    }
  }

  lemma MoveNothing(h: Heap, p: nat, need: nat, g: Heap, r: Option<nat>)
    requires (g, r) == Move(h, p, need)
    ensures r == Alloc(h, 4 * need).1 && (r.None? ==> g == h)
  {}

  lemma StayMeaning(h: Heap, p: nat, i: nat, need: nat, g: Heap)
    requires Inv(h) && Pointer(h.chain, HDR, Some(p)) && MIN_WORDS <= need <= SizeAt(h.chain, HDR, p)
    requires i == BlockAt(h.chain, HDR, p) && i + 1 < |h.chain|
    requires g == if need + HDR + MIN_WORDS >= SizeAt(h.chain, HDR, p) then h else Cut(h, i, need)
    ensures Inv(g) && g.pool == h.pool && HasBlock(g.chain, HDR, p, need) && Pointer(g.chain, HDR, Some(p))
    ensures var had := SizeAt(h.chain, HDR, p); SizeAt(g.chain, HDR, p) == if had <= need + HDR + MIN_WORDS then had else need
    ensures OnlyChanges(h.chain, g.chain, HDR, p, p)
  {
    if need + HDR + MIN_WORDS < SizeAt(h.chain, HDR, p) {
      CutMeaning(h, p, need, g);
    } else {
      Narrow(h.chain);
      PointerHasBlock(h.chain, HDR, p);
    }
  }

  lemma CutMeaning(h: Heap, p: nat, need: nat, g: Heap)
    requires Inv(h) && Pointer(h.chain, HDR, Some(p)) && MIN_WORDS <= need
    requires need + HDR + MIN_WORDS < SizeAt(h.chain, HDR, p) && BlockAt(h.chain, HDR, p) + 1 < |h.chain|
    requires g == Cut(h, BlockAt(h.chain, HDR, p), need)
    ensures Inv(g) && g.pool == h.pool && HasBlock(g.chain, HDR, p, need) && Pointer(g.chain, HDR, Some(p))
    ensures SizeAt(g.chain, HDR, p) == need && OnlyChanges(h.chain, g.chain, HDR, p, p)
  {
    hide Shrink;
    Narrow(h.chain);
    PointerBlock(h.chain, HDR, p);
    assert Inv(g) by { CutKeeps(h, BlockAt(h.chain, HDR, p), need, g); }
    ShrinkMeaning(h.chain, HDR, p, need, g.chain);
    Narrow(g.chain);
    SizeOfHeld(g.chain, HDR, Extent(p, p + need));
  }

  lemma GrowMeaning(h: Heap, i: nat, need: nat, g: Heap)
    requires Inv(h) && CanGrow(h.chain, i, need) && need + MIN_WORDS < WORD_SPAN
    requires h.chain[i].used && need + HDR > h.chain[i + 1].off - h.chain[i].off
    requires g == Grow(h, i, need)
    ensures var p := h.chain[i].off + HDR;
            && Inv(g) && g.pool == h.pool && HasBlock(g.chain, HDR, p, need) && Pointer(g.chain, HDR, Some(p))
            && SizeAt(g.chain, HDR, p) == need && OnlyChanges(h.chain, g.chain, HDR, p, p)
  {
    var c, p := h.chain, h.chain[i].off + HDR;
    GrowKeeps(h, i, need);
    GrowsInside(h, i, need);
    Narrow(c);
    assert Holds(g.chain, HDR, Extent(p, p + need)) by { SlideHolds(c, HDR, i + 1, p + need, Extent(p, p + need)); }
    forall x: Extent | x.from != p ensures Holds(g.chain, HDR, x) <==> Holds(c, HDR, x) {
      SlideHolds(c, HDR, i + 1, p + need, x);
    }
    Narrow(g.chain);
    SizeOfHeld(g.chain, HDR, Extent(p, p + need));
  }

  /** A pointer stays valid across an allocation, with the same extent. */
  lemma PointerSurvivesAlloc(h: Heap, size: nat, p: nat)
    requires Inv(h) && Pointer(h.chain, HDR, Some(p))
    ensures Pointer(Alloc(h, size).0.chain, HDR, Some(p)) && Alloc(h, size).1 != Some(p)
    ensures SizeAt(Alloc(h, size).0.chain, HDR, p) == SizeAt(h.chain, HDR, p)
  {
    if Alloc(h, size).1.Some? {
      var i := AllocTakes(h, size);
      var d := Take(h, Need(size), i).chain;
      assert NewExtent(h, Take(h, Need(size), i), Extent(h.chain[i].off + HDR, d[i + 1].off), Need(size)) by {
        TakenIsNew(h, Need(size), i);
      }
      OccupyWide(h.chain, Need(size), i);
      SameExtent(h.chain, d, p);
      Narrow(h.chain);
      PointerBlock(h.chain, HDR, p);
      IndexOfHeader(h.chain, WIDE, i);
    }
  }

  lemma SameExtent(c: Chain, d: Chain, p: nat)
    requires WellFormed(c, WIDE) && WellFormed(d, WIDE) && Pointer(c, HDR, Some(p))
    requires forall x :: Holds(c, HDR, x) ==> Holds(d, HDR, x)
    ensures Pointer(d, HDR, Some(p)) && SizeAt(d, HDR, p) == SizeAt(c, HDR, p)
  {
    Narrow(c);
    PointerBlock(c, HDR, p);
    var e := Extent(p, c[BlockAt(c, HDR, p) + 1].off);
    assert Holds(d, HDR, e);
    var j :| Owns(d, HDR, e, j);
    IndexOfHeader(d, WIDE, j);
  }

  /** After allocating `need` words for a move, both blocks have the words to copy. */
  lemma MoveReady(h: Heap, p: nat, need: nat, g: Heap, r: nat)
    requires Inv(h) && Pointer(h.chain, HDR, Some(p)) && Need(4 * need) == need
    requires (g, Some(r)) == Alloc(h, 4 * need)
    ensures WellFormed(g.chain, HDR) && Pointer(g.chain, HDR, Some(p)) && r != p
    ensures HasBlock(g.chain, HDR, p, SmallerOf(SizeAt(h.chain, HDR, p), need))
    ensures HasBlock(g.chain, HDR, r, SmallerOf(SizeAt(h.chain, HDR, p), need))
  {
    hide BlockAt, SizeAt, Occupy, Pointer, DataOf, Heap.Available, Total;
    PointerSurvivesAlloc(h, 4 * need, p);
    AllocMeaning(h, 4 * need);
    Narrow(g.chain);
    var k, i :| TakesEntry(h, need, g, r, k, i);
    assert Holds(g.chain, HDR, Extent(r, g.chain[i + 1].off));
    PointerHasBlock(g.chain, HDR, p);
    HasLess(g.chain, HDR, p, SizeAt(h.chain, HDR, p), SmallerOf(SizeAt(h.chain, HDR, p), need));
    HasLess(g.chain, HDR, r, need, SmallerOf(SizeAt(h.chain, HDR, p), need));
  }

  lemma MoveMeaning(h: Heap, p: nat, need: nat, g: Heap, r: Option<nat>)
    requires Inv(h) && Pointer(h.chain, HDR, Some(p)) && Need(4 * need) == need
    requires (g, r) == Move(h, p, need) && r.Some?
    ensures Inv(g) && g.pool == h.pool && r == Alloc(h, 4 * need).1 && r != Some(p) && !Pointer(g.chain, HDR, Some(p))
    ensures SizeAt(g.chain, HDR, r.value) < need + HDR + MIN_WORDS
    ensures HasBlock(g.chain, HDR, r.value, need) && OnlyChanges(h.chain, g.chain, HDR, p, r.value)
  {
    hide Inv, Fits, SizeAt, Occupy;
    var h1 := Alloc(h, 4 * need).0;
    assert g == Free(h1, Some(p));
    AllocMeaning(h, 4 * need);
    var k, i :| TakesEntry(h, need, h1, r.value, k, i);
    PointerSurvivesAlloc(h, 4 * need, p);
    MovedHolds(h, h1, p, Extent(r.value, h1.chain[i + 1].off), need, g);
    Narrow(g.chain);
    SizeOfHeld(g.chain, HDR, Extent(r.value, h1.chain[i + 1].off));
  }

  lemma MovedHolds(h: Heap, h1: Heap, p: nat, e: Extent, need: nat, g: Heap)
    requires Inv(h1) && Pointer(h1.chain, HDR, Some(p)) && NewExtent(h, h1, e, need) && e.from != p
    requires g == Free(h1, Some(p))
    ensures Inv(g) && !Pointer(g.chain, HDR, Some(p)) && Holds(g.chain, HDR, e)
    ensures HasBlock(g.chain, HDR, e.from, need) && OnlyChanges(h.chain, g.chain, HDR, p, e.from)
  {
    FreeMeaning(h1, Some(p));
    assert Holds(g.chain, HDR, e);
  }

  // ---------- any run of calls ----------

  datatype Call = AllocCall(size: nat) | FreeCall(p: Option<nat>) | ReallocCall(p: Option<nat>, size: nat)

  /** Callers pass null or a pointer they hold. */
  ghost predicate Legal(h: Heap, call: Call) {
    call.AllocCall? || Pointer(h.chain, HDR, call.p)
  }

  function Step(h: Heap, call: Call): Heap {
    match call
    case AllocCall(size) => Alloc(h, size).0
    case FreeCall(p) => Free(h, p)
    case ReallocCall(p, size) => Realloc(h, p, size).0
  }

  ghost predicate Reaches(h: Heap, calls: seq<Call>, g: Heap)
    decreases |calls|
  {
    if calls == [] then h == g
    else Legal(h, calls[0]) && Reaches(Step(h, calls[0]), calls[1..], g)
  }

  predicate Wraps(h: Heap, call: Call) {
    call.ReallocCall? && call.size > 0 && call.p.Some? && GrowthWraps(h, call.p.value, call.size)
  }

  /** No call of the run is a realloc whose growth test wraps. */
  predicate NeverWraps(h: Heap, calls: seq<Call>)
    decreases |calls|
  {
    calls != [] ==> !Wraps(h, calls[0]) && NeverWraps(Step(h, calls[0]), calls[1..])
  }

  /** The invariant holds before and after every call of the run. */
  ghost predicate AlwaysInv(h: Heap, calls: seq<Call>)
    decreases |calls|
  {
    Inv(h) && (calls != [] ==> AlwaysInv(Step(h, calls[0]), calls[1..]))
  }

  lemma EmptyInv(pool: nat)
    requires HDR + WIDE < pool && 4 * (pool + HDR) <= SIZE_SPAN
    ensures Inv(Empty(pool)) && Empty(pool).Available() == pool - 2 * HDR
  {
    var c := Empty(pool).chain;
    assert forall i :: Room(c, WIDE, i) && !FreePair(c, i);
    assert Sum(FreeData(HDR), c, 0, 1) == pool - 2 * HDR + Sum(FreeData(HDR), c, 1, 1);
    assert FreeAt(c, HDR, 0);
    assert forall off: nat :: off in [HDR] <==> IsFree(c, off);
  }

  lemma StepKeeps(h: Heap, call: Call)
    requires Inv(h) && Legal(h, call)
    ensures Inv(Step(h, call)) <==> !Wraps(h, call)
    ensures Step(h, call).pool == h.pool
  {
    match call
    case AllocCall(size) => AllocMeaning(h, size);
    case FreeCall(p) => FreeMeaning(h, p);
    case ReallocCall(p, size) =>
      if size == 0 {
        FreeMeaning(h, p);
      } else if p.None? {
        AllocMeaning(h, 4 * Need(size));
      } else {
        ReallocMeaning(h, p.value, size, Realloc(h, p, size).0, Realloc(h, p, size).1);
      }
  }

  /** After any run of calls: the blocks tile the pool, no two neighbours are free, every block has
      the minimum of data, and the free list names each free block exactly once; all along the run if and
      only if no call of it is a realloc whose growth test wraps beside a free block. */
  lemma {:induction false} RunKeeps(h: Heap, calls: seq<Call>, g: Heap)
    requires Inv(h) && Reaches(h, calls, g)
    ensures AlwaysInv(h, calls) <==> NeverWraps(h, calls)
    ensures NeverWraps(h, calls) ==> Inv(g) && g.pool == h.pool
    decreases |calls|
  {
    if calls != [] {
      StepKeeps(h, calls[0]);
      if !Wraps(h, calls[0]) {
        RunKeeps(Step(h, calls[0]), calls[1..], g);
      }
    }
  }

  function InUse(h: Heap): int {
    h.pool - h.Available()
  }

  /** The most words in use at the end of one call or, when a block moves, while both blocks are held. */
  function StepPeak(h: Heap, call: Call): int {
    if call.ReallocCall? && call.size > 0 && call.p.Some?
       && Realloc(h, call.p, call.size).1.Some? && Realloc(h, call.p, call.size).1 != call.p
    then InUse(Alloc(h, call.size).0) else InUse(Step(h, call))
  }

  function Peak(h: Heap, calls: seq<Call>): int
    decreases |calls|
  {
    if calls == [] then InUse(h)
    else Larger(InUse(h), Larger(StepPeak(h, calls[0]), Peak(Step(h, calls[0]), calls[1..])))
  }

  /** Enlarged by one call, the recorded peak is that call's. */
  lemma StepMax(h: Heap, call: Call)
    requires Inv(h) && Legal(h, call) && !Wraps(h, call)
    ensures Step(h, call).maxUsed == Larger(h.maxUsed, StepPeak(h, call))
  {
    StepKeeps(h, call);
    if call.ReallocCall? && call.size > 0 && call.p.Some? {
      NeedTwice(call.size);
      Narrow(h.chain);
      PointerBlock(h.chain, HDR, call.p.value);
      ResizeMax(h, call.p.value, BlockAt(h.chain, HDR, call.p.value), call.size);
    } else if call.ReallocCall? && call.size > 0 {
      NeedTwice(call.size);
    }
  }

  lemma ResizeMax(h: Heap, p: nat, i: nat, size: nat)
    requires Inv(h) && Pointer(h.chain, HDR, Some(p)) && i + 1 < |h.chain|
    requires Inv(Resize(h, p, i, Need(size)).0) && Need(4 * Need(size)) == Need(size)
    ensures var (g, r) := Resize(h, p, i, Need(size));
            g.pool == h.pool && g.maxUsed == Larger(h.maxUsed, if r.Some? && r != Some(p) then InUse(Alloc(h, size).0) else InUse(g))
  {
    hide Inv, Slide, Shrink, Move, Minus, Pointer;
    var need := Need(size);
    assert InUse(Resize(h, p, i, need).0) <= Resize(h, p, i, need).0.maxUsed by { PeakInUse(Resize(h, p, i, need).0); }
    if need > SizeAt(h.chain, HDR, p) && !CanGrow(h.chain, i, need) {
      PointerSurvivesAlloc(h, 4 * need, p);
      MoveMax(h, p, need);
      AllocSame(h, size);
    }
  }

  lemma PeakInUse(h: Heap)
    requires Inv(h)
    ensures InUse(h) <= h.maxUsed
  {}

  lemma AllocSame(h: Heap, size: nat)
    requires Need(4 * Need(size)) == Need(size)
    ensures Alloc(h, 4 * Need(size)) == Alloc(h, size)
  {}

  lemma MoveMax(h: Heap, p: nat, need: nat)
    requires Inv(h)
    ensures var (g, r) := Move(h, p, need);
            && r == Alloc(h, 4 * need).1 && g.pool == h.pool
            && (r.None? ==> g == h)
            && (r.Some? ==> g.maxUsed == Larger(h.maxUsed, InUse(Alloc(h, 4 * need).0)))
  {
    hide Release, Occupy, Minus, Inv;
  }

  /** `max_used_size` is the running maximum of the words in use, both copies of a moving block and the
      headers included. */
  lemma {:induction false} RunMax(h: Heap, calls: seq<Call>, g: Heap)
    requires Inv(h) && Reaches(h, calls, g) && NeverWraps(h, calls)
    ensures g.maxUsed == Larger(h.maxUsed, Peak(h, calls))
    decreases |calls|
  {
    if calls != [] {
      StepKeeps(h, calls[0]);
      StepMax(h, calls[0]);
      RunMax(Step(h, calls[0]), calls[1..], g);
    }
  }

  /** The free list is last in, first out: a block that joins no left neighbour when it is freed is the
      one given for the next request that it has the words for. */
  lemma FreedIsReused(h: Heap, p: nat, size: nat)
    requires Inv(h) && Pointer(h.chain, HDR, Some(p)) && Need(size) <= SizeAt(h.chain, HDR, p)
    requires var i := BlockAt(h.chain, HDR, p); i == 0 || (i < |h.chain| && h.chain[i - 1].used)
    requires Need(size) < Free(h, Some(p)).Available()
    ensures Alloc(Free(h, Some(p)), size).1 == Some(p)
  {
    hide Inv, Give, Alloc, Need, Heap.Available;
    var i, g := BlockAt(h.chain, HDR, p), Free(h, Some(p));
    HeldBlock(h, p);
    FreeMeaning(h, Some(p));
    assert g == Give(h, i);
    GivenFirst(h, i, g);
    FirstFits(g, size);
  }

  lemma HeldBlock(h: Heap, p: nat)
    requires Inv(h) && Pointer(h.chain, HDR, Some(p))
    ensures var i := BlockAt(h.chain, HDR, p);
            && i + 1 < |h.chain| && h.chain[i].used && p == h.chain[i].off + HDR
            && SizeAt(h.chain, HDR, p) == h.chain[i + 1].off - p
  {
    Narrow(h.chain);
    PointerBlock(h.chain, HDR, p);
  }

  lemma GivenFirst(h: Heap, i: nat, g: Heap)
    requires Inv(h) && Inv(g) && i + 1 < |h.chain| && h.chain[i].used && (i == 0 || h.chain[i - 1].used) && g == Give(h, i)
    ensures g.frees != [] && g.frees[0] == h.chain[i].off
    ensures DataOf(g.chain, g.frees[0]) >= h.chain[i + 1].off - h.chain[i].off - HDR
  {
    ReleasedWords(h.chain, i);
    hide Release, Total, Minus;
    assert g.chain == Release(h.chain, i);
    IndexOfHeader(g.chain, WIDE, i);
  }

  /** A block freed beside a used left neighbour has at least the words it had. */
  lemma ReleasedWords(c: Chain, i: nat)
    requires WellFormed(c, WIDE) && NoTwoFree(c) && i + 1 < |c| && c[i].used && (i == 0 || c[i - 1].used)
    ensures i + 1 < |Release(c, i)| && Release(c, i)[i] == Block(c[i].off, false)
    ensures Release(c, i)[i + 1].off >= c[i + 1].off
  {
    AllIncreasing(c, WIDE);
  }

  lemma FirstFits(h: Heap, size: nat)
    requires Inv(h) && h.frees != [] && DataOf(h.chain, h.frees[0]) >= Need(size) && Need(size) < h.Available()
    ensures Alloc(h, size).1 == Some(h.frees[0] + HDR)
  {
    hide Take, Total;
    ListedBlock(h, h.frees[0], Need(size));
  }

  /** Once everything is freed, after whatever calls, the pool is one free block again. */
  lemma RunCoalescesFully(pool: nat, calls: seq<Call>, g: Heap)
    requires HDR + WIDE < pool && 4 * (pool + HDR) <= SIZE_SPAN && Reaches(Empty(pool), calls, g)
    requires NeverWraps(Empty(pool), calls)
    ensures (forall e :: !Holds(g.chain, HDR, e)) <==>
            g.chain == Empty(pool).chain && g.frees == [HDR] && g.Available() == pool - 2 * HDR
  {
    EmptyInv(pool);
    RunKeeps(Empty(pool), calls, g);
    Narrow(g.chain);
    NothingUsedOneBlock(g.chain, HDR);
    if forall e :: !Holds(g.chain, HDR, e) {
      assert g.chain == [g.chain[0], g.chain[1]];
      assert FreeAt(g.chain, HDR, 0);
      OnlyOne(g.frees, HDR);
    }
  }

  lemma TwoCalls(h: Heap, first: Call, second: Call, g: Heap)
    ensures Reaches(h, [first, second], g) <==>
            Legal(h, first) && Legal(Step(h, first), second) && g == Step(Step(h, first), second)
  {
    assert [first, second][1..] == [second] && [second][1..] == [];
    assert Reaches(Step(h, first), [second], g) <==>
           Legal(Step(h, first), second) && Reaches(Step(Step(h, first), second), [], g);
  }

  const FIRST := AllocCall(12)
  const SECOND := ReallocCall(Some(2 * HDR), 0xFFFF_FFF4)

  lemma AfterFirst(h: Heap, g: Heap)
    requires h == Empty(100) && g == Step(h, FIRST)
    ensures Inv(g) && g.chain == [Block(6, true), Block(15, false), Block(100, true)]
  {
    EmptyInv(100);
    StepKeeps(h, FIRST);
    assert Need(12) == 3 && FirstListed(h.chain, [HDR], 3, 0) == 0;
    assert BlockAt(h.chain, HDR, 12) == 0;
    assert g.chain == Occupy(h.chain, HDR, MIN_WORDS, 3, 0);
  }

  lemma AfterSecond(h: Heap, g: Heap)
    requires Inv(h) && h.chain == [Block(6, true), Block(15, false), Block(100, true)]
    requires g == Step(h, SECOND)
    ensures Legal(h, SECOND)
    ensures g.chain == [Block(6, true), Block(9, false), Block(100, true)] && !Inv(g)
  {
    var need := Need(0xFFFF_FFF4);
    assert need == WORD_SPAN - 3;
    IndexOfHeader(h.chain, WIDE, 0);
    assert BlockAt(h.chain, HDR, 12) == 0 && SizeAt(h.chain, HDR, 12) == 3;
    GrowthBreaks(h, 12, 0, need);
    OneWrap(12 + need);
    assert Owns(h.chain, HDR, Extent(12, 15), 0);
    assert Holds(h.chain, HDR, Extent(12, 15));
    assert g == Grow(h, 0, need);
    assert g.chain == Slide(h.chain, 1, 9);
  }

  /** Two legal calls on a new pool of 100 words that end with the header of a free block inside the
      header of the used one. */
  lemma WrappingReallocBreaks() returns (g: Heap)
    ensures Reaches(Empty(100), [FIRST, SECOND], g)
    ensures g.chain == [Block(6, true), Block(9, false), Block(100, true)] && !Inv(g)
  {
    var h := Empty(100);
    var h1 := Step(h, FIRST);
    g := Step(h1, SECOND);
    AfterFirst(h, h1);
    AfterSecond(h1, g);
    assert Legal(h, FIRST);
    TwoCalls(h, FIRST, SECOND, g);
    assert Reaches(h, [FIRST, SECOND], g);
  }

  const WHOLE := AllocCall(336)
  const ENLARGE := ReallocCall(Some(2 * HDR), 0xFFFF_FFFE)

  lemma AfterWhole(h: Heap, g: Heap)
    requires h == Empty(100) && g == Step(h, WHOLE)
    ensures Inv(g) && g.chain == [Block(6, true), Block(100, true)]
  {
    EmptyInv(100);
    StepKeeps(h, WHOLE);
    assert Need(336) == 84 && FirstListed(h.chain, [HDR], 84, 0) == 0;
    assert BlockAt(h.chain, HDR, 12) == 0;
    assert g.chain == Occupy(h.chain, HDR, MIN_WORDS, 84, 0);
  }

  lemma AfterEnlarge(h: Heap, g: Heap)
    requires Inv(h) && h.chain == [Block(6, true), Block(100, true)] && g == Step(h, ENLARGE)
    ensures Legal(h, ENLARGE) && Realloc(h, Some(12), 0xFFFF_FFFE) == (g, Some(12))
    ensures g.chain == [Block(6, true), Block(15, false), Block(100, true)]
  {
    assert Need(0xFFFF_FFFE) == 3;
    IndexOfHeader(h.chain, WIDE, 0);
    assert BlockAt(h.chain, HDR, 12) == 0 && SizeAt(h.chain, HDR, 12) == 88;
    assert Owns(h.chain, HDR, Extent(12, 100), 0);
    assert Holds(h.chain, HDR, Extent(12, 100));
    assert g == Cut(h, 0, 3);
  }

  /** Two legal calls on a new pool of 100 words: a realloc of a block of 88 words to 0xFFFF_FFFE bytes
      succeeds and cuts it to 3. */
  lemma EnlargingCuts() returns (h: Heap, g: Heap)
    ensures Reaches(Empty(100), [WHOLE], h) && SizeAt(h.chain, HDR, 12) == 88
    ensures Reaches(Empty(100), [WHOLE, ENLARGE], g) && Realloc(h, Some(12), 0xFFFF_FFFE) == (g, Some(12))
    ensures SizeAt(g.chain, HDR, 12) == 3
  {
    hide Cut, Inv;
    var h0 := Empty(100);
    h := Step(h0, WHOLE);
    g := Step(h, ENLARGE);
    AfterWhole(h0, h);
    AfterEnlarge(h, g);
    assert [WHOLE][1..] == [];
    assert Reaches(h, [], h);
    TwoCalls(h0, WHOLE, ENLARGE, g);
    IndexOfHeader(h.chain, WIDE, 0);
    assert BlockAt(g.chain, HDR, 12) == 0 && BlockAt(h.chain, HDR, 12) == 0;
  }

  lemma OnlyOne(f: seq<nat>, x: nat)
    requires NoDup(f) && forall y: nat :: y in f <==> y == x
    ensures f == [x]
  {
    assert x in f;
    IsEntry(f, 0);
    if 1 < |f| {
      IsEntry(f, 1);
    }
  }

  lemma IsEntry(f: seq<nat>, j: nat)
    requires j < |f|
    ensures f[j] in f
  {}
}
