/** Aligned allocation on top of the small heap (kservice.c). Addresses count bytes; word `p` of
    the heap is at `base + 4 * p`. Masks with a power of two minus one are written as `%` and `/`. */
module AlignedAlloc {
  import opened Option
  import opened BlockChain
  import opened Sizes
  import opened SmallHeap
  import opened UserData
  import SmallMem

  function Power(k: nat): nat {
    if k == 0 then 1 else 2 * Power(k - 1)
  }

  ghost predicate PowerOfTwo(a: nat) {
    exists k :: a == Power(k)
  }

  /** Rounding up to the size of a pointer. */
  function PointerUp(n: nat): nat {
    (n + 3) / 4 * 4
  }

  /** The aligned address a block at `addr` yields: always past room for the back pointer. */
  function AlignAddress(addr: nat, a: nat): nat
    requires a > 0
  {
    if addr % a == 0 then addr + a else (addr + (a - 1)) / a * a
  }

  /** The bytes rt_malloc_align asks the heap for. */
  function AlignedSize(size: nat, align: nat): nat {
    PointerUp(size) + PointerUp(align)
  }

  ghost predicate IsAligned(r: nat, align: nat) {
    align > 0 && r % align == 0
  }

  lemma {:induction false} PowerBigEnough(k: nat)
    ensures Power(k) == 1 || Power(k) == 2 || Power(k) % 4 == 0
    ensures Power(k) > 0
  {
    if k > 0 {
      PowerBigEnough(k - 1);
    }
  }

  lemma MultipleMod(q: nat, a: nat)
    requires a > 0
    ensures (q * a) % a == 0
  {
    var d := (q * a) / a - q;
    assert d * a + (q * a) % a == 0;
    assert d >= 1 ==> d * a >= a;
    assert d <= -1 ==> d * a + a <= 0;
  }

  /** Rounding up reaches the next multiple, within one step. */
  lemma AlignAddressIs(addr: nat, a: nat)
    requires a > 0
    ensures var r := AlignAddress(addr, a); r % a == 0 && addr < r <= addr + a
  {
    if addr % a == 0 {
      SumMod(addr, a);
    } else {
      var q := (addr + (a - 1)) / a;
      MultipleMod(q, a);
      assert addr + (a - 1) == q * a + (addr + (a - 1)) % a;
      assert q * a != addr;
    }
  }

  /** For a power of two and a word-aligned block of the size asked for, the returned address is
      aligned, the word before it is in the block, and so are all the bytes asked for. */
  lemma AlignedFits(addr: nat, size: nat, align: nat)
    requires PowerOfTwo(align) && addr % 4 == 0 && PointerUp(align) > 0
    ensures var r := AlignAddress(addr, PointerUp(align));
            && IsAligned(r, align) && r % 4 == 0 && addr + 4 <= r
            && r + size <= addr + PointerUp(size) + PointerUp(align)
  {
    var r := AlignAddress(addr, PointerUp(align));
    PointerUpIs(align);
    AlignAddressIs(addr, PointerUp(align));
    MultipleIsAligned(r, align);
    NextWord(addr, r);
    PointerUpIs(size);
  }

  lemma PointerUpIs(n: nat)
    ensures n <= PointerUp(n) && PointerUp(n) % 4 == 0
    ensures n > 0 ==> PointerUp(n) > 0
    ensures n % 4 == 0 ==> PointerUp(n) == n
  {}

  lemma PositivePointerUp(align: nat)
    requires PowerOfTwo(align)
    ensures PointerUp(align) > 0
  {
    var k :| align == Power(k);
    PowerBigEnough(k);
    PointerUpIs(align);
  }

  lemma NextWord(addr: nat, r: nat)
    requires addr % 4 == 0 && r % 4 == 0 && addr < r
    ensures addr + 4 <= r
  {}

  lemma MultipleIsAligned(r: nat, align: nat)
    requires PowerOfTwo(align) && PointerUp(align) > 0 && r % PointerUp(align) == 0
    ensures IsAligned(r, align) && r % 4 == 0
  {
    var k :| align == Power(k);
    PowerBigEnough(k);
    PointerUpIs(align);
    FourDivides(r, PointerUp(align));
    if align % 4 != 0 {
      SmallDivides(r, align);
    }
  }

  lemma SmallDivides(r: nat, a: nat)
    requires (a == 1 || a == 2) && r % 4 == 0
    ensures r % a == 0
  {
    if a == 1 {
      assert r % 1 == 0;
    } else {
      assert r % 2 == 0;
    }
  }

  lemma SumMod(x: nat, a: nat)
    requires a > 0 && x % a == 0
    ensures (x + a) % a == 0
  {
    assert x + a == (x / a + 1) * a;
    MultipleMod(x / a + 1, a);
  }

  lemma FourDivides(r: nat, a: nat)
    requires a > 0 && a % 4 == 0 && r % a == 0
    ensures r % 4 == 0
  {
    var q, b := r / a, a / 4;
    assert r == q * a && a == b * 4;
    assert r == (q * b) * 4 by {
      MultipleRegroups(q, b);
    }
    MultipleMod(q * b, 4);
  }

  lemma MultipleRegroups(q: nat, b: nat)
    ensures q * (b * 4) == (q * b) * 4
  {
  }

  /** The word of the heap at byte address `addr`. */
  function WordAt(base: nat, addr: nat): nat {
    if addr < base then 0 else (addr - base) / 4
  }

  /** `r` is an aligned pointer with `size` bytes, backed by the block at `p`: the word before it
      lies in that block and holds the block's address. */
  ghost predicate Backed(c: Chain, w: seq<int>, base: nat, p: nat, r: nat, size: nat) {
    && r % 4 == 0 && base + 4 * p + 4 <= r
    && (exists e :: Holds(c, HDR, e) && e.from == p && r + size <= base + 4 * e.to)
    && WordAt(base, r - 4) < |w| && UserWord(c, HDR, WordAt(base, r - 4)) && w[WordAt(base, r - 4)] == base + 4 * p
  }

  /** The extent an allocation hands out. */
  lemma BlockGiven(h: Heap, size: nat) returns (e: Extent)
    requires Inv(h) && 0 < size < SIZE_SPAN && size % 4 == 0 && Alloc(h, size).1.Some?
    ensures Holds(Alloc(h, size).0.chain, HDR, e) && !Holds(h.chain, HDR, e)
    ensures e.from == Alloc(h, size).1.value && 4 * e.from + size <= 4 * e.to
    ensures forall x :: Holds(h.chain, HDR, x) ==> Holds(Alloc(h, size).0.chain, HDR, x)
  {
    AllocMeaning(h, size);
    e := Extent(Alloc(h, size).1.value, Alloc(h, size).0.chain[Chosen(h, size) + 1].off);
  }

  /** A word of the block just handed out belonged to no block before. */
  lemma NewWord(h: Heap, size: nat, e: Extent, k: nat)
    requires Inv(h) && Holds(Alloc(h, size).0.chain, HDR, e) && !Holds(h.chain, HDR, e)
    requires forall x :: Holds(h.chain, HDR, x) ==> Holds(Alloc(h, size).0.chain, HDR, x)
    requires e.from <= k < e.to
    ensures !UserWord(h.chain, HDR, k)
  {
    AllocKeeps(h, size);
    UserWordIffHeld(h.chain, HDR, k);
    if UserWord(h.chain, HDR, k) {
      var f :| Holds(h.chain, HDR, f) && f.from <= k < f.to;
      ExtentsDisjoint(Alloc(h, size).0.chain, HDR, e, f);
    }
  }

  /** The pure facts behind an aligned allocation that found a block. */
  lemma AlignedBlock(h: Heap, base: nat, size: nat, align: nat) returns (e: Extent)
    requires Inv(h) && base % 4 == 0 && PowerOfTwo(align)
    requires AlignedSize(size, align) < SIZE_SPAN && Alloc(h, AlignedSize(size, align)).1.Some?
    ensures PointerUp(align) > 0
    ensures var (k, p) := Alloc(h, AlignedSize(size, align));
            var r := AlignAddress(base + 4 * p.value, PointerUp(align));
            && Holds(k.chain, HDR, e) && e.from == p.value && IsAligned(r, align) && r % 4 == 0
            && base + 4 * p.value + 4 <= r && r + size <= base + 4 * e.to
            && !UserWord(h.chain, HDR, WordAt(base, r - 4))
  {
    hide Holds, AlignAddress, UserWord;
    AlignedSizeIs(size, align);
    e := BlockGiven(h, AlignedSize(size, align));
    AlignedPlace(base, e.from, size, align, e.to);
    NewWord(h, AlignedSize(size, align), e, WordAt(base, AlignAddress(base + 4 * e.from, PointerUp(align)) - 4));
  }

  lemma AlignedSizeIs(size: nat, align: nat)
    requires PowerOfTwo(align)
    ensures 0 < AlignedSize(size, align) && AlignedSize(size, align) % 4 == 0 && PointerUp(align) > 0
  {
    PositivePointerUp(align);
    PointerUpIs(size);
    PointerUpIs(align);
  }

  /** Inside a block from `p` to `to` with the words asked for, the aligned pointer has its place. */
  lemma AlignedPlace(base: nat, p: nat, size: nat, align: nat, to: nat)
    requires base % 4 == 0 && PowerOfTwo(align) && PointerUp(align) > 0
    requires 4 * p + AlignedSize(size, align) <= 4 * to
    ensures var r := AlignAddress(base + 4 * p, PointerUp(align));
            && IsAligned(r, align) && r % 4 == 0 && base + 4 * p + 4 <= r && r + size <= base + 4 * to
            && p <= WordAt(base, r - 4) < to
  {
    AlignedFits(base + 4 * p, size, align);
    BackWord(base, p, AlignAddress(base + 4 * p, PointerUp(align)), size, to);
  }

  lemma BackWord(base: nat, p: nat, r: nat, size: nat, to: nat)
    requires base % 4 == 0 && r % 4 == 0 && base + 4 * p + 4 <= r && r + size <= base + 4 * to
    ensures p <= WordAt(base, r - 4) < to
  {}

  /** What rt_malloc_align asks the heap for in 32 bits, where both roundings and their sum can wrap. */
  function AskedBytes(size: nat, align: nat): nat {
    (4 * AlignedWords(size) + 4 * AlignedWords(align)) % SIZE_SPAN
  }

  lemma {:induction false} PowerGrows(k: nat, m: nat)
    requires k <= m
    ensures Power(k) <= Power(m)
  {
    if k < m {
      PowerGrows(k, m - 1);
    }
  }

  lemma {:induction false} PowerAdds(k: nat, m: nat)
    ensures Power(k + m) == Power(k) * Power(m)
  {
    if m > 0 {
      PowerAdds(k, m - 1);
      assert Power(k + m) == 2 * Power(k + m - 1);
    }
  }

  const HALF_SPAN: nat := 0x8000_0000

  lemma PowerValues()
    ensures Power(31) == HALF_SPAN && Power(32) == SIZE_SPAN
  {
    assert Power(4) == 16;
    PowerAdds(4, 4);
    PowerAdds(8, 8);
    PowerAdds(16, 16);
    assert Power(32) == 2 * Power(31);
  }

  /** A 32-bit power of two is at most half of the range. */
  lemma PowerHalf(align: nat)
    requires PowerOfTwo(align) && align < SIZE_SPAN
    ensures 0 < align <= HALF_SPAN
  {
    var k :| align == Power(k);
    PowerBigEnough(k);
    PowerValues();
    if k <= 31 {
      PowerGrows(k, 31);
    } else {
      PowerGrows(32, k);
    }
  }

  lemma RoundedIn32Bits(n: nat)
    requires n < SIZE_SPAN
    ensures n <= SIZE_SPAN - 4 ==> 4 * AlignedWords(n) == PointerUp(n) <= SIZE_SPAN - 4
    ensures n > SIZE_SPAN - 4 ==> AlignedWords(n) == 0 && PointerUp(n) == SIZE_SPAN
    ensures n <= PointerUp(n) <= n + 3
  {}

  lemma AskedBytesIs(size: nat, align: nat)
    requires size < SIZE_SPAN && 0 < align <= HALF_SPAN
    ensures AskedBytes(size, align) % 4 == 0 && AskedBytes(size, align) <= SIZE_SPAN - 4
    ensures Asks(size, AlignedSize(size, align), AskedBytes(size, align))
  {
    RoundedIn32Bits(size);
    RoundedIn32Bits(align);
    SumIn32Bits(AlignedWords(size), AlignedWords(align));
  }

  lemma SumIn32Bits(a: nat, b: nat)
    requires 4 * a < SIZE_SPAN && 4 * b < SIZE_SPAN
    ensures var s := (4 * a + 4 * b) % SIZE_SPAN;
            s == (if 4 * a + 4 * b < SIZE_SPAN then 4 * a + 4 * b else 4 * a + 4 * b - SIZE_SPAN) && s % 4 == 0
  {}

  /** The bytes the heap gives for what it is asked, between what was asked and a little more. */
  lemma GivenFor(h: Heap, asked: nat) returns (p: nat, given: nat)
    requires Inv(h) && asked % 4 == 0 && asked <= SIZE_SPAN - 4 && Alloc(h, asked).1.Some?
    ensures p == Alloc(h, asked).1.value && given == 4 * SizeAt(Alloc(h, asked).0.chain, HDR, p)
    ensures asked <= given <= Larger(asked, 12) + 20
  {
    p := Alloc(h, asked).1.value;
    AllocGivesAskedBytes(h, asked);
    AllocGivesLittleMore(h, asked);
    RoundedIn32Bits(asked);
    given := 4 * SizeAt(Alloc(h, asked).0.chain, HDR, p);
  }

  /** What is asked for a sum that does not wrap, and for one that does. */
  predicate Asks(size: nat, sum: nat, asked: nat) {
    if sum < SIZE_SPAN then asked == sum else asked + 20 < size + 4 && 32 < size + 4
  }

  lemma Decide(addr: nat, r: nat, size: nat, asked: nat, sum: nat, given: nat)
    requires addr + 4 <= r && r + size <= addr + sum
    requires asked <= given <= Larger(asked, 12) + 20 && Asks(size, sum, asked)
    ensures r + size <= addr + given <==> sum < SIZE_SPAN
  {}

  lemma PlacedBytes(h: Heap, addr: nat, size: nat, align: nat, p: nat, r: nat)
    requires Inv(h) && PowerOfTwo(align) && size < SIZE_SPAN && align < SIZE_SPAN
    requires Alloc(h, AskedBytes(size, align)).1 == Some(p) && addr + 4 <= r && r + size <= addr + AlignedSize(size, align)
    ensures r + size <= addr + 4 * SizeAt(Alloc(h, AskedBytes(size, align)).0.chain, HDR, p)
            <==> AlignedSize(size, align) < SIZE_SPAN
  {
    var asked := AskedBytes(size, align);
    assert asked % 4 == 0 && asked <= SIZE_SPAN - 4 && Asks(size, AlignedSize(size, align), asked) by {
      PowerHalf(align);
      AskedBytesIs(size, align);
    }
    var q, given := GivenFor(h, asked);
    Decide(addr, r, size, asked, AlignedSize(size, align), given);
  }

  /** The bytes asked for fit in the block behind the aligned address exactly when nothing wraps. */
  lemma AlignedGivesAskedBytes(h: Heap, base: nat, size: nat, align: nat, p: nat)
    requires Inv(h) && base % 4 == 0 && PowerOfTwo(align) && size < SIZE_SPAN && align < SIZE_SPAN
    requires Alloc(h, AskedBytes(size, align)).1 == Some(p) && PointerUp(align) > 0
    ensures AlignAddress(base + 4 * p, PointerUp(align)) + size
              <= base + 4 * p + 4 * SizeAt(Alloc(h, AskedBytes(size, align)).0.chain, HDR, p)
            <==> AlignedSize(size, align) < SIZE_SPAN
  {
    hide Alloc, AlignAddress, AskedBytes, Inv, PointerUp, SizeAt;
    AlignedFits(base + 4 * p, size, align);
    PlacedBytes(h, base + 4 * p, size, align, p, AlignAddress(base + 4 * p, PointerUp(align)));
  }

  lemma MultipleUnique(a: nat, x: nat, y: nat)
    requires a > 0 && x % a == 0 && y % a == 0 && x < y + a && y < x + a
    ensures x == y
  {
    var d := x / a - y / a;
    assert x - y == d * a;
    assert d >= 1 ==> d * a >= a;
    assert d <= -1 ==> d * a <= -1 * a;
  }

  /** The aligned address is the next multiple past the block's own. */
  lemma AlignAddressExact(addr: nat, a: nat)
    requires a > 0
    ensures AlignAddress(addr, a) == addr + a - addr % a
  {
    AlignAddressIs(addr, a);
    var q := addr / a;
    assert addr - addr % a == q * a;
    MultipleMod(q + 1, a);
    assert (q + 1) * a == addr - addr % a + a;
    MultipleUnique(a, AlignAddress(addr, a), addr - addr % a + a);
  }

  /** The block reaches past any address the alignment can lead to when nothing wraps, and when the size
      alone rounds to zero. */
  lemma GivenReaches(h: Heap, size: nat, align: nat, p: nat, given: nat)
    requires Inv(h) && PowerOfTwo(align) && size < SIZE_SPAN && align < SIZE_SPAN
    requires Alloc(h, AskedBytes(size, align)).1 == Some(p)
    requires given == 4 * SizeAt(Alloc(h, AskedBytes(size, align)).0.chain, HDR, p)
    ensures AlignedSize(size, align) < SIZE_SPAN || size > SIZE_SPAN - 4 ==> PointerUp(align) <= given
  {
    PowerHalf(align);
    RoundedIn32Bits(size);
    RoundedIn32Bits(align);
    AskedBytesIs(size, align);
    var q, g := GivenFor(h, AskedBytes(size, align));
  }

  /** When the back pointer that rt_malloc_align stores in front of the aligned address lies in the block:
      exactly when the block reaches up to that address. */
  lemma BackPointerInside(h: Heap, base: nat, size: nat, align: nat, p: nat, given: nat)
    requires Inv(h) && base % 4 == 0 && PowerOfTwo(align) && size < SIZE_SPAN && align < SIZE_SPAN
    requires Alloc(h, AskedBytes(size, align)).1 == Some(p) && PointerUp(align) > 0
    requires given == 4 * SizeAt(Alloc(h, AskedBytes(size, align)).0.chain, HDR, p)
    ensures AlignAddress(base + 4 * p, PointerUp(align)) <= base + 4 * p + given
            <==> PointerUp(align) - (base + 4 * p) % PointerUp(align) <= given
    ensures AlignedSize(size, align) < SIZE_SPAN || size > SIZE_SPAN - 4 ==>
              AlignAddress(base + 4 * p, PointerUp(align)) <= base + 4 * p + given
  {
    AlignAddressExact(base + 4 * p, PointerUp(align));
    GivenReaches(h, size, align, p, given);
  }

  /** It need not: 64-byte alignment and 0xFFFF_FFC4 bytes ask a new heap for 4, and where that block is
      aligned already the back pointer goes behind its end. */
  lemma BackPointerOutside(h: Heap, base: nat, p: nat)
    requires h == Empty(100) && base % 64 == 52 && Alloc(h, AskedBytes(0xFFFF_FFC4, 64)).1 == Some(p)
    ensures base + 4 * p + 4 * SizeAt(Alloc(h, 4).0.chain, HDR, p) < AlignAddress(base + 4 * p, PointerUp(64)) - 4
  {
    hide AskedBytes, PointerUp, Alloc, SizeAt, AlignAddress;
    AsksFour();
    EmptyGives(h);
    assert (base + 12) % 64 == 0;
    AlignAddressExact(base + 12, 64);
  }

  lemma AsksFour()
    ensures AskedBytes(0xFFFF_FFC4, 64) == 4 && PointerUp(64) == 64
  {
    assert AlignedWords(0xFFFF_FFC4) == 0x3FFF_FFF1 && AlignedWords(64) == 16;
  }

  /** A new heap gives 4 bytes at word 3, in a block of at most 32. */
  lemma EmptyGives(h: Heap)
    requires h == Empty(100)
    ensures Alloc(h, 4).1.Some? ==> Alloc(h, 4).1 == Some(3) && SizeAt(Alloc(h, 4).0.chain, HDR, 3) <= 8
  {
    EmptyInv(100);
    if Alloc(h, 4).1.Some? {
      AllocMeaning(h, 4);
      AllocGivesLittleMore(h, 4);
    }
  }

  /** Stores the block's address in the word before `r`. */
  method PutBackPointer(heap: SmallMem.SmallMem, base: nat, p: nat, r: nat, ghost size: nat, ghost e: Extent)
    requires heap.Valid() && Holds(heap.chain, HDR, e) && e.from == p
    requires base % 4 == 0 && r % 4 == 0 && base + 4 * p + 4 <= r && r + size <= base + 4 * e.to
    modifies heap.words
    ensures heap.Valid() && WordAt(base, r - 4) < heap.words.Length
    ensures heap.words[..] == old(heap.words[..])[WordAt(base, r - 4) := base + 4 * p]
    ensures Backed(heap.chain, heap.words[..], base, p, r, size)
  {
    BackWord(base, p, r, size, e.to);
    HeldBelow(heap.chain, HDR, e);
    UserWordIffHeld(heap.chain, HDR, WordAt(base, r - 4));
    heap.Store(WordAt(base, r - 4), base + 4 * p);
  }

  /** rt_malloc_align over the small heap. */
  method MallocAlign(heap: SmallMem.SmallMem, base: nat, size: nat, align: nat) returns (r: Option<nat>)
    requires heap.Valid() && base % 4 == 0 && PowerOfTwo(align) && AlignedSize(size, align) < SIZE_SPAN
    modifies heap, heap.words
    ensures heap.Valid() && heap.Abs() == Alloc(old(heap.Abs()), AlignedSize(size, align)).0
    ensures r.None? <==> Alloc(old(heap.Abs()), AlignedSize(size, align)).1.None?
    ensures r.Some? ==>
              var p := Alloc(old(heap.Abs()), AlignedSize(size, align)).1.value;
              IsAligned(r.value, align) && Backed(heap.chain, heap.words[..], base, p, r.value, size)
    ensures KeepsData(old(heap.chain), HDR, old(heap.words[..]), heap.words[..])
  {
    ghost var h := heap.Abs();
    var p := heap.Alloc(AlignedSize(size, align));
    if p.None? {
      return None;
    }
    var alignPtr := AlignBlock(heap, base, p.value, size, align, h);
    r := Some(alignPtr);
  }

  /** The aligned address in the block at `addr`, by the masks of the two branches. */
  method Align(addr: nat, a: nat) returns (r: nat)
    requires a > 0
    ensures r == AlignAddress(addr, a)
  {
    if addr % a == 0 {
      r := addr + a;
    } else {
      r := (addr + (a - 1)) / a * a;
    }
  }

  /** Picks the aligned address in the block just allocated at `p` and stores the back pointer. */
  method AlignBlock(heap: SmallMem.SmallMem, base: nat, p: nat, size: nat, align: nat, ghost h: Heap) returns (r: nat)
    requires heap.Valid() && base % 4 == 0 && PowerOfTwo(align) && AlignedSize(size, align) < SIZE_SPAN
    requires Inv(h) && Alloc(h, AlignedSize(size, align)) == (heap.Abs(), Some(p))
    modifies heap.words
    ensures heap.Valid() && IsAligned(r, align) && Backed(heap.chain, heap.words[..], base, p, r, size)
    ensures KeepsData(h.chain, HDR, old(heap.words[..]), heap.words[..])
  {
    hide UserWord, Backed, AlignAddress, Inv;
    ghost var e := AlignedBlock(h, base, size, align);
    hide Inv, AlignAddress, Backed, IsAligned;
    r := Align(base + 4 * p, PointerUp(align));
    PutBackPointer(heap, base, p, r, size, e);
  }

  /** rt_free_align: frees the block the back pointer names. */
  method FreeAlign(heap: SmallMem.SmallMem, base: nat, r: nat, ghost p: nat, ghost size: nat)
    requires heap.Valid() && base % 4 == 0
    requires Pointer(heap.Abs().chain, HDR, Some(p)) && Backed(heap.chain, heap.words[..], base, p, r, size)
    modifies heap, heap.words
    ensures heap.Valid() && heap.Abs() == Free(old(heap.Abs()), Some(p))
    ensures KeepsData(heap.chain, HDR, old(heap.words[..]), heap.words[..])
  {
    var realAddr := heap.words[WordAt(base, r - 4)];
    heap.Free(Some((realAddr - base) / 4));
  }
}
