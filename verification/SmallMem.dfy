/** The small-memory heap as the kernel runs it: one array of 4-byte words in which item headers
    and user data lie side by side, updated in place. Word `p` of an item holds pool_ptr, word
    `p + 1` next and word `p + 2` prev, the links counted in words from the heap's start. */
module SmallMem {
  import opened Option
  import opened BlockChain
  import opened Sizes
  import opened SmallHeap
  import opened UserData

  /** The three header words of block `i`. The closing header's prev is never kept up. */
  ghost predicate Header(w: seq<int>, c: Chain, pool: int, i: int) {
    0 <= i < |c| ==>
      && c[i].off + HDR <= |w|
      && w[c[i].off] == pool + (if c[i].used then 1 else 0)
      && w[c[i].off + 1] == (if i + 1 < |c| then c[i + 1] else c[i]).off
      && (i + 1 < |c| ==> w[c[i].off + 2] == if i == 0 then 0 else c[i - 1].off)
  }

  /** The words `w` hold exactly the headers of `c`. */
  ghost predicate InWords(w: seq<int>, c: Chain, pool: int) {
    && WellFormed(c, HDR)
    && c[0].off == 0 && c[|c| - 1].off + HDR == |w|
    && forall i :: Header(w, c, pool, i)
  }

  lemma FlagWords(w: seq<int>, c: Chain, pool: int, i: nat, used: bool)
    requires InWords(w, c, pool) && i + 1 < |c|
    ensures c[i].off + HDR <= |w|
    ensures InWords(w[c[i].off := pool + (if used then 1 else 0)], c[i := Block(c[i].off, used)], pool)
  {
    assert Header(w, c, pool, i);
    var v := w[c[i].off := pool + (if used then 1 else 0)];
    var d := c[i := Block(c[i].off, used)];
    FlagKeeps(c, HDR, i, used);
    AllIncreasing(c, HDR);
    forall k ensures Header(v, d, pool, k) {
      assert Header(w, c, pool, k);
    }
  }

  lemma DropWords(w: seq<int>, c: Chain, pool: int, k: nat)
    requires InWords(w, c, pool) && 0 < k < |c| - 1
    requires c[k + 1].off + HDR <= |w| && c[k].off < |w| && c[k - 1].off + HDR <= |w|
    ensures InWords(w[c[k].off := 0][c[k - 1].off + 1 := c[k + 1].off][c[k + 1].off + 2 := c[k - 1].off],
                    Drop(c, k), pool)
  {
    var v := w[c[k].off := 0][c[k - 1].off + 1 := c[k + 1].off][c[k + 1].off + 2 := c[k - 1].off];
    var d := Drop(c, k);
    DropKeeps(c, HDR, k);
    forall j ensures Header(v, d, pool, j) {
      if 0 <= j < |d| {
        DropHeader(w, c, pool, k, j);
      }
    }
  }

  lemma DropHeader(w: seq<int>, c: Chain, pool: int, k: nat, j: nat)
    requires InWords(w, c, pool) && 0 < k < |c| - 1 && j < |c| - 1
    requires c[k + 1].off + HDR <= |w| && c[k].off < |w| && c[k - 1].off + HDR <= |w|
    ensures Header(w[c[k].off := 0][c[k - 1].off + 1 := c[k + 1].off][c[k + 1].off + 2 := c[k - 1].off],
                   Drop(c, k), pool, j)
  {
    var s := if j < k then j else j + 1;
    assert Header(w, c, pool, s);
    Apart(c, HDR, s, k);
    if s != k - 1 { Apart(c, HDR, s, k - 1); }
    if s != k + 1 { Apart(c, HDR, s, k + 1); }
  }

  lemma InsertWords(w: seq<int>, v: seq<int>, c: Chain, pool: int, i: nat, at: nat)
    requires InWords(w, c, pool) && i + 1 < |c| && InsertedAt(w, v, c, pool, i, at)
    ensures InWords(v, Insert(c, i, at), pool)
  {
    var d := Insert(c, i, at);
    forall k ensures Room(d, HDR, k) {
      assert Room(c, HDR, k) && Room(c, HDR, k - 1);
    }
    forall j ensures Header(v, d, pool, j) {
      if 0 <= j < |d| {
        InsertHeader(w, v, c, pool, i, at, j);
      }
    }
  }

  /** `v` is `w` with a free header written at `at` inside block `i`, linked to its neighbours. */
  ghost predicate InsertedAt(w: seq<int>, v: seq<int>, c: Chain, pool: int, i: nat, at: nat)
    requires i + 1 < |c|
  {
    && |v| == |w| && c[i].off + HDR < at && at + HDR < c[i + 1].off && c[i + 1].off + HDR <= |w|
    && v[at] == pool && v[at + 1] == c[i + 1].off && v[at + 2] == c[i].off && v[c[i].off + 1] == at
    && (i + 2 < |c| ==> v[c[i + 1].off + 2] == at)
    && forall k :: 0 <= k < |w| && !(at <= k < at + HDR) && k != c[i].off + 1 && k != c[i + 1].off + 2 ==> v[k] == w[k]
  }

  lemma InsertHeader(w: seq<int>, v: seq<int>, c: Chain, pool: int, i: nat, at: nat, j: nat)
    requires InWords(w, c, pool) && i + 1 < |c| && InsertedAt(w, v, c, pool, i, at) && j <= |c|
    ensures Header(v, Insert(c, i, at), pool, j)
  {
    if j != i + 1 {
      var s := if j <= i then j else j - 1;
      assert Header(w, c, pool, s);
      if s != i { Apart(c, HDR, s, i); }
      if s != i + 1 { Apart(c, HDR, s, i + 1); }
    }
  }

  // ---------- header writes leave user data alone ----------

  lemma DropKeepsData(w: seq<int>, c: Chain, pool: int, k: nat)
    requires InWords(w, c, pool) && 0 < k < |c| - 1
    requires c[k + 1].off + HDR <= |w| && c[k].off < |w| && c[k - 1].off + HDR <= |w|
    ensures KeepsData(c, HDR, w, w[c[k].off := 0][c[k - 1].off + 1 := c[k + 1].off][c[k + 1].off + 2 := c[k - 1].off])
  {
    NotUserWord(c, HDR, k, c[k].off);
    NotUserWord(c, HDR, k - 1, c[k - 1].off + 1);
    NotUserWord(c, HDR, k + 1, c[k + 1].off + 2);
  }

  /** Writing a header at `at` inside block `i` leaves the data of the chain that has it alone. */
  lemma InsertKeepsData(w: seq<int>, v: seq<int>, c: Chain, pool: int, i: nat, at: nat)
    requires InWords(w, c, pool) && i + 1 < |c| && InsertedAt(w, v, c, pool, i, at)
    ensures KeepsData(Insert(c, i, at), HDR, w, v)
  {
    var d := Insert(c, i, at);
    InsertWords(w, v, c, pool, i, at);
    NotUserWord(d, HDR, i, c[i].off + 1);
    NotUserWord(d, HDR, i + 2, c[i + 1].off + 2);
    NotUserWord(d, HDR, i + 1, at);
    NotUserWord(d, HDR, i + 1, at + 1);
    NotUserWord(d, HDR, i + 1, at + 2);
  }

  /** Writing user data leaves every header alone. */
  lemma UserWritesKeepHeaders(w: seq<int>, v: seq<int>, c: Chain, pool: int)
    requires InWords(w, c, pool) && |v| == |w|
    requires forall k :: 0 <= k < |w| && !UserWord(c, HDR, k) ==> v[k] == w[k]
    ensures InWords(v, c, pool)
  {
    forall i ensures Header(v, c, pool, i) {
      assert Header(w, c, pool, i);
      if 0 <= i < |c| {
        NotUserWord(c, HDR, i, c[i].off);
        NotUserWord(c, HDR, i, c[i].off + 1);
        NotUserWord(c, HDR, i, c[i].off + 2);
      }
    }
  }

  lemma AllocKeepsOthers(h: Heap, size: nat, w: seq<int>, v: seq<int>)
    requires Inv(h) && KeepsData(h.chain, HDR, w, v)
    ensures KeepsOthers(Alloc(h, size).0.chain, HDR, w, v, if Alloc(h, size).1.Some? then Alloc(h, size).1.value else 0)
  {
    AllocMeaning(h, size);
    var (k, r) := Alloc(h, size);
    forall e | Holds(k.chain, HDR, e) && e.from != (if r.Some? then r.value else 0) ensures SameOn(w, v, e) {
      assert Holds(h.chain, HDR, e);
      KeptExtent(h.chain, HDR, w, v, e);
    }
  }

  /** What cutting the block at `p` needs and gives, and the block's index. */
  lemma StayReady(h: Heap, p: nat, need: nat) returns (i: nat)
    requires Inv(h) && Pointer(h.chain, HDR, Some(p)) && 0 < need != SizeAt(h.chain, HDR, p) && !Moves(h, p, need)
    ensures i + 1 < |h.chain| && HDR <= p && h.chain[i] == Block(p - HDR, true) && p + need + HDR < h.chain[i + 1].off
    ensures h.chain[i + 1].off - p == SizeAt(h.chain, HDR, p)
    ensures Stay(h, p, need) == h.(chain := Shrink(h.chain, i, p + need)) && Inv(Stay(h, p, need))
    ensures Stay(h, p, need).Used() == h.Used() - (SizeAt(h.chain, HDR, p) - need)
  {
    i := BlockAt(h.chain, HDR, p);
    PointerBlock(h.chain, HDR, p);
    StayKeeps(h, p, need);
  }

  lemma StayKeepsData(h: Heap, p: nat, need: nat, w: seq<int>, v: seq<int>)
    requires Inv(h) && Pointer(h.chain, HDR, Some(p)) && 0 < need && !Moves(h, p, need) && |w| == h.total + 2 * HDR
    requires KeepsData(Stay(h, p, need).chain, HDR, w, v)
    ensures Copied(w, v, p, p, SmallerOf(SizeAt(h.chain, HDR, p), need)) && KeepsOthers(Stay(h, p, need).chain, HDR, w, v, p)
  {
    hide Shrink;
    var k := Stay(h, p, need);
    assert HasBlock(k.chain, HDR, p, need) by { StayMeaning(h, p, need); }
    assert Inv(k) && k.total == h.total by { StayKeeps(h, p, need); }
    assert SizeAt(h.chain, HDR, p) > 0 by { PointerHasBlock(h.chain, HDR, p); }
    KeptInPlace(k.chain, HDR, p, need, w, v);
  }

  class SmallMem {
    const words: array<int>
    const pool: int    // the address of this object, which every header names
    const total: nat   // mem_size_aligned
    var lfree: nat
    var used: int
    var max: int
    ghost var chain: Chain

    /** The heap as a specification value. */
    ghost function Abs(): Heap
      reads this
    {
      Heap(chain, total, max)
    }

    /** The headers hold the chain, and lfree is the lowest free item, or heap_end. */
    ghost predicate Shape()
      reads this, words
    {
      && InWords(words[..], chain, pool)
      && words.Length == total + 2 * HDR && pool % 2 == 0
      && lfree == chain[LowestFree(chain, 0)].off
    }

    ghost predicate Valid()
      reads this, words
    {
      Shape() && Inv(Abs()) && used == Abs().Used()
    }

    constructor (total: nat, pool: int)
      requires MIN_WORDS <= total && 4 * (total + 2 * HDR) < SIZE_SPAN && pool % 2 == 0
      ensures Valid() && fresh(words) && Abs() == Empty(total)
    {
      this.total, this.pool := total, pool;
      words := new int[total + 2 * HDR];
      lfree, used, max := 0, 0, 0;
      chain := Empty(total).chain;
      new;
      var end := total + HDR;
      words[0], words[1], words[2] := pool, end, 0;
      words[end], words[end + 1], words[end + 2] := pool + 1, end, end;
      EmptyInv(total);
      assert forall i :: Header(words[..], chain, pool, i);
    }

    predicate IsUsed(p: nat)
      requires p < words.Length
      reads words
    {
      words[p] % 2 == 1
    }

    function HeapEnd(): nat {
      total + HDR
    }

    lemma AtBlock(i: nat)
      requires InWords(words[..], chain, pool) && words.Length == total + 2 * HDR && pool % 2 == 0
      requires i < |chain|
      ensures chain[i].off + HDR <= words.Length
      ensures IsUsed(chain[i].off) == chain[i].used
      ensures words[chain[i].off + 1] == chain[if i + 1 < |chain| then i + 1 else i].off
      ensures i + 1 < |chain| ==> words[chain[i].off + 2] == if i == 0 then 0 else chain[i - 1].off
      ensures chain[i].off == HeapEnd() <==> i == |chain| - 1
      ensures i + 1 < |chain| ==> chain[i].off + HDR < chain[i + 1].off
    {
      assert Header(words[..], chain, pool, i);
      if i + 1 < |chain| {
        Increasing(chain, HDR, i, |chain| - 1);
        Increasing(chain, HDR, i, i + 1);
      }
    }

    /** Takes the header at `at` out of the chain: it goes dead, and its neighbours are linked. */
    method Unlink(left: nat, at: nat, ghost k: nat)
      requires Shape() && 0 < k < |chain| - 1 && !chain[k].used && !chain[k - 1].used
      requires chain[k].off == at && chain[k - 1].off == left
      modifies this`chain, words
      ensures Shape() && chain == Drop(old(chain), k)
      ensures KeepsData(old(chain), HDR, old(words[..]), words[..])
    {
      AtBlock(k - 1);
      AtBlock(k);
      AtBlock(k + 1);
      ghost var w, c := words[..], chain;
      WriteUnlink(left, at);
      chain := Drop(c, k);
      DropWords(w, c, pool, k);
      DropKeepsData(w, c, pool, k);
      LowestDrop(c, k);
    }

    /** The three writes that take the item `at` out from between its neighbours. */
    method WriteUnlink(left: nat, at: nat)
      requires left + HDR < at && at + HDR <= words.Length
      requires at + HDR < words[at + 1] && words[at + 1] + HDR <= words.Length
      modifies words
      ensures var next := old(words[at + 1]);
              words[..] == old(words[..])[at := 0][left + 1 := next][next + 2 := left]
    {
      words[at] := 0;
      words[left + 1] := words[at + 1];
      words[words[at + 1] + 2] := left;
    }

    lemma LowestAtMost(i: nat)
      requires Shape() && i < |chain| && !chain[i].used
      ensures lfree <= chain[i].off
      ensures i + 1 < |chain| ==> lfree < chain[i + 1].off
      ensures LowestFree(chain, 0) <= i && (LowestFree(chain, 0) == i <==> lfree == chain[i].off)
    {
      AllIncreasing(chain, HDR);
    }

    /** Joins the free block `mem` with a free right neighbour. */
    method PlugForward(mem: nat, ghost i: nat)
      requires Shape() && i + 1 < |chain| && chain[i].off == mem && !chain[i].used
      modifies this`lfree, this`chain, words
      ensures Shape() && chain == JoinRight(old(chain), i)
      ensures KeepsData(old(chain), HDR, old(words[..]), words[..])
    {
      AtBlock(i);
      AtBlock(i + 1);
      LowestAtMost(i);
      var nmem := words[mem + 1];
      if mem != nmem && !IsUsed(nmem) && nmem != HeapEnd() {
        if lfree == nmem {
          assert false;  // moving lfree to mem is never needed: lfree is the lowest free item
        }
        Unlink(mem, nmem, i + 1);
      }
    }

    /** Joins the free block `mem` with a free left neighbour. */
    method PlugBackward(mem: nat, ghost i: nat)
      requires Shape() && i + 1 < |chain| && chain[i].off == mem && !chain[i].used
      modifies this`lfree, this`chain, words
      ensures Shape() && chain == JoinLeft(old(chain), i)
      ensures KeepsData(old(chain), HDR, old(words[..]), words[..])
    {
      AtBlock(i);
      if i > 0 {
        AtBlock(i - 1);
      }
      var pmem := words[mem + 2];
      if pmem != mem && !IsUsed(pmem) {
        LowestAtMost(i - 1);
        if lfree == mem {
          assert false;  // moving lfree to pmem is never needed, for the same reason
        }
        Unlink(pmem, mem, i);
      }
    }

    /** plug_holes: joins the free block `mem` with its free neighbours. */
    method PlugHoles(mem: nat, ghost i: nat)
      requires Shape() && i + 1 < |chain| && chain[i].off == mem && !chain[i].used
      modifies this`lfree, this`chain, words
      ensures Shape() && chain == Coalesce(old(chain), i)
      ensures KeepsData(old(chain), HDR, old(words[..]), words[..])
    {
      PlugForward(mem, i);
      ghost var c, w := chain, words[..];
      PlugBackward(mem, i);
      JoinRightHolds(old(chain), HDR, i);
      JoinsKeepData(old(chain), c, HDR, old(words[..]), w, words[..]);
    }

    /** Writes a free header at `at` and links it in behind the item `ptr`. */
    method LinkItem(ptr: nat, at: nat)
      requires ptr + HDR < at < words.Length == total + 2 * HDR
      requires at + HDR < words[ptr + 1] && words[ptr + 1] + HDR <= words.Length
      modifies words
      ensures var next := old(words[ptr + 1]);
              && words[at] == pool && words[at + 1] == next && words[at + 2] == ptr && words[ptr + 1] == at
              && (next != total + HDR ==> words[next + 2] == at)
      ensures forall k :: 0 <= k < words.Length && !(at <= k < at + HDR) && k != ptr + 1 && k != old(words[ptr + 1]) + 2 ==>
                words[k] == old(words[k])
    {
      words[at] := pool;
      words[at + 1] := words[ptr + 1];
      words[at + 2] := ptr;
      words[ptr + 1] := at;
      if words[at + 1] != total + HDR {
        words[words[at + 1] + 2] := at;
      }
    }

    /** Opens a free item at `at` inside block `i`, which keeps its own flag. */
    method Split(ptr: nat, at: nat, ghost i: nat)
      requires InWords(words[..], chain, pool) && words.Length == total + 2 * HDR && pool % 2 == 0
      requires i + 1 < |chain| && chain[i].off == ptr && ptr + HDR < at && at + HDR < chain[i + 1].off
      modifies this`chain, words
      ensures InWords(words[..], chain, pool) && chain == Insert(old(chain), i, at)
      ensures KeepsData(chain, HDR, old(words[..]), words[..])
    {
      ghost var w := words[..];
      assert Header(w, chain, pool, i) && Header(w, chain, pool, i + 1);
      if i + 1 < |chain| - 1 {
        Increasing(chain, HDR, i + 1, |chain| - 1);
      }
      hide InWords, WellFormed, KeepsData, Insert;
      LinkItem(ptr, at);
      assert InsertedAt(w, words[..], chain, pool, i, at);
      InsertWords(w, words[..], chain, pool, i, at);
      InsertKeepsData(w, words[..], chain, pool, i, at);
      chain := Insert(chain, i, at);
    }

    /** Moves lfree from a used item to the next free one, or to heap_end. */
    method AdvanceLowest(ghost k: nat)
      requires InWords(words[..], chain, pool) && words.Length == total + 2 * HDR && pool % 2 == 0
      requires k < |chain| && chain[k].off == lfree && forall j :: 0 <= j < k ==> chain[j].used
      modifies this`lfree
      ensures Shape()
    {
      ghost var m := k;
      AtBlock(m);
      while IsUsed(lfree) && lfree != HeapEnd()
        invariant m < |chain| && chain[m].off == lfree && lfree + HDR <= words.Length
        invariant forall j :: 0 <= j < m ==> chain[j].used
        decreases |chain| - m
      {
        AtBlock(m);
        lfree := words[lfree + 1];
        m := m + 1;
        AtBlock(m);
      }
      AtBlock(m);
    }

    /** Marks the free item `ptr` used. */
    method MarkUsed(ptr: nat, ghost i: nat)
      requires InWords(words[..], chain, pool) && words.Length == total + 2 * HDR && pool % 2 == 0
      requires i + 1 < |chain| && chain[i].off == ptr
      modifies this`chain, words
      ensures InWords(words[..], chain, pool) && chain == old(chain)[i := Block(ptr, true)]
      ensures KeepsData(old(chain), HDR, old(words[..]), words[..])
    {
      AtBlock(i);
      FlagWords(words[..], chain, pool, i, true);
      NotUserWord(chain, HDR, i, ptr);
      words[ptr] := pool + 1;
      assert words[..] == old(words[..])[ptr := pool + 1];
      chain := chain[i := Block(ptr, true)];
    }

    /** Moves lfree on when block `i` was the lowest free one of `c` and is used now. */
    method SettleLowest(ptr: nat, ghost i: nat, ghost c: Chain)
      requires InWords(words[..], chain, pool) && words.Length == total + 2 * HDR && pool % 2 == 0
      requires WellFormed(c, HDR) && i < |c| - 1 && i < |chain| && !c[i].used && c[i].off == ptr
      requires chain[..i] == c[..i] && chain[i].off == ptr && lfree == c[LowestFree(c, 0)].off
      modifies this`lfree
      ensures Shape()
    {
      ghost var m := LowestFree(c, 0);
      if m < i {
        Increasing(c, HDR, m, i);
      }
      assert forall j :: 0 <= j < i ==> chain[j] == chain[..i][j] && c[j] == c[..i][j];
      if ptr == lfree {
        AdvanceLowest(i);
      }
    }

    /** Splits the free item `ptr` when what `need` leaves over can be an item; counts it used. */
    method Open(ptr: nat, need: nat, ghost i: nat)
      requires InWords(words[..], chain, pool) && words.Length == total + 2 * HDR && pool % 2 == 0
      requires Fits(chain, HDR, need, i) && chain[i].off == ptr && MIN_WORDS <= need
      modifies this`chain, this`used, words
      ensures InWords(words[..], chain, pool)
      ensures chain == if Fits(old(chain), HDR, need + HDR + MIN_WORDS, i) then Insert(old(chain), i, ptr + HDR + need)
                       else old(chain)
      ensures used == old(used) + (chain[i + 1].off - ptr)
      ensures KeepsData(old(chain), HDR, old(words[..]), words[..])
    {
      AtBlock(i);
      if words[ptr + 1] - (ptr + HDR) >= need + HDR + MIN_WORDS {
        InsertHolds(chain, HDR, i, ptr + HDR + need);
        Split(ptr, ptr + HDR + need, i);
        used := used + (need + HDR);
        SameUserWords(old(chain), chain, HDR);
      } else {
        used := used + (words[ptr + 1] - ptr);
      }
    }

    /** Uses the free item `ptr` for `need` words; lfree may be left on it. */
    method OpenAndMark(ptr: nat, need: nat, ghost i: nat)
      requires InWords(words[..], chain, pool) && words.Length == total + 2 * HDR && pool % 2 == 0
      requires Fits(chain, HDR, need, i) && chain[i].off == ptr && MIN_WORDS <= need
      modifies this`chain, this`used, this`max, words
      ensures InWords(words[..], chain, pool) && chain == Occupy(old(chain), HDR, MIN_WORDS, need, i)
      ensures i + 1 < |chain| && used == old(used) + (chain[i + 1].off - ptr) && max == Larger(old(max), used)
      ensures KeepsData(old(chain), HDR, old(words[..]), words[..])
    {
      Open(ptr, need, i);
      if max < used {
        max := used;
      }
      ghost var d, w := chain, words[..];
      MarkUsed(ptr, i);
      if d != old(chain) {
        InsertHolds(old(chain), HDR, i, ptr + HDR + need);
      }
      JoinsKeepData(old(chain), d, HDR, old(words[..]), w, words[..]);
    }

    /** Takes the free item `ptr` for `need` words and moves lfree past it. */
    method Claim(ptr: nat, need: nat, ghost i: nat)
      requires Valid() && Fits(chain, HDR, need, i) && chain[i].off == ptr && MIN_WORDS <= need
      modifies this, words
      ensures Shape() && Abs() == Take(old(Abs()), need, i) && used == Abs().Used()
      ensures KeepsData(old(chain), HDR, old(words[..]), words[..])
    {
      OccupyTotal(chain, HDR, MIN_WORDS, need, i);
      OpenAndMark(ptr, need, i);
      SettleLowest(ptr, i, old(chain));
    }

    /** The first item from lfree on that is free and large enough, or heap_end when the scan passes
        the last offset that could hold the request. */
    method FindFit(need: nat) returns (ptr: nat, ghost i: nat)
      requires Valid() && need <= total
      ensures i == FirstFit(chain, HDR, need, 0) && i < |chain|
      ensures if i == |chain| - 1 then ptr > total - need else ptr == chain[i].off <= total - need
    {
      ptr, i := lfree, LowestFree(chain, 0);
      while ptr <= total - need
        invariant i < |chain| && chain[i].off == ptr
        invariant forall j :: 0 <= j < i ==> !Fits(chain, HDR, need, j)
        decreases |chain| - i
      {
        AtBlock(i);
        if !IsUsed(ptr) && words[ptr + 1] - (ptr + HDR) >= need {
          assert Fits(chain, HDR, need, i);
          return;
        }
        ptr := words[ptr + 1];
        i := i + 1;
      }
      forall j | i <= j < |chain| ensures !Fits(chain, HDR, need, j) {
        PastEnd(j, i, ptr, need);
      }
      i := |chain| - 1;
    }

    lemma PastEnd(j: nat, i: nat, ptr: nat, need: nat)
      requires Valid() && i <= j < |chain| && chain[i].off == ptr && ptr + need > total
      ensures !Fits(chain, HDR, need, j)
    {
      if i < j {
        Increasing(chain, HDR, i, j);
      }
      if j + 1 < |chain| - 1 {
        Increasing(chain, HDR, j + 1, |chain| - 1);
      }
    }

    /** rt_smem_alloc. */
    method Alloc(size: nat) returns (r: Option<nat>)
      requires Valid()
      modifies this, words
      ensures Valid() && (Abs(), r) == SmallHeap.Alloc(old(Abs()), size)
      ensures r.None? ==> words[..] == old(words[..])
      ensures KeepsData(old(chain), HDR, old(words[..]), words[..])
    {
      if size == 0 {
        return None;
      }
      var need := AlignedWords(size);
      if need > total {
        return None;
      }
      if need < MIN_WORDS {
        need := MIN_WORDS;
      }
      var ptr;
      ghost var i;
      ptr, i := FindFit(need);
      if ptr > total - need {
        return None;
      }
      TakeKeeps(Abs(), need, i);
      Claim(ptr, need, i);
      return Some(ptr + HDR);
    }

    /** Marks the used item `ptr` free. */
    method MarkFree(ptr: nat, ghost i: nat)
      requires InWords(words[..], chain, pool) && words.Length == total + 2 * HDR && pool % 2 == 0
      requires i + 1 < |chain| && chain[i].off == ptr
      modifies this`chain, words
      ensures InWords(words[..], chain, pool) && chain == old(chain)[i := Block(ptr, false)]
      ensures KeepsData(old(chain), HDR, old(words[..]), words[..])
    {
      AtBlock(i);
      FlagWords(words[..], chain, pool, i, false);
      NotUserWord(chain, HDR, i, ptr);
      words[ptr] := pool;
      assert words[..] == old(words[..])[ptr := pool];
      chain := chain[i := Block(ptr, false)];
    }

    /** Lowers lfree to the free item `ptr` when that is the lowest one now. */
    method LowerLowest(ptr: nat, ghost i: nat, ghost c: Chain)
      requires InWords(words[..], chain, pool) && words.Length == total + 2 * HDR && pool % 2 == 0
      requires i + 1 < |chain| && chain[i].off == ptr && !chain[i].used
      requires i < |c| && chain[..i] == c[..i] && lfree == c[LowestFree(c, 0)].off
      requires forall j :: i <= j < |c| ==> c[j].off > ptr || (j == i < |c| - 1 && c[j].used)
      modifies this`lfree
      ensures Shape()
    {
      ghost var m := LowestFree(c, 0);
      assert forall j :: 0 <= j < i ==> chain[j] == chain[..i][j] && c[j] == c[..i][j];
      if m < i {
        Increasing(chain, HDR, m, i);
      }
      if ptr < lfree {
        lfree := ptr;
      }
    }

    /** Marks the used item `mem` free and lowers lfree to it when it is the lowest now. */
    method FreeItem(mem: nat, ghost i: nat)
      requires Shape() && i + 1 < |chain| && chain[i].off == mem && chain[i].used
      modifies this`lfree, this`chain, this`used, words
      ensures Shape() && chain == old(chain)[i := Block(mem, false)]
      ensures used == old(used) - (old(chain)[i + 1].off - mem)
      ensures KeepsData(old(chain), HDR, old(words[..]), words[..])
    {
      MarkFree(mem, i);
      AllIncreasing(old(chain), HDR);
      LowerLowest(mem, i, old(chain));
      AtBlock(i);
      used := used - (words[mem + 1] - mem);
    }

    /** Frees the used item `mem` and joins it with its free neighbours. */
    method ReleaseItem(mem: nat, ghost i: nat)
      requires Shape() && i + 1 < |chain| && chain[i].off == mem && chain[i].used
      modifies this`lfree, this`chain, this`used, words
      ensures Shape() && chain == Release(old(chain), i)
      ensures used == old(used) - (old(chain)[i + 1].off - mem)
      ensures KeepsData(chain, HDR, old(words[..]), words[..])
    {
      ReleaseShrinksHolds(chain, HDR, i);
      FreeItem(mem, i);
      ghost var d, w := chain, words[..];
      PlugHoles(mem, i);
      JoinsKeepData(chain, old(chain), HDR, old(words[..]), old(words[..]), w);
      JoinsKeepData(chain, d, HDR, old(words[..]), w, words[..]);
    }

    /** rt_smem_free. */
    method Free(rmem: Option<nat>)
      requires Valid() && Pointer(chain, HDR, rmem)
      modifies this`lfree, this`chain, this`used, words
      ensures Valid() && Abs() == SmallHeap.Free(old(Abs()), rmem)
      ensures KeepsData(chain, HDR, old(words[..]), words[..])
    {
      if rmem.None? {
        return;
      }
      PointerBlock(chain, HDR, rmem.value);
      FreeKeeps(Abs(), rmem);
      ReleaseItem(rmem.value - HDR, BlockAt(chain, HDR, rmem.value));
    }

    /** Opens a free item at `at` inside the used item `mem`, lowering lfree when it is the lowest. */
    method CutItem(mem: nat, at: nat, ghost i: nat)
      requires Shape() && i + 1 < |chain| && chain[i].off == mem && chain[i].used
      requires mem + HDR < at && at + HDR < chain[i + 1].off
      modifies this`lfree, this`chain, this`used, words
      ensures Shape() && chain == Carve(old(chain), i, at) && i + 2 < |chain| && chain[i + 1] == Block(at, false)
      ensures used == old(used) - (old(chain)[i + 1].off - at)
      ensures KeepsData(chain, HDR, old(words[..]), words[..])
    {
      AtBlock(i);
      used := used - ((words[mem + 1] - mem - HDR) - (at - mem - HDR));
      ghost var c := chain;
      Split(mem, at, i);
      assert chain == Carve(c, i, at);
      AllIncreasing(c, HDR);
      LowerLowest(at, i + 1, c);
    }

    /** Cuts the used item `mem` short at `at` and frees what is behind. */
    method ShrinkItem(mem: nat, at: nat, ghost i: nat)
      requires Shape() && i + 1 < |chain| && chain[i].off == mem && chain[i].used
      requires mem + HDR < at && at + HDR < chain[i + 1].off
      modifies this`lfree, this`chain, this`used, words
      ensures Shape() && chain == Shrink(old(chain), i, at)
      ensures used == old(used) - (old(chain)[i + 1].off - at)
      ensures KeepsData(chain, HDR, old(words[..]), words[..])
    {
      CutItem(mem, at, i);
      ghost var d, w := chain, words[..];
      PlugHoles(at, i + 1);
      CoalesceKeepsData(d, HDR, i + 1, old(words[..]), w, words[..]);
    }

    /** Copies the first `n` words of the block at `src` into the block at `dst`. */
    method CopyData(dst: nat, src: nat, n: nat)
      requires Valid() && HasBlock(chain, HDR, dst, n) && HasBlock(chain, HDR, src, n) && dst != src
      modifies words
      ensures Valid() && Copied(old(words[..]), words[..], src, dst, n)
      ensures KeepsOthers(chain, HDR, old(words[..]), words[..], dst)
    {
      ghost var w := words[..];
      CopyBlock(words, chain, HDR, dst, src, n);
      UserWritesKeepHeaders(w, words[..], chain, pool);
    }

    /** Copies `n` words of the block at `p` into the block at `r`, then frees the first. */
    method CopyAndFree(p: nat, r: nat, n: nat)
      requires Valid() && Pointer(chain, HDR, Some(p)) && HasBlock(chain, HDR, p, n) && HasBlock(chain, HDR, r, n) && p != r
      modifies this`lfree, this`chain, this`used, words
      ensures Valid() && Abs() == SmallHeap.Free(old(Abs()), Some(p))
      ensures Copied(old(words[..]), words[..], p, r, n) && KeepsOthers(chain, HDR, old(words[..]), words[..], r)
    {
      ghost var h := Abs();
      CopyData(r, p, n);
      ghost var v := words[..];
      Free(Some(p));
      forall e ensures Holds(chain, HDR, e) <==> Holds(h.chain, HDR, e) && e.from != p {
        FreeMeaning(h, p, e);
      }
      FreeKeepsCopy(h.chain, chain, HDR, p, r, n, old(words[..]), v, words[..]);
    }

    /** Realloc by moving: allocate, copy what fits, free the old block. */
    method MoveItem(p: nat, need: nat) returns (r: Option<nat>)
      requires Valid() && Pointer(chain, HDR, Some(p)) && 0 < need <= total
      modifies this, words
      ensures Valid() && (Abs(), r) == Move(old(Abs()), p, need)
      ensures r.None? ==> words[..] == old(words[..])
      ensures r.Some? ==>
                && Copied(old(words[..]), words[..], p, r.value, SmallerOf(old(SizeAt(chain, HDR, p)), need))
                && KeepsOthers(chain, HDR, old(words[..]), words[..], r.value)
    {
      hide Holds, SizeAt, Pointer, HasBlock;
      var size := DataWords(p);
      ghost var h := Abs();
      r := Alloc(4 * need);
      if r.Some? {
        ghost var v := words[..];
        MoveReady(h, p, need);
        CopyAndFree(p, r.value, SmallerOf(size, need));
        MoveMeaning(h, p, need);
        AllocKeepsCopy(h.chain, chain, HDR, p, r.value, SmallerOf(size, need), old(words[..]), v, words[..]);
      }
    }

    /** The data words of the block at `p`, read off its header. */
    method DataWords(p: nat) returns (size: nat)
      requires Valid() && Pointer(chain, HDR, Some(p))
      ensures size == SizeAt(chain, HDR, p) > 0
    {
      PointerBlock(chain, HDR, p);
      AtBlock(BlockAt(chain, HDR, p));
      size := words[p - HDR + 1] - p;
    }

    /** Realloc in place: the item is cut to `need` words. */
    method CutTo(p: nat, need: nat)
      requires Valid() && Pointer(chain, HDR, Some(p)) && 0 < need != SizeAt(chain, HDR, p) && !Moves(Abs(), p, need)
      modifies this`lfree, this`chain, this`used, words
      ensures Valid() && Abs() == Stay(old(Abs()), p, need)
      ensures KeepsData(chain, HDR, old(words[..]), words[..])
    {
      hide Inv, InWords, BlockAt, SizeAt, Pointer, Shrink, Stay, KeepsData;
      ghost var h := Abs();
      ghost var i := StayReady(h, p, need);
      ShrinkItem(p - HDR, p + need, i);
      assert Abs() == Stay(h, p, need);
    }

    /** Realloc without moving: the size is the same, or the item can be cut to it. */
    method StayItem(p: nat, need: nat)
      requires Valid() && Pointer(chain, HDR, Some(p)) && 0 < need && !Moves(Abs(), p, need)
      modifies this`lfree, this`chain, this`used, words
      ensures Valid() && Abs() == Stay(old(Abs()), p, need)
      ensures KeepsData(chain, HDR, old(words[..]), words[..])
    {
      var size := DataWords(p);
      if size == need {
        return;
      }
      CutTo(p, need);
    }

    /** rt_smem_realloc. */
    method Realloc(rmem: Option<nat>, newsize: nat) returns (r: Option<nat>)
      requires Valid() && Pointer(chain, HDR, rmem)
      modifies this, words
      ensures Valid() && (Abs(), r) == SmallHeap.Realloc(old(Abs()), rmem, newsize)
      ensures r.None? && AlignedWords(newsize) != 0 ==> words[..] == old(words[..])
      ensures r.Some? && rmem.Some? ==>
                Copied(old(words[..]), words[..], rmem.value, r.value,
                       SmallerOf(old(SizeAt(chain, HDR, rmem.value)), AlignedWords(newsize)))
      ensures KeepsOthers(chain, HDR, old(words[..]), words[..], if r.Some? then r.value else 0)
    {
      var need := AlignedWords(newsize);
      if need > total {
        return None;
      } else if need == 0 {
        Free(rmem);
        KeptOthers(chain, HDR, old(words[..]), words[..], 0);
        return None;
      }
      if rmem.None? {
        r := Alloc(4 * need);
        AllocKeepsOthers(old(Abs()), 4 * need, old(words[..]), words[..]);
        return;
      }
      var size := DataWords(rmem.value);
      if size != need && need + HDR + MIN_WORDS >= size {
        r := MoveItem(rmem.value, need);
      } else {
        StayItem(rmem.value, need);
        r := rmem;
        StayKeepsData(old(Abs()), rmem.value, need, old(words[..]), words[..]);
      }
    }

    /** A caller writing into its own block. */
    method Store(k: nat, x: int)
      requires Valid() && k < words.Length && UserWord(chain, HDR, k)
      modifies words
      ensures Valid() && words[..] == old(words[..])[k := x]
    {
      ghost var w := words[..];
      words[k] := x;
      assert words[..] == w[k := x];
      UserWritesKeepHeaders(w, words[..], chain, pool);
    }
  }
}
