/** The block structure both heap allocators keep: a strictly increasing list of headers, each
    owning the data words up to the next header, closed by a header that is always in use.
    Offsets and sizes count machine words; `hdr` is the length of a header. */
module BlockChain {
  import opened Option

  datatype Block = Block(off: nat, used: bool)
  type Chain = seq<Block>

  /** The data words a used block owns: `from` up to but not including `to`. */
  datatype Extent = Extent(from: nat, to: nat)

  /** Block `i` has room for its header and at least one data word. */
  ghost predicate Room(c: Chain, hdr: nat, i: int) {
    0 <= i < |c| - 1 ==> c[i].off + hdr < c[i + 1].off
  }

  /** Every block but the last owns at least one data word; the last closes the heap. */
  ghost predicate WellFormed(c: Chain, hdr: nat) {
    && 2 <= |c|
    && c[|c| - 1].used
    && forall i :: Room(c, hdr, i)
  }

  /** Headers of a well-formed chain, however far apart, leave room between them. */
  lemma {:induction false} Increasing(c: Chain, hdr: nat, i: nat, j: nat)
    requires WellFormed(c, hdr) && i < j < |c|
    ensures c[i].off + hdr < c[j].off
    decreases j
  {
    assert Room(c, hdr, j - 1);
    if i < j - 1 {
      Increasing(c, hdr, i, j - 1);
    }
  }

  lemma Apart(c: Chain, hdr: nat, i: nat, j: nat)
    requires WellFormed(c, hdr) && i < |c| && j < |c| && i != j
    ensures if i < j then c[i].off + hdr < c[j].off else c[j].off + hdr < c[i].off
  {
    Increasing(c, hdr, if i < j then i else j, if i < j then j else i);
  }

  lemma AllIncreasing(c: Chain, hdr: nat)
    requires WellFormed(c, hdr)
    ensures forall i, j :: 0 <= i < j < |c| ==> c[i].off + hdr < c[j].off
  {
    forall i, j | 0 <= i < j < |c| ensures c[i].off + hdr < c[j].off {
      Increasing(c, hdr, i, j);
    }
  }

  ghost predicate FreePair(c: Chain, i: int) {
    0 <= i < |c| - 1 && !c[i].used && !c[i + 1].used
  }

  /** No free block has a free right neighbour. */
  ghost predicate NoTwoFree(c: Chain) {
    forall i :: !FreePair(c, i)
  }

  predicate Fits(c: Chain, hdr: nat, need: nat, i: nat) {
    i + 1 < |c| && !c[i].used && c[i].off + hdr + need <= c[i + 1].off
  }

  /** The first block from `k` on that fits, or the closing block when none does. */
  function FirstFit(c: Chain, hdr: nat, need: nat, k: nat): (r: nat)
    requires k < |c|
    ensures k <= r < |c|
    ensures r < |c| - 1 ==> Fits(c, hdr, need, r)
    ensures forall i :: k <= i < r ==> !Fits(c, hdr, need, i)
    decreases |c| - k
  {
    if k == |c| - 1 || Fits(c, hdr, need, k) then k else FirstFit(c, hdr, need, k + 1)
  }

  /** The first free block from `k` on, or the closing block when all are used. */
  function LowestFree(c: Chain, k: nat): (r: nat)
    requires k < |c|
    ensures k <= r < |c|
    ensures r < |c| - 1 ==> !c[r].used
    ensures forall i :: k <= i < r ==> c[i].used
    decreases |c| - k
  {
    if k == |c| - 1 || !c[k].used then k else LowestFree(c, k + 1)
  }

  /** What is being added up: whole extents of used blocks, or data words of free ones. */
  datatype Measure = UsedExtent | FreeData(hdr: nat)

  function Weight(m: Measure, b: Block, next: nat): int {
    match m
    case UsedExtent => if b.used then next - b.off else 0
    case FreeData(hdr) => if b.used then 0 else next - b.off - hdr
  }

  function Sum(m: Measure, c: Chain, lo: nat, hi: nat): int
    requires lo <= hi < |c|
    decreases hi - lo
  {
    if lo == hi then 0 else Weight(m, c[lo], c[lo + 1].off) + Sum(m, c, lo + 1, hi)
  }

  /** The total over every block before the closing one. */
  function Total(m: Measure, c: Chain): int {
    if c == [] then 0 else Sum(m, c, 0, |c| - 1)
  }

  function Drop(c: Chain, k: nat): Chain
    requires k < |c|
  {
    c[..k] + c[k + 1..]
  }

  function JoinRight(c: Chain, i: nat): Chain
    requires i + 1 < |c|
  {
    if c[i + 1].used then c else Drop(c, i + 1)
  }

  function JoinLeft(c: Chain, i: nat): Chain
    requires i < |c|
  {
    if i == 0 || c[i - 1].used then c else Drop(c, i)
  }

  /** Joins the free block `i` with a free right neighbour, then with a free left neighbour. */
  function Coalesce(c: Chain, i: nat): Chain
    requires i + 1 < |c|
  {
    JoinLeft(JoinRight(c, i), i)
  }

  /** Frees block `i`. */
  function Release(c: Chain, i: nat): Chain
    requires i + 1 < |c|
  {
    Coalesce(c[i := Block(c[i].off, false)], i)
  }

  /** Marks block `i` used and opens a free block at offset `at` inside it. */
  function Carve(c: Chain, i: nat, at: nat): Chain
    requires i < |c|
  {
    c[..i] + [Block(c[i].off, true), Block(at, false)] + c[i + 1..]
  }

  /** A chain with a new free block at `at` inside block `i`. */
  ghost function Insert(c: Chain, i: nat, at: nat): Chain
    requires i < |c|
  {
    c[..i + 1] + [Block(at, false)] + c[i + 1..]
  }

  /** Uses block `i` for `need` data words, splitting it when the rest could hold a header
      and `min` data words. */
  function Occupy(c: Chain, hdr: nat, min: nat, need: nat, i: nat): Chain
    requires i + 1 < |c|
  {
    if Fits(c, hdr, need + hdr + min, i) then Carve(c, i, c[i].off + hdr + need)
    else c[i := Block(c[i].off, true)]
  }

  /** Cuts the used block `i` short at `at` and frees what is behind it. */
  function Shrink(c: Chain, i: nat, at: nat): Chain
    requires i + 1 < |c|
  {
    Coalesce(Carve(c, i, at), i + 1)
  }

  ghost predicate Owns(c: Chain, hdr: nat, e: Extent, i: int) {
    0 <= i < |c| - 1 && c[i].used && e == Extent(c[i].off + hdr, c[i + 1].off)
  }

  /** `e` is the data of some used block. */
  ghost predicate Holds(c: Chain, hdr: nat, e: Extent) {
    exists i :: Owns(c, hdr, e, i)
  }

  // ---------- how the sums change ----------

  lemma {:induction false} SumSplit(m: Measure, c: Chain, lo: nat, mid: nat, hi: nat)
    requires lo <= mid <= hi < |c|
    ensures Sum(m, c, lo, hi) == Sum(m, c, lo, mid) + Sum(m, c, mid, hi)
    decreases mid - lo
  {
    if lo < mid {
      SumSplit(m, c, lo + 1, mid, hi);
    }
  }

  /** Windows that agree have the same sum, wherever they sit. */
  lemma {:induction false} SumAgrees(m: Measure, c: Chain, lo: nat, d: Chain, at: nat, n: nat)
    requires lo + n < |c| && at + n < |d|
    requires forall k :: lo <= k < lo + n ==> c[k] == d[at + (k - lo)]
    requires c[lo + n].off == d[at + n].off
    ensures Sum(m, c, lo, lo + n) == Sum(m, d, at, at + n)
    decreases n
  {
    if n > 0 {
      assert c[lo] == d[at + (lo - lo)];
      if n > 1 {
        assert c[lo + 1] == d[at + (lo + 1 - lo)];
      }
      forall k | lo + 1 <= k < lo + n ensures c[k] == d[at + 1 + (k - (lo + 1))] {
        assert c[k] == d[at + (k - lo)];
      }
      SumAgrees(m, c, lo + 1, d, at + 1, n - 1);
    }
  }

  /** Rewriting the blocks `i..j` of `c` into the blocks `i..k` of `d` moves the total by the
      difference of those two windows. */
  lemma {:induction false} TotalRewrite(m: Measure, c: Chain, d: Chain, i: nat, j: nat, k: nat)
    requires i <= j < |c| && i <= k < |d| && |c| - j == |d| - k
    requires c[..i] == d[..i] && c[i].off == d[i].off && c[j..] == d[k..]
    ensures Total(m, d) == Total(m, c) - Sum(m, c, i, j) + Sum(m, d, i, k)
  {
    SumSplit(m, c, 0, i, |c| - 1);
    SumSplit(m, c, i, j, |c| - 1);
    SumSplit(m, d, 0, i, |d| - 1);
    SumSplit(m, d, i, k, |d| - 1);
    forall x | 0 <= x < i ensures c[x] == d[0 + (x - 0)] {
      assert c[x] == c[..i][x] && d[x] == d[..i][x];
    }
    SumAgrees(m, c, 0, d, 0, i);
    forall x | j <= x < |c| ensures c[x] == d[k + (x - j)] {
      assert c[x] == c[j..][x - j] && d[k + (x - j)] == d[k..][x - j];
    }
    SumAgrees(m, c, j, d, k, |c| - 1 - j);
  }

  // ---------- one rewrite at a time ----------

  /** Only block `i` may have free neighbours. */
  ghost predicate NoTwoFreeBut(c: Chain, i: int) {
    forall a :: FreePair(c, a) ==> a == i || a == i - 1
  }

  lemma DropKeeps(c: Chain, hdr: nat, k: nat)
    requires WellFormed(c, hdr) && 0 < k < |c| - 1
    ensures WellFormed(Drop(c, k), hdr)
  {
    var d := Drop(c, k);
    forall i ensures Room(d, hdr, i) {
      assert Room(c, hdr, i) && Room(c, hdr, i + 1);
    }
  }

  /** Dropping a free block behind a free block changes no used block's data. */
  lemma DropHolds(c: Chain, hdr: nat, k: nat, e: Extent)
    requires 0 < k < |c| - 1 && !c[k].used && !c[k - 1].used
    ensures Holds(Drop(c, k), hdr, e) <==> Holds(c, hdr, e)
  {
    var d := Drop(c, k);
    if Holds(d, hdr, e) {
      var i :| Owns(d, hdr, e, i);
      assert Owns(c, hdr, e, if i < k then i else i + 1);
    }
    if Holds(c, hdr, e) {
      var i :| Owns(c, hdr, e, i);
      assert Owns(d, hdr, e, if i < k then i else i - 1);
    }
  }

  lemma DropTotal(m: Measure, c: Chain, k: nat)
    requires 0 < k < |c| - 1 && !c[k].used && !c[k - 1].used
    ensures Total(m, Drop(c, k)) == Total(m, c) + (if m.FreeData? then m.hdr else 0)
  {
    var d := Drop(c, k);
    assert c[..k - 1] == d[..k - 1] && c[k + 1..] == d[k..];
    TotalRewrite(m, c, d, k - 1, k + 1, k);
    SumSplit(m, c, k - 1, k, k + 1);
    assert d[k] == c[k + 1];
  }

  lemma CarveKeeps(c: Chain, hdr: nat, i: nat, at: nat)
    requires WellFormed(c, hdr) && i + 1 < |c|
    requires c[i].off + hdr < at && at + hdr < c[i + 1].off
    ensures WellFormed(Carve(c, i, at), hdr)
  {
    var d := Carve(c, i, at);
    forall a ensures Room(d, hdr, a) {
      assert Room(c, hdr, a) && Room(c, hdr, a - 1);
    }
  }

  lemma CarveHolds(c: Chain, hdr: nat, i: nat, at: nat, e: Extent)
    requires WellFormed(c, hdr) && i + 1 < |c|
    ensures Holds(Carve(c, i, at), hdr, e) <==>
            e == Extent(c[i].off + hdr, at) || (Holds(c, hdr, e) && e.from != c[i].off + hdr)
  {
    hide Sum;
    var d := Carve(c, i, at);
    AllIncreasing(c, hdr);
    if Holds(d, hdr, e) {
      var k :| Owns(d, hdr, e, k);
      if k < i {
        assert Owns(c, hdr, e, k);
      } else if k > i {
        assert k > i + 1;
        assert d[k] == c[k - 1] && d[k + 1] == c[k];
        assert Owns(c, hdr, e, k - 1);
      }
    }
    if e == Extent(c[i].off + hdr, at) {
      assert Owns(d, hdr, e, i);
    } else if Holds(c, hdr, e) && e.from != c[i].off + hdr {
      CarveStillHolds(c, hdr, i, at, e);
    }
  }

  lemma CarveStillHolds(c: Chain, hdr: nat, i: nat, at: nat, e: Extent)
    requires i + 1 < |c| && Holds(c, hdr, e) && e.from != c[i].off + hdr
    ensures Holds(Carve(c, i, at), hdr, e)
  {
    var d := Carve(c, i, at);
    var k :| Owns(c, hdr, e, k);
    if k < i {
      assert Owns(d, hdr, e, k);
    } else {
      assert d[k + 1] == c[k] && d[k + 2] == c[k + 1];
      assert Owns(d, hdr, e, k + 1);
    }
  }

  lemma CarveTotal(m: Measure, c: Chain, i: nat, at: nat)
    requires i + 1 < |c|
    ensures Total(m, Carve(c, i, at))
         == Total(m, c) - Weight(m, c[i], c[i + 1].off)
            + Weight(m, Block(c[i].off, true), at) + Weight(m, Block(at, false), c[i + 1].off)
  {
    var d := Carve(c, i, at);
    assert c[..i] == d[..i] && c[i + 1..] == d[i + 2..];
    TotalRewrite(m, c, d, i, i + 1, i + 2);
    SumSplit(m, d, i, i + 1, i + 2);
    assert d[i + 2] == c[i + 1];
  }

  lemma FlagKeeps(c: Chain, hdr: nat, i: nat, used: bool)
    requires WellFormed(c, hdr) && i + 1 < |c|
    ensures WellFormed(c[i := Block(c[i].off, used)], hdr)
  {
    var d := c[i := Block(c[i].off, used)];
    forall a ensures Room(d, hdr, a) {
      assert Room(c, hdr, a);
    }
  }

  lemma FlagHolds(c: Chain, hdr: nat, i: nat, used: bool, e: Extent)
    requires WellFormed(c, hdr) && i + 1 < |c|
    ensures Holds(c[i := Block(c[i].off, used)], hdr, e) <==>
            (used && e == Extent(c[i].off + hdr, c[i + 1].off)) || (Holds(c, hdr, e) && e.from != c[i].off + hdr)
  {
    var d := c[i := Block(c[i].off, used)];
    AllIncreasing(c, hdr);
    assert used ==> Owns(d, hdr, Extent(c[i].off + hdr, c[i + 1].off), i);
    if Holds(d, hdr, e) {
      var k :| Owns(d, hdr, e, k);
      assert k != i ==> Owns(c, hdr, e, k);
    }
    if Holds(c, hdr, e) && e.from != c[i].off + hdr {
      var k :| Owns(c, hdr, e, k);
      assert Owns(d, hdr, e, k);
    }
  }

  lemma FlagTotal(m: Measure, c: Chain, i: nat, used: bool)
    requires i + 1 < |c|
    ensures Total(m, c[i := Block(c[i].off, used)])
         == Total(m, c) - Weight(m, c[i], c[i + 1].off) + Weight(m, Block(c[i].off, used), c[i + 1].off)
  {
    var d := c[i := Block(c[i].off, used)];
    assert c[..i] == d[..i] && c[i + 1..] == d[i + 1..];
    TotalRewrite(m, c, d, i, i + 1, i + 1);
  }

  // ---------- joining neighbours ----------

  ghost predicate SameEnds(c: Chain, d: Chain) {
    c != [] && d != [] && c[0].off == d[0].off && c[|c| - 1] == d[|d| - 1]
  }

  lemma JoinRightKeeps(c: Chain, hdr: nat, i: nat)
    requires WellFormed(c, hdr) && i + 1 < |c| && !c[i].used && NoTwoFreeBut(c, i)
    ensures WellFormed(JoinRight(c, i), hdr) && NoTwoFreeBut(JoinRight(c, i), i) && SameEnds(c, JoinRight(c, i))
    ensures i + 1 < |JoinRight(c, i)| && JoinRight(c, i)[i + 1].used && !JoinRight(c, i)[i].used
  {
    if !c[i + 1].used {
      DropKeeps(c, hdr, i + 1);
      var d := Drop(c, i + 1);
      assert !FreePair(c, i + 1);
      forall a | FreePair(d, a) ensures a == i || a == i - 1 {
        assert a < i ==> FreePair(c, a);
        assert a > i ==> FreePair(c, a + 1);
      }
    }
  }

  lemma JoinLeftKeeps(c: Chain, hdr: nat, i: nat)
    requires WellFormed(c, hdr) && i + 1 < |c| && !c[i].used && c[i + 1].used && NoTwoFreeBut(c, i)
    ensures WellFormed(JoinLeft(c, i), hdr) && NoTwoFree(JoinLeft(c, i)) && SameEnds(c, JoinLeft(c, i))
  {
    var d := JoinLeft(c, i);
    if i > 0 && !c[i - 1].used {
      DropKeeps(c, hdr, i);
    }
    forall a ensures !FreePair(d, a) {
      var b := if a < i then a else a + |c| - |d|;
      assert !FreePair(c, i) && (FreePair(c, b) ==> b == i - 1);
      assert FreePair(d, a) ==> FreePair(c, b);
    }
  }

  lemma CoalesceKeeps(c: Chain, hdr: nat, i: nat)
    requires WellFormed(c, hdr) && i + 1 < |c| && !c[i].used && NoTwoFreeBut(c, i)
    ensures WellFormed(Coalesce(c, i), hdr) && NoTwoFree(Coalesce(c, i)) && SameEnds(c, Coalesce(c, i))
  {
    JoinRightKeeps(c, hdr, i);
    JoinLeftKeeps(JoinRight(c, i), hdr, i);
  }

  lemma CoalesceTotal(c: Chain, hdr: nat, i: nat)
    requires WellFormed(c, hdr) && i + 1 < |c| && !c[i].used
    ensures Total(UsedExtent, Coalesce(c, i)) == Total(UsedExtent, c)
    ensures Total(FreeData(hdr), Coalesce(c, i)) == Total(FreeData(hdr), c)
              + (if c[i + 1].used then 0 else hdr) + (if i == 0 || c[i - 1].used then 0 else hdr)
  {
    var d := if c[i + 1].used then c else Drop(c, i + 1);
    if !c[i + 1].used {
      DropTotal(UsedExtent, c, i + 1);
      DropTotal(FreeData(hdr), c, i + 1);
    }
    if i > 0 && !d[i - 1].used {
      DropTotal(UsedExtent, d, i);
      DropTotal(FreeData(hdr), d, i);
    }
  }

  lemma CoalesceHolds(c: Chain, hdr: nat, i: nat, e: Extent)
    requires WellFormed(c, hdr) && i + 1 < |c| && !c[i].used
    ensures Holds(Coalesce(c, i), hdr, e) <==> Holds(c, hdr, e)
  {
    var d := if c[i + 1].used then c else Drop(c, i + 1);
    if !c[i + 1].used {
      DropHolds(c, hdr, i + 1, e);
    }
    if i > 0 && !d[i - 1].used {
      DropHolds(d, hdr, i, e);
    }
  }

  // ---------- what the allocators promise ----------

  /** Using a block that fits keeps the shape and gives the block at least what it needs. */
  lemma OccupyKeeps(c: Chain, hdr: nat, min: nat, need: nat, i: nat)
    requires WellFormed(c, hdr) && NoTwoFree(c) && Fits(c, hdr, need, i) && 0 < min && 0 < need
    ensures var d := Occupy(c, hdr, min, need, i);
            && WellFormed(d, hdr) && NoTwoFree(d) && SameEnds(c, d) && i + 1 < |d| && d[i].used
            && d[i].off == c[i].off && d[i].off + hdr + need <= d[i + 1].off <= c[i + 1].off
  {
    assert !FreePair(c, i);
    assert Room(c, hdr, i);
    if Fits(c, hdr, need + hdr + min, i) {
      var d := Carve(c, i, c[i].off + hdr + need);
      assert WellFormed(d, hdr) by { CarveKeeps(c, hdr, i, c[i].off + hdr + need); }
      assert NoTwoFreeBut(d, i + 1) by { CarveNoTwoFree(c, i, c[i].off + hdr + need); }
      assert d[i + 2] == c[i + 1];
      assert !FreePair(d, i + 1) && !FreePair(d, i);
    } else {
      var d := c[i := Block(c[i].off, true)];
      FlagKeeps(c, hdr, i, true);
      forall a ensures !FreePair(d, a) {
        assert !FreePair(c, a);
      }
    }
  }

  lemma OccupyTotal(c: Chain, hdr: nat, min: nat, need: nat, i: nat)
    requires Fits(c, hdr, need, i)
    ensures var d := Occupy(c, hdr, min, need, i);
            && Total(UsedExtent, d) == Total(UsedExtent, c) + (d[i + 1].off - d[i].off)
            && Total(FreeData(hdr), d) == Total(FreeData(hdr), c) - (d[i + 1].off - d[i].off - hdr)
                                          - (if |d| > |c| then hdr else 0)
  {
    var at := c[i].off + hdr + need;
    if Fits(c, hdr, need + hdr + min, i) {
      CarveTotal(UsedExtent, c, i, at);
      CarveTotal(FreeData(hdr), c, i, at);
    } else {
      FlagTotal(UsedExtent, c, i, true);
      FlagTotal(FreeData(hdr), c, i, true);
    }
  }

  /** Using a block that fits adds one extent that was free, and disturbs no other. */
  lemma OccupyHolds(c: Chain, hdr: nat, min: nat, need: nat, i: nat, x: Extent)
    requires WellFormed(c, hdr) && Fits(c, hdr, need, i)
    ensures var e := Extent(c[i].off + hdr, Occupy(c, hdr, min, need, i)[i + 1].off);
            && !Holds(c, hdr, e)
            && (Holds(Occupy(c, hdr, min, need, i), hdr, x) <==> x == e || Holds(c, hdr, x))
  {
    CarveHolds(c, hdr, i, c[i].off + hdr + need, x);
    FlagHolds(c, hdr, i, true, x);
    if x.from == c[i].off + hdr {
      FreeOwnsNothing(c, hdr, i, x);
    }
    FreeOwnsNothing(c, hdr, i, Extent(c[i].off + hdr, Occupy(c, hdr, min, need, i)[i + 1].off));
  }

  lemma FreeOwnsNothing(c: Chain, hdr: nat, i: nat, e: Extent)
    requires WellFormed(c, hdr) && i + 1 < |c| && !c[i].used && e.from == c[i].off + hdr
    ensures !Holds(c, hdr, e)
  {
    AllIncreasing(c, hdr);
  }

  lemma ReleaseKeeps(c: Chain, hdr: nat, i: nat)
    requires WellFormed(c, hdr) && NoTwoFree(c) && i + 1 < |c| && c[i].used
    ensures WellFormed(Release(c, i), hdr) && NoTwoFree(Release(c, i)) && SameEnds(c, Release(c, i))
  {
    var f := c[i := Block(c[i].off, false)];
    FlagKeeps(c, hdr, i, false);
    forall a | FreePair(f, a) ensures a == i || a == i - 1 {
      assert !FreePair(c, a);
    }
    CoalesceKeeps(f, hdr, i);
  }

  /** Freeing takes the whole extent off the used words, and gives its data, with the headers
      of the neighbours it joined, to the free ones. */
  lemma ReleaseTotal(c: Chain, hdr: nat, i: nat)
    requires WellFormed(c, hdr) && i + 1 < |c| && c[i].used
    ensures Total(UsedExtent, Release(c, i)) == Total(UsedExtent, c) - (c[i + 1].off - c[i].off)
    ensures Total(FreeData(hdr), Release(c, i)) == Total(FreeData(hdr), c) + (c[i + 1].off - c[i].off - hdr)
              + (if c[i + 1].used then 0 else hdr) + (if i == 0 || c[i - 1].used then 0 else hdr)
  {
    FlagKeeps(c, hdr, i, false);
    CoalesceTotal(c[i := Block(c[i].off, false)], hdr, i);
    FlagTotal(UsedExtent, c, i, false);
    FlagTotal(FreeData(hdr), c, i, false);
  }

  /** Freeing a block removes exactly its extent. */
  lemma ReleaseHolds(c: Chain, hdr: nat, i: nat, x: Extent)
    requires WellFormed(c, hdr) && i + 1 < |c| && c[i].used
    ensures Holds(Release(c, i), hdr, x) <==> x != Extent(c[i].off + hdr, c[i + 1].off) && Holds(c, hdr, x)
  {
    AllIncreasing(c, hdr);
    FlagKeeps(c, hdr, i, false);
    FlagHolds(c, hdr, i, false, x);
    CoalesceHolds(c[i := Block(c[i].off, false)], hdr, i, x);
    if Holds(c, hdr, x) && x.from == c[i].off + hdr {
      var k :| Owns(c, hdr, x, k);
      assert k == i;
    }
  }

  lemma ShrinkKeeps(c: Chain, hdr: nat, i: nat, at: nat)
    requires WellFormed(c, hdr) && NoTwoFree(c) && i + 1 < |c| && c[i].used
    requires c[i].off + hdr < at && at + hdr < c[i + 1].off
    ensures WellFormed(Shrink(c, i, at), hdr) && NoTwoFree(Shrink(c, i, at)) && SameEnds(c, Shrink(c, i, at))
  {
    assert WellFormed(Carve(c, i, at), hdr) by { CarveKeeps(c, hdr, i, at); }
    assert NoTwoFreeBut(Carve(c, i, at), i + 1) by { CarveNoTwoFree(c, i, at); }
    CoalesceKeeps(Carve(c, i, at), hdr, i + 1);
    assert SameEnds(c, Carve(c, i, at));
  }

  lemma ShrinkTotal(c: Chain, hdr: nat, i: nat, at: nat)
    requires WellFormed(c, hdr) && i + 1 < |c| && c[i].used
    requires c[i].off + hdr < at && at + hdr < c[i + 1].off
    ensures Total(UsedExtent, Shrink(c, i, at)) == Total(UsedExtent, c) - (c[i + 1].off - at)
    ensures Total(FreeData(hdr), Shrink(c, i, at)) == Total(FreeData(hdr), c) + (c[i + 1].off - at - hdr)
              + (if c[i + 1].used then 0 else hdr)
  {
    CarveKeeps(c, hdr, i, at);
    CarveTotal(UsedExtent, c, i, at);
    CarveTotal(FreeData(hdr), c, i, at);
    assert Carve(c, i, at)[i + 2] == c[i + 1];
    CoalesceTotal(Carve(c, i, at), hdr, i + 1);
  }

  lemma CarveNoTwoFree(c: Chain, i: nat, at: nat)
    requires NoTwoFree(c) && i + 1 < |c|
    ensures NoTwoFreeBut(Carve(c, i, at), i + 1)
  {
    var f := Carve(c, i, at);
    forall a | FreePair(f, a) ensures a == i + 1 {
      assert a < i ==> FreePair(c, a);
      assert a > i + 1 ==> FreePair(c, a - 1);
    }
  }

  /** Cutting a used block short keeps its start and disturbs no other extent. */
  lemma ShrinkHolds(c: Chain, hdr: nat, i: nat, at: nat, x: Extent)
    requires WellFormed(c, hdr) && i + 1 < |c| && c[i].used
    requires c[i].off + hdr < at && at + hdr < c[i + 1].off
    ensures Holds(Shrink(c, i, at), hdr, x) <==>
            x == Extent(c[i].off + hdr, at) || (x != Extent(c[i].off + hdr, c[i + 1].off) && Holds(c, hdr, x))
  {
    AllIncreasing(c, hdr);
    CarveKeeps(c, hdr, i, at);
    CarveHolds(c, hdr, i, at, x);
    CoalesceHolds(Carve(c, i, at), hdr, i + 1, x);
    if Holds(c, hdr, x) && x.from == c[i].off + hdr {
      var k :| Owns(c, hdr, x, k);
      assert k == i;
    }
  }

  /** Freeing what was just allocated gives the old chain back, block for block. */
  lemma ReleaseUndoesOccupy(c: Chain, hdr: nat, min: nat, need: nat, i: nat)
    requires WellFormed(c, hdr) && NoTwoFree(c) && Fits(c, hdr, need, i)
    ensures Release(Occupy(c, hdr, min, need, i), i) == c
  {
    var d := Occupy(c, hdr, min, need, i);
    var f := d[i := Block(d[i].off, false)];
    assert !FreePair(c, i - 1) && !FreePair(c, i);
    if |d| > |c| {
      assert Drop(f, i + 1) == c;
    } else {
      assert f == c;
    }
  }

  /** A chain without used words is one free block from end to end. */
  lemma {:induction false} NothingUsedOneBlock(c: Chain, hdr: nat)
    requires WellFormed(c, hdr) && NoTwoFree(c)
    ensures Total(UsedExtent, c) >= 0
    ensures Total(UsedExtent, c) == 0 <==> |c| == 2 && !c[0].used
    ensures Total(UsedExtent, c) == 0 <==> forall e :: !Holds(c, hdr, e)
  {
    SumOfUsed(c, hdr, 0, |c| - 1);
    assert !FreePair(c, 0);
    if c[0].used {
      assert Owns(c, hdr, Extent(c[0].off + hdr, c[1].off), 0);
      assert Holds(c, hdr, Extent(c[0].off + hdr, c[1].off));
    } else if |c| > 2 {
      assert Owns(c, hdr, Extent(c[1].off + hdr, c[2].off), 1);
      assert Holds(c, hdr, Extent(c[1].off + hdr, c[2].off));
    }
  }

  lemma {:induction false} SumOfUsed(c: Chain, hdr: nat, lo: nat, hi: nat)
    requires WellFormed(c, hdr) && lo <= hi < |c|
    ensures Sum(UsedExtent, c, lo, hi) >= 0
    ensures Sum(UsedExtent, c, lo, hi) == 0 <==> forall i :: lo <= i < hi ==> !c[i].used
    decreases hi - lo
  {
    if lo < hi {
      assert Room(c, hdr, lo);
      SumOfUsed(c, hdr, lo + 1, hi);
    }
  }

  /** The extents of two used blocks never overlap. */
  lemma ExtentsDisjoint(c: Chain, hdr: nat, e: Extent, f: Extent)
    requires WellFormed(c, hdr) && Holds(c, hdr, e) && Holds(c, hdr, f) && e != f
    ensures e.from < e.to && f.from < f.to
    ensures e.to <= f.from || f.to <= e.from
  {
    AllIncreasing(c, hdr);
    var i :| Owns(c, hdr, e, i);
    var j :| Owns(c, hdr, f, j);
    assert i < j ==> i + 1 == j || c[i + 1].off < c[j].off;
    assert j < i ==> j + 1 == i || c[j + 1].off < c[i].off;
  }

  // ---------- looking blocks up ----------

  /** The block whose header is at `off`, or |c|. */
  function IndexOf(c: Chain, off: nat, k: nat): (r: nat)
    requires k <= |c|
    ensures k <= r <= |c|
    ensures r < |c| ==> c[r].off == off
    ensures forall i :: k <= i < r ==> c[i].off != off
    decreases |c| - k
  {
    if k == |c| || c[k].off == off then k else IndexOf(c, off, k + 1)
  }

  lemma IndexOfHeader(c: Chain, hdr: nat, i: nat)
    requires WellFormed(c, hdr) && i < |c|
    ensures IndexOf(c, c[i].off, 0) == i
  {
    AllIncreasing(c, hdr);
  }

  /** `p` is null or the start of some used block's data. */
  ghost predicate Pointer(c: Chain, hdr: nat, p: Option<nat>) {
    p.Some? ==> exists e :: Holds(c, hdr, e) && e.from == p.value
  }

  /** The block whose data starts at `p`, or |c|. */
  function BlockAt(c: Chain, hdr: nat, p: nat): nat {
    if p < hdr then |c| else IndexOf(c, p - hdr, 0)
  }

  /** The data words of the block at `p`. */
  function SizeAt(c: Chain, hdr: nat, p: nat): int {
    var i := BlockAt(c, hdr, p);
    if i + 1 < |c| then c[i + 1].off - p else 0
  }

  /** The block at `p` is used and has at least `n` data words. */
  ghost predicate HasBlock(c: Chain, hdr: nat, p: nat, n: nat) {
    exists e :: Holds(c, hdr, e) && e.from == p && e.from + n <= e.to
  }

  /** No used block but those at `p` and `r` differs between two chains. */
  ghost predicate OnlyChanges(c: Chain, d: Chain, hdr: nat, p: nat, r: nat) {
    forall x: Extent :: x.from != p && x.from != r ==> (Holds(d, hdr, x) <==> Holds(c, hdr, x))
  }

  lemma PointerBlock(c: Chain, hdr: nat, p: nat)
    requires WellFormed(c, hdr) && Pointer(c, hdr, Some(p))
    ensures var i := BlockAt(c, hdr, p);
            && i + 1 < |c| && c[i].used && p == c[i].off + hdr
            && Owns(c, hdr, Extent(p, c[i + 1].off), i) && p < c[i + 1].off
  {
    var e :| Holds(c, hdr, e) && e.from == p;
    var i :| Owns(c, hdr, e, i);
    IndexOfHeader(c, hdr, i);
    assert Room(c, hdr, i);
  }

  lemma PointerHasBlock(c: Chain, hdr: nat, p: nat)
    requires WellFormed(c, hdr) && Pointer(c, hdr, Some(p))
    ensures SizeAt(c, hdr, p) > 0 && HasBlock(c, hdr, p, SizeAt(c, hdr, p))
  {
    PointerBlock(c, hdr, p);
    assert Holds(c, hdr, Extent(p, p + SizeAt(c, hdr, p)));
  }

  /** Joining two free blocks leaves the lowest free block where it was. */
  lemma LowestDrop(c: Chain, k: nat)
    requires 0 < k < |c| - 1 && !c[k].used && !c[k - 1].used
    ensures Drop(c, k)[LowestFree(Drop(c, k), 0)].off == c[LowestFree(c, 0)].off
  {
    var m := LowestFree(c, 0);
    assert m < k;
    assert forall i :: 0 <= i <= m ==> Drop(c, k)[i] == c[i];
  }

  lemma HasLess(c: Chain, hdr: nat, p: nat, n: int, m: nat)
    requires 0 <= n && HasBlock(c, hdr, p, n) && m <= n
    ensures HasBlock(c, hdr, p, m)
  {
    var e :| Holds(c, hdr, e) && e.from == p && e.from + n <= e.to;
  }

  /** Freeing the block at `p` takes exactly its extent away. */
  lemma ReleaseMeaning(c: Chain, hdr: nat, p: nat, x: Extent)
    requires WellFormed(c, hdr) && Pointer(c, hdr, Some(p))
    ensures BlockAt(c, hdr, p) + 1 < |c|
    ensures Holds(Release(c, BlockAt(c, hdr, p)), hdr, x) <==> Holds(c, hdr, x) && x.from != p
  {
    PointerBlock(c, hdr, p);
    var i := BlockAt(c, hdr, p);
    ReleaseHolds(c, hdr, i, x);
    if Holds(c, hdr, x) && x.from == p {
      HeldOnce(c, hdr, x, i);
    }
  }

  lemma HeldOnce(c: Chain, hdr: nat, x: Extent, i: nat)
    requires WellFormed(c, hdr) && Holds(c, hdr, x) && i + 1 < |c| && x.from == c[i].off + hdr
    ensures x == Extent(c[i].off + hdr, c[i + 1].off)
  {
    AllIncreasing(c, hdr);
    var k :| Owns(c, hdr, x, k);
  }

  /** The size read off the chain is that of the extent held. */
  lemma SizeOfHeld(c: Chain, hdr: nat, e: Extent)
    requires WellFormed(c, hdr) && Holds(c, hdr, e)
    ensures SizeAt(c, hdr, e.from) == e.to - e.from && BlockAt(c, hdr, e.from) + 1 < |c|
  {
    var i :| Owns(c, hdr, e, i);
    IndexOfHeader(c, hdr, i);
  }

  /** Cutting the block at `p` to `n` words leaves it `n` words and touches no other. */
  lemma ShrinkMeaning(c: Chain, hdr: nat, p: nat, n: nat, d: Chain)
    requires WellFormed(c, hdr) && Pointer(c, hdr, Some(p)) && 0 < n && n + hdr < SizeAt(c, hdr, p)
    requires BlockAt(c, hdr, p) + 1 < |c| && d == Shrink(c, BlockAt(c, hdr, p), p + n)
    ensures Holds(d, hdr, Extent(p, p + n))
    ensures HasBlock(d, hdr, p, n) && Pointer(d, hdr, Some(p)) && OnlyChanges(c, d, hdr, p, p)
  {
    PointerBlock(c, hdr, p);
    var i := BlockAt(c, hdr, p);
    ShrinkHolds(c, hdr, i, p + n, Extent(p, p + n));
    forall x: Extent | x.from != p ensures Holds(d, hdr, x) <==> Holds(c, hdr, x) {
      ShrinkHolds(c, hdr, i, p + n, x);
    }
  }

  /** Moves the free block `k` to `at`: its left neighbour grows or shrinks to meet it. */
  function Slide(c: Chain, k: nat, at: nat): Chain
    requires k < |c|
  {
    c[k := Block(at, false)]
  }

  lemma SlideKeeps(c: Chain, hdr: nat, k: nat, at: nat)
    requires WellFormed(c, hdr) && NoTwoFree(c) && 0 < k < |c| - 1 && !c[k].used
    requires c[k - 1].off + hdr < at && at + hdr < c[k + 1].off
    ensures WellFormed(Slide(c, k, at), hdr) && NoTwoFree(Slide(c, k, at)) && SameEnds(c, Slide(c, k, at))
  {
    var d := Slide(c, k, at);
    forall i ensures Room(d, hdr, i) && !FreePair(d, i) {
      assert Room(c, hdr, i) && !FreePair(c, i);
    }
  }

  lemma SlideTotal(m: Measure, c: Chain, k: nat, at: nat)
    requires 0 < k < |c| - 1 && !c[k].used && c[k - 1].used
    ensures Total(m, Slide(c, k, at)) == Total(m, c) + (if m.UsedExtent? then at - c[k].off else c[k].off - at)
  {
    var d := Slide(c, k, at);
    assert c[..k - 1] == d[..k - 1] && c[k + 1..] == d[k + 1..];
    TotalRewrite(m, c, d, k - 1, k + 1, k + 1);
    SumSplit(m, c, k - 1, k, k + 1);
    SumSplit(m, d, k - 1, k, k + 1);
    assert d[k + 1] == c[k + 1] && d[k - 1] == c[k - 1];
  }

  lemma SlideHolds(c: Chain, hdr: nat, k: nat, at: nat, x: Extent)
    requires WellFormed(c, hdr) && 0 < k < |c| - 1 && !c[k].used && c[k - 1].used
    ensures Holds(Slide(c, k, at), hdr, x) <==>
            x == Extent(c[k - 1].off + hdr, at) || (Holds(c, hdr, x) && x.from != c[k - 1].off + hdr)
  {
    var d := Slide(c, k, at);
    AllIncreasing(c, hdr);
    assert Owns(d, hdr, Extent(c[k - 1].off + hdr, at), k - 1);
    if Holds(d, hdr, x) {
      var i :| Owns(d, hdr, x, i);
      assert i != k;
      assert i != k - 1 ==> Owns(c, hdr, x, i);
    }
    if Holds(c, hdr, x) && x.from != c[k - 1].off + hdr {
      var i :| Owns(c, hdr, x, i);
      assert Owns(d, hdr, x, i);
    }
  }

  // ---------- which offsets head free blocks ----------

  ghost predicate FreeAt(c: Chain, off: nat, i: int) {
    0 <= i < |c| - 1 && c[i].off == off && !c[i].used
  }

  ghost predicate IsFree(c: Chain, off: nat) {
    exists i :: FreeAt(c, off, i)
  }

  lemma DropFree(c: Chain, hdr: nat, k: nat, off: nat)
    requires WellFormed(c, hdr) && k < |c| - 1
    ensures IsFree(Drop(c, k), off) <==> IsFree(c, off) && off != c[k].off
  {
    AllIncreasing(c, hdr);
    var d := Drop(c, k);
    if IsFree(d, off) {
      var i :| FreeAt(d, off, i);
      assert FreeAt(c, off, if i < k then i else i + 1);
    }
    if IsFree(c, off) && off != c[k].off {
      var i :| FreeAt(c, off, i);
      assert FreeAt(d, off, if i < k then i else i - 1);
    }
  }

  lemma FlagFree(c: Chain, hdr: nat, k: nat, used: bool, off: nat)
    requires WellFormed(c, hdr) && k < |c| - 1
    ensures IsFree(c[k := Block(c[k].off, used)], off) <==> (IsFree(c, off) && off != c[k].off) || (!used && off == c[k].off)
  {
    AllIncreasing(c, hdr);
    var d := c[k := Block(c[k].off, used)];
    if IsFree(d, off) {
      var i :| FreeAt(d, off, i);
      assert i != k ==> FreeAt(c, off, i);
    }
    if IsFree(c, off) && off != c[k].off {
      var i :| FreeAt(c, off, i);
      assert FreeAt(d, off, i);
    }
    assert !used ==> FreeAt(d, c[k].off, k);
  }

  lemma CarveFree(c: Chain, hdr: nat, k: nat, at: nat, off: nat)
    requires WellFormed(c, hdr) && k < |c| - 1
    ensures IsFree(Carve(c, k, at), off) <==> (IsFree(c, off) && off != c[k].off) || off == at
  {
    hide WellFormed;
    AllIncreasing(c, hdr);
    var d := Carve(c, k, at);
    assert FreeAt(d, at, k + 1);
    if IsFree(d, off) {
      var i :| FreeAt(d, off, i);
      assert i != k;
      assert i != k + 1 ==> FreeAt(c, off, if i < k then i else i - 1);
    }
    if IsFree(c, off) && off != c[k].off {
      var i :| FreeAt(c, off, i);
      assert FreeAt(d, off, if i < k then i else i + 1);
    }
  }

  lemma SlideFree(c: Chain, hdr: nat, k: nat, at: nat, off: nat)
    requires WellFormed(c, hdr) && k < |c| - 1
    ensures IsFree(Slide(c, k, at), off) <==> (IsFree(c, off) && off != c[k].off) || off == at
  {
    AllIncreasing(c, hdr);
    var d := Slide(c, k, at);
    assert FreeAt(d, at, k);
    if IsFree(d, off) {
      var i :| FreeAt(d, off, i);
      assert i != k ==> FreeAt(c, off, i);
    }
    if IsFree(c, off) && off != c[k].off {
      var i :| FreeAt(c, off, i);
      assert FreeAt(d, off, i);
    }
  }

  /** The free data words are at least those of any one free block, and no more only when it is the
      only one. */
  lemma {:induction false} FreeSumAtLeast(c: Chain, hdr: nat, lo: nat, hi: nat, i: nat)
    requires WellFormed(c, hdr) && lo <= i < hi < |c| && !c[i].used
    ensures Sum(FreeData(hdr), c, lo, hi) >= c[i + 1].off - c[i].off - hdr
    ensures Sum(FreeData(hdr), c, lo, hi) == c[i + 1].off - c[i].off - hdr
            <==> forall j :: lo <= j < hi && j != i ==> c[j].used
    decreases hi - lo
  {
    assert Room(c, hdr, lo);
    if lo == i {
      FreeSumZero(c, hdr, lo + 1, hi);
    } else {
      FreeSumAtLeast(c, hdr, lo + 1, hi, i);
    }
  }

  lemma {:induction false} FreeSumZero(c: Chain, hdr: nat, lo: nat, hi: nat)
    requires WellFormed(c, hdr) && lo <= hi < |c|
    ensures Sum(FreeData(hdr), c, lo, hi) >= 0
    ensures Sum(FreeData(hdr), c, lo, hi) == 0 <==> forall j :: lo <= j < hi ==> c[j].used
    decreases hi - lo
  {
    if lo < hi {
      assert Room(c, hdr, lo);
      FreeSumZero(c, hdr, lo + 1, hi);
    }
  }
}
