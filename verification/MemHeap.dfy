/** The memheap as the kernel runs it: one array of 4-byte words in which item headers and user data
    lie side by side. Words 0 to 5 are the free list's own header; the pool follows. An item at `x`
    keeps magic in word x, pool_ptr in x + 1, next and prev in x + 2 and x + 3, next_free and
    prev_free in x + 4 and x + 5. Both lists are circular. */
module MemHeap {
  import opened Option
  import opened BlockChain
  import opened Sizes
  import opened UserData
  import opened Ring
  import opened FreeListHeap

  const MAGIC: int := 0x1ea01ea0   // with the used bit clear
  const NEXT: nat := 2
  const PREV: nat := 3
  const NEXT_FREE: nat := 4
  const PREV_FREE: nat := 5
  const NULL: int := -1

  function Offsets(c: Chain): Nodes {
    seq(|c|, i requires 0 <= i < |c| => c[i].off)
  }

  ghost predicate Tagged(w: seq<int>, c: Chain, self: int, i: int) {
    0 <= i < |c| ==>
      && c[i].off + HDR <= |w|
      && w[c[i].off] == MAGIC + (if c[i].used then 1 else 0)
      && w[c[i].off + 1] == self
  }

  ghost predicate Heads(c: Chain, i: int, a: int) {
    0 <= i < |c| && c[i].off == a
  }

  /** `a` starts an item header of the chain, or the free list's own. */
  ghost predicate IsHead(c: Chain, a: int) {
    a == 0 || exists i :: Heads(c, i, a)
  }

  /** The words hold the headers of `c` and the free list `f`. */
  ghost predicate InWords(w: seq<int>, c: Chain, f: seq<nat>, self: int) {
    && WellFormed(c, WIDE)
    && c[0].off == HDR && c[|c| - 1].off + HDR == |w|
    && (forall i :: Tagged(w, c, self, i))
    && IsRing(w, Offsets(c), NEXT, PREV)
    && IsRing(w, [0] + f, NEXT_FREE, PREV_FREE)
    && NoDup(f) && forall x: nat :: x in f ==> x != 0 && IsHead(c, x)
  }

  /** `v` is `w` but for some of the words `lo` to `hi` of headers. */
  ghost predicate DiffersAt(w: seq<int>, v: seq<int>, c: Chain, lo: nat, hi: nat) {
    |v| == |w| && forall k :: 0 <= k < |w| && w[k] != v[k] ==> FieldWord(c, lo, hi, k)
  }

  ghost predicate FieldWord(c: Chain, lo: nat, hi: nat, k: int) {
    exists a :: IsHead(c, a) && a + lo <= k < a + hi
  }

  lemma HeadsApart(c: Chain, a: int, b: int)
    requires WellFormed(c, WIDE) && c[0].off == HDR && IsHead(c, a) && IsHead(c, b)
    ensures a >= 0 && b >= 0
    ensures a == b || a + HDR <= b || b + HDR <= a
  {
    AllIncreasing(c, WIDE);
  }

  lemma FieldOfHead(c: Chain, lo: nat, hi: nat, a: int, k: int)
    requires WellFormed(c, WIDE) && c[0].off == HDR && IsHead(c, a) && lo <= hi <= HDR
    requires a <= k < a + HDR
    ensures FieldWord(c, lo, hi, k) <==> a + lo <= k < a + hi
  {
    if FieldWord(c, lo, hi, k) {
      var b :| IsHead(c, b) && b + lo <= k < b + hi;
      HeadsApart(c, a, b);
    }
  }

  lemma BlockIsHead(c: Chain, i: nat)
    requires i < |c|
    ensures IsHead(c, c[i].off)
  {
    assert Heads(c, i, c[i].off);
  }

  // ---------- what a write to some fields leaves alone ----------

  lemma KeepsTags(w: seq<int>, v: seq<int>, c: Chain, self: int, lo: nat, hi: nat)
    requires WellFormed(c, WIDE) && c[0].off == HDR && (forall i :: Tagged(w, c, self, i))
    requires DiffersAt(w, v, c, lo, hi) && 2 <= lo <= hi <= HDR
    ensures forall i :: Tagged(v, c, self, i)
  {
    forall i ensures Tagged(v, c, self, i) {
      assert Tagged(w, c, self, i);
      if 0 <= i < |c| {
        BlockIsHead(c, i);
        FieldOfHead(c, lo, hi, c[i].off, c[i].off);
        FieldOfHead(c, lo, hi, c[i].off, c[i].off + 1);
      }
    }
  }

  /** A ring of headers threaded through fields that were not written. */
  lemma KeepsRing(w: seq<int>, v: seq<int>, c: Chain, r: Nodes, nf: nat, pf: nat, lo: nat, hi: nat)
    requires WellFormed(c, WIDE) && c[0].off == HDR && IsRing(w, r, nf, pf)
    requires DiffersAt(w, v, c, lo, hi) && lo <= hi <= HDR && nf < HDR && pf < HDR
    requires !(lo <= nf < hi) && !(lo <= pf < hi)
    requires forall k :: 0 <= k < |r| ==> IsHead(c, r[k])
    ensures IsRing(v, r, nf, pf)
  {
    forall k | 0 <= k < |r| ensures r[k] + nf < |w| ==> v[r[k] + nf] == w[r[k] + nf] {
      FieldOfHead(c, lo, hi, r[k], r[k] + nf);
    }
    forall k | 0 <= k < |r| ensures r[k] + pf < |w| ==> v[r[k] + pf] == w[r[k] + pf] {
      FieldOfHead(c, lo, hi, r[k], r[k] + pf);
    }
    RingFrame(w, v, r, nf, pf);
  }

  lemma KeepsUserData(w: seq<int>, v: seq<int>, c: Chain, lo: nat, hi: nat)
    requires WellFormed(c, WIDE) && c[0].off == HDR && DiffersAt(w, v, c, lo, hi) && hi <= HDR
    ensures KeepsData(c, HDR, w, v)
  {
    Narrow(c);
    forall k | 0 <= k < |w| && UserWord(c, HDR, k) ensures w[k] == v[k] {
      if w[k] != v[k] {
        HeaderNotUser(c, lo, hi, k);
      }
    }
  }

  lemma HeaderNotUser(c: Chain, lo: nat, hi: nat, k: int)
    requires WellFormed(c, HDR) && c[0].off == HDR && FieldWord(c, lo, hi, k) && hi <= HDR
    ensures !UserWord(c, HDR, k)
  {
    var a :| IsHead(c, a) && a + lo <= k < a + hi;
    if a == 0 {
      AllIncreasing(c, HDR);
    } else {
      var i :| Heads(c, i, a);
      NotUserWord(c, HDR, i, k);
    }
  }

  lemma OffsetsAreHeads(c: Chain, f: seq<nat>)
    requires forall x: nat :: x in f ==> IsHead(c, x)
    ensures forall k :: 0 <= k < |Offsets(c)| ==> IsHead(c, Offsets(c)[k])
    ensures forall k :: 0 <= k < |[0] + f| ==> IsHead(c, ([0] + f)[k])
  {
    forall k | 0 <= k < |Offsets(c)| ensures IsHead(c, Offsets(c)[k]) {
      BlockIsHead(c, k);
    }
  }

  lemma HeadsSpaced(c: Chain, r: Nodes)
    requires WellFormed(c, WIDE) && c[0].off == HDR
    requires (forall k :: 0 <= k < |r| ==> IsHead(c, r[k])) && NoDup(r)
    ensures Spaced(r, HDR)
  {
    forall i, j ensures Clear(r, HDR, i, j) {
      if 0 <= i < |r| && 0 <= j < |r| && i != j {
        HeadsApart(c, r[i], r[j]);
      }
    }
  }

  lemma OffsetsNoDup(c: Chain)
    requires WellFormed(c, WIDE)
    ensures NoDup(Offsets(c))
  {
    AllIncreasing(c, WIDE);
  }

  // ---------- the steps every operation is made of, on words ----------

  lemma RingOfFrees(w: seq<int>, c: Chain, f: seq<nat>, self: int)
    requires InWords(w, c, f, self)
    ensures Spaced([0] + f, HDR) && Spaced(Offsets(c), HDR)
    ensures forall k :: 0 <= k < |Offsets(c)| ==> IsHead(c, Offsets(c)[k])
    ensures forall k :: 0 <= k < |[0] + f| ==> IsHead(c, ([0] + f)[k])
  {
    OffsetsAreHeads(c, f);
    OffsetsNoDup(c);
    HeadsSpaced(c, Offsets(c));
    HeadsSpaced(c, [0] + f);
  }

  lemma WithoutMeaning(f: seq<nat>, k: nat)
    requires NoDup(f) && k < |f|
    ensures NoDup(Without(f, k)) && f[k] !in Without(f, k)
    ensures forall x: nat :: x in Without(f, k) ==> x in f
    ensures Without(f, k) == Minus(f, f[k])
  {}

  lemma WithoutTail(x: nat, f: seq<nat>, k: nat)
    requires k < |f|
    ensures Without([x] + f, k + 1) == [x] + Without(f, k)
  {
    assert ([x] + f)[..k + 1] == [x] + f[..k] && ([x] + f)[k + 2..] == f[k + 1..];
  }

  lemma UnlinkedDiffers(w: seq<int>, c: Chain, r: Nodes, k: nat)
    requires k < |r| && IsHead(c, Next(r, k)) && IsHead(c, Prev(r, k))
    requires Next(r, k) + PREV_FREE < |w| && Prev(r, k) + NEXT_FREE < |w|
    ensures DiffersAt(w, Unlinked(w, r, NEXT_FREE, PREV_FREE, k), c, 4, 6)
  {
    hide IsHead;
  }

  /** Writes to the free-list links alone that leave a ring through other heads change the free list. */
  lemma FreesReplaced(w: seq<int>, v: seq<int>, c: Chain, f: seq<nat>, g: seq<nat>, self: int)
    requires InWords(w, c, f, self) && DiffersAt(w, v, c, 4, 6)
    requires IsRing(v, [0] + g, NEXT_FREE, PREV_FREE) && NoDup(g) && forall x: nat :: x in g ==> x != 0 && IsHead(c, x)
    ensures InWords(v, c, g, self)
  {
    assert |v| == |w|;
    hide DiffersAt, IsHead, Spaced;
    RingOfFrees(w, c, f, self);
    KeepsTags(w, v, c, self, 4, 6);
    KeepsRing(w, v, c, Offsets(c), NEXT, PREV, 4, 6);
  }

  /** Taking entry `k` off the free list. */
  lemma RemoveFreeWords(w: seq<int>, c: Chain, f: seq<nat>, self: int, k: nat)
    requires InWords(w, c, f, self) && k < |f|
    requires Next([0] + f, k + 1) + PREV_FREE < |w| && Prev([0] + f, k + 1) + NEXT_FREE < |w|
    ensures var v := Unlinked(w, [0] + f, NEXT_FREE, PREV_FREE, k + 1);
            InWords(v, c, Without(f, k), self) && DiffersAt(w, v, c, 4, 6)
  {
    var r := [0] + f;
    var v := Unlinked(w, r, NEXT_FREE, PREV_FREE, k + 1);
    RingOfFrees(w, c, f, self);
    assert IsRing(w, r, NEXT_FREE, PREV_FREE) && NoDup(f) && forall x: nat :: x in f ==> x != 0 && IsHead(c, x);
    hide InWords, DiffersAt, Unlinked, IsHead, Without;
    UnlinkedDiffers(w, c, r, k + 1);
    UnlinkKeepsRing(w, r, NEXT_FREE, PREV_FREE, HDR, k + 1);
    WithoutTail(0, f, k);
    WithoutMeaning(f, k);
    FreesReplaced(w, v, c, f, Without(f, k), self);
  }

  /** Putting `x` at the front of the free list. */
  lemma PushFreeWords(w: seq<int>, v: seq<int>, c: Chain, f: seq<nat>, self: int, x: nat)
    requires InWords(w, c, f, self) && IsHead(c, x) && x != 0 && x !in f
    requires LinkedIn(w, v, [0] + f, NEXT_FREE, PREV_FREE, 1, x)
    ensures InWords(v, c, [x] + f, self) && DiffersAt(w, v, c, 4, 6)
  {
    var r := [0] + f;
    RingOfFrees(w, c, f, self);
    var s := With(r, 1, x);
    assert s == [0] + ([x] + f);
    HeadsSpaced(c, s);
    LinkKeepsRing(w, v, r, NEXT_FREE, PREV_FREE, HDR, 1, x);
    forall j | 0 <= j < |w| && w[j] != v[j] ensures FieldWord(c, 4, 6, j) {
      assert IsHead(c, r[0]) && IsHead(c, if 1 < |r| then r[1] else r[0]);
    }
    hide DiffersAt, IsHead, Tagged;
    FreesReplaced(w, v, c, f, [x] + f, self);
  }

  /** Clearing the free-list links of an item that is on no list. */
  lemma ClearWords(w: seq<int>, c: Chain, f: seq<nat>, self: int, x: nat)
    requires InWords(w, c, f, self) && IsHead(c, x) && x != 0 && x !in f && x + HDR <= |w|
    ensures var v := w[x + NEXT_FREE := NULL][x + PREV_FREE := NULL];
            InWords(v, c, f, self) && DiffersAt(w, v, c, 4, 6)
  {
    var v := w[x + NEXT_FREE := NULL][x + PREV_FREE := NULL];
    RingOfFrees(w, c, f, self);
    assert DiffersAt(w, v, c, 4, 6);
    KeepsTags(w, v, c, self, 4, 6);
    KeepsRing(w, v, c, Offsets(c), NEXT, PREV, 4, 6);
    forall k | 0 <= k < |[0] + f| ensures ([0] + f)[k] != x {}
    forall k | 0 <= k < |[0] + f| ensures ([0] + f)[k] + HDR <= x || x + HDR <= ([0] + f)[k] {
      HeadsApart(c, ([0] + f)[k], x);
    }
    RingFrame(w, v, [0] + f, NEXT_FREE, PREV_FREE);
  }

  /** Setting or clearing an item's used bit. */
  lemma MagicWords(w: seq<int>, c: Chain, f: seq<nat>, self: int, i: nat, used: bool)
    requires InWords(w, c, f, self) && i + 1 < |c| && c[i].off < |w|
    ensures var v := w[c[i].off := MAGIC + (if used then 1 else 0)];
            InWords(v, c[i := Block(c[i].off, used)], f, self) && DiffersAt(w, v, c, 0, 1)
  {
    var v, d := w[c[i].off := MAGIC + (if used then 1 else 0)], c[i := Block(c[i].off, used)];
    RingOfFrees(w, c, f, self);
    BlockIsHead(c, i);
    assert DiffersAt(w, v, c, 0, 1);
    KeepsRing(w, v, c, Offsets(c), NEXT, PREV, 0, 1);
    KeepsRing(w, v, c, [0] + f, NEXT_FREE, PREV_FREE, 0, 1);
    FlagKeeps(c, WIDE, i, used);
    assert Offsets(d) == Offsets(c);
    SameHeads(c, d);
    AllIncreasing(c, WIDE);
    forall j ensures Tagged(v, d, self, j) {
      assert Tagged(w, c, self, j);
    }
  }

  lemma SameHeads(c: Chain, d: Chain)
    requires Offsets(c) == Offsets(d)
    ensures forall x :: IsHead(c, x) <==> IsHead(d, x)
  {
    forall i | 0 <= i < |c| ensures c[i].off == d[i].off {
      assert Offsets(c)[i] == Offsets(d)[i];
    }
    assert |c| == |Offsets(c)| && |d| == |Offsets(d)|;
    forall x ensures IsHead(c, x) <==> IsHead(d, x) {
      assert forall i :: Heads(c, i, x) <==> Heads(d, i, x);
    }
  }

  /** Taking block `k`, which is not on the free list, out of the block list. */
  lemma DropWords(w: seq<int>, v: seq<int>, c: Chain, f: seq<nat>, self: int, k: nat)
    requires InWords(w, c, f, self) && 0 < k < |c| - 1 && c[k].off !in f
    requires c[k + 1].off + PREV < |w| && c[k - 1].off + NEXT < |w|
    requires v == w[c[k + 1].off + PREV := c[k - 1].off][c[k - 1].off + NEXT := c[k + 1].off]
    ensures InWords(v, Drop(c, k), f, self) && DiffersAt(w, v, c, 2, 4)
  {
    var d, r := Drop(c, k), Offsets(c);
    RingOfFrees(w, c, f, self);
    assert v == Unlinked(w, r, NEXT, PREV, k);
    UnlinkKeepsRing(w, r, NEXT, PREV, HDR, k);
    assert Without(r, k) == Offsets(d);
    BlockIsHead(c, k + 1);
    BlockIsHead(c, k - 1);
    assert DiffersAt(w, v, c, 2, 4);
    KeepsTags(w, v, c, self, 2, 4);
    KeepsRing(w, v, c, [0] + f, NEXT_FREE, PREV_FREE, 2, 4);
    DropKeeps(c, WIDE, k);
    forall j ensures Tagged(v, d, self, j) {
      assert Tagged(v, c, self, if j < k then j else j + 1);
    }
    forall x: nat | x in f ensures IsHead(d, x) {
      var i :| Heads(c, i, x);
      assert Heads(d, if i < k then i else i - 1, x);
    }
  }

  /** `v` is `w` with a free item written at `at`, linked in behind block `i`. */
  ghost predicate InsertedAt(w: seq<int>, v: seq<int>, c: Chain, self: int, i: nat, at: nat)
    requires i + 1 < |c|
  {
    && |v| == |w| && c[i].off + WIDE < at && at + WIDE < c[i + 1].off && c[i + 1].off + HDR <= |w|
    && v[at] == MAGIC && v[at + 1] == self
    && v[at + NEXT] == c[i + 1].off && v[at + PREV] == c[i].off
    && v[c[i].off + NEXT] == at && v[c[i + 1].off + PREV] == at
    && forall k :: 0 <= k < |w| && !(at <= k < at + NEXT_FREE) && k != c[i].off + NEXT && k != c[i + 1].off + PREV
         ==> v[k] == w[k]
  }

  lemma InsertWords(w: seq<int>, v: seq<int>, c: Chain, f: seq<nat>, self: int, i: nat, at: nat)
    requires InWords(w, c, f, self) && i + 1 < |c| && InsertedAt(w, v, c, self, i, at)
    ensures InWords(v, Insert(c, i, at), f, self) && DiffersAt(w, v, Insert(c, i, at), 0, 6)
    ensures IsHead(Insert(c, i, at), at) && at !in f
  {
    var d := Insert(c, i, at);
    InsertHeads(c, i, at);
    InsertTags(w, v, c, self, i, at);
    InsertRings(w, v, c, f, self, i, at);
    BlockIsHead(d, i);
    BlockIsHead(d, i + 1);
    BlockIsHead(d, i + 2);
  }

  lemma InsertHeads(c: Chain, i: nat, at: nat)
    requires WellFormed(c, WIDE) && i + 1 < |c| && c[i].off + WIDE < at && at + WIDE < c[i + 1].off
    ensures WellFormed(Insert(c, i, at), WIDE) && SameEnds(c, Insert(c, i, at)) && !IsHead(c, at)
    ensures forall x :: IsHead(Insert(c, i, at), x) <==> x == at || IsHead(c, x)
  {
    var d := Insert(c, i, at);
    forall k ensures Room(d, WIDE, k) {
      assert Room(c, WIDE, k) && Room(c, WIDE, k - 1);
    }
    AllIncreasing(c, WIDE);
    assert Heads(d, i + 1, at);
    forall x ensures IsHead(d, x) <==> x == at || IsHead(c, x) {
      if j :| Heads(d, j, x) {
        assert j != i + 1 ==> Heads(c, if j <= i then j else j - 1, x);
      }
      if j :| Heads(c, j, x) {
        assert Heads(d, if j <= i then j else j + 1, x);
      }
    }
  }

  lemma InsertTags(w: seq<int>, v: seq<int>, c: Chain, self: int, i: nat, at: nat)
    requires WellFormed(c, WIDE) && i + 1 < |c| && InsertedAt(w, v, c, self, i, at)
    requires forall j :: Tagged(w, c, self, j)
    ensures forall j :: Tagged(v, Insert(c, i, at), self, j)
  {
    AllIncreasing(c, WIDE);
    var d := Insert(c, i, at);
    forall j ensures Tagged(v, d, self, j) {
      assert Tagged(w, c, self, if j <= i then j else j - 1);
    }
  }

  lemma InsertRings(w: seq<int>, v: seq<int>, c: Chain, f: seq<nat>, self: int, i: nat, at: nat)
    requires InWords(w, c, f, self) && i + 1 < |c| && InsertedAt(w, v, c, self, i, at)
    ensures IsRing(v, Offsets(Insert(c, i, at)), NEXT, PREV) && IsRing(v, [0] + f, NEXT_FREE, PREV_FREE)
  {
    var d, r := Insert(c, i, at), Offsets(c);
    InsertHeads(c, i, at);
    RingOfFrees(w, c, f, self);
    assert Offsets(d) == With(r, i + 1, at);
    OffsetsNoDup(d);
    OffsetsAreHeads(d, []);
    HeadsSpaced(d, Offsets(d));
    var u := v[at := w[at]][at + 1 := w[at + 1]];   // the links alone
    assert LinkedIn(w, u, r, NEXT, PREV, i + 1, at);
    LinkKeepsRing(w, u, r, NEXT, PREV, HDR, i + 1, at);
    assert IsHead(d, at);
    assert DiffersAt(u, v, d, 0, 2);
    KeepsRing(u, v, d, Offsets(d), NEXT, PREV, 0, 2);
    BlockIsHead(d, i);
    BlockIsHead(d, i + 2);
    assert DiffersAt(w, v, d, 0, 4);
    KeepsRing(w, v, d, [0] + f, NEXT_FREE, PREV_FREE, 0, 4);
  }

  /** The words of a pool that was just set up. */
  lemma EmptyWords(w: seq<int>, pool: nat, self: int)
    requires HDR + WIDE < pool && |w| == pool + HDR
    requires w[NEXT_FREE] == HDR && w[PREV_FREE] == HDR
    requires w[HDR] == MAGIC && w[HDR + 1] == self && w[HDR + NEXT] == pool && w[HDR + PREV] == pool
    requires w[HDR + NEXT_FREE] == 0 && w[HDR + PREV_FREE] == 0
    requires w[pool] == MAGIC + 1 && w[pool + 1] == self && w[pool + NEXT] == HDR && w[pool + PREV] == HDR
    ensures InWords(w, Empty(pool).chain, [HDR], self)
  {
    var c := Empty(pool).chain;
    var r := Offsets(c);
    assert forall i :: Room(c, WIDE, i);
    assert Heads(c, 0, HDR);
    assert forall i :: Tagged(w, c, self, i);
    assert r == [HDR, pool];
    assert forall k :: Linked(w, r, NEXT, PREV, k);
    assert [0] + [HDR] == [0, HDR];
    assert forall k :: Linked(w, [0, HDR], NEXT_FREE, PREV_FREE, k);
  }

  /** Joining to the left first and to the right next gives the same chain. */
  lemma LeftThenRight(c: Chain, i: nat, d: Chain, j: nat)
    requires i + 1 < |c| && !c[i].used && c[|c| - 1].used
    requires d == JoinLeft(c, i) && j == if i == 0 || c[i - 1].used then i else i - 1
    ensures j + 1 < |d| && d[j + 1] == c[i + 1] && JoinRight(d, j) == Coalesce(c, i)
  {}

  /** Data kept by the two joins in turn. */
  lemma JoinData(c: Chain, d: Chain, e: Chain, i: nat, w: seq<int>, v: seq<int>, u: seq<int>)
    requires WellFormed(c, WIDE) && i + 1 < |c| && !c[i].used && d == JoinLeft(c, i) && e == Coalesce(c, i)
    requires KeepsData(c, HDR, w, v) && KeepsData(d, HDR, v, u)
    ensures KeepsData(e, HDR, w, u)
  {
    Narrow(c);
    JoinLeftHoldsAll(c, i);
    CoalesceHoldsAll(c, HDR, i);
    JoinsKeepData(e, c, HDR, w, w, v);
    JoinsKeepData(e, d, HDR, w, v, u);
  }

  lemma JoinLeftHoldsAll(c: Chain, i: nat)
    requires i + 1 < |c| && !c[i].used && c[|c| - 1].used
    ensures forall e :: Holds(JoinLeft(c, i), HDR, e) <==> Holds(c, HDR, e)
  {
    if i > 0 && !c[i - 1].used {
      forall e {
        DropHolds(c, HDR, i, e);
      }
    }
  }

  lemma SlideUserWords(c: Chain, k: nat, at: nat)
    requires WellFormed(c, WIDE) && 0 < k < |c| - 1 && !c[k].used && c[k].off <= at
    ensures forall x :: UserWord(c, HDR, x) ==> UserWord(Slide(c, k, at), HDR, x)
  {
    var d := Slide(c, k, at);
    forall x | UserWord(c, HDR, x) ensures UserWord(d, HDR, x) {
      var i :| 0 <= i < |c| - 1 && c[i].used && c[i].off + HDR <= x < c[i + 1].off;
      assert d[i] == c[i] && d[i + 1].off >= c[i + 1].off;
    }
  }

  lemma MinusKeeps(f: seq<nat>, x: nat, y: nat)
    requires y !in f
    ensures y !in Minus(f, x)
  {}

  lemma CarveIsInsert(c: Chain, i: nat, at: nat)
    requires i + 1 < |c| && c[i].used
    ensures var d := Insert(c, i, at);
            d == Carve(c, i, at) && d[i + 1] == Block(at, false) && d[i + 2] == c[i + 1]
            && JoinRight(d, i + 1) == Shrink(c, i, at) == Coalesce(d, i + 1)
  {}

  /** Writing user data leaves every header alone. */
  lemma UserWritesKeepHeaders(w: seq<int>, v: seq<int>, c: Chain, f: seq<nat>, self: int)
    requires InWords(w, c, f, self) && |v| == |w|
    requires forall k :: 0 <= k < |w| && !UserWord(c, HDR, k) ==> v[k] == w[k]
    ensures InWords(v, c, f, self)
  {
    Narrow(c);
    RingOfFrees(w, c, f, self);
    forall k | 0 <= k < |w| && FieldWord(c, 0, 6, k) ensures v[k] == w[k] {
      HeaderNotUser(c, 0, 6, k);
    }
    forall i ensures Tagged(v, c, self, i) {
      assert Tagged(w, c, self, i);
      if 0 <= i < |c| {
        BlockIsHead(c, i);
        FieldOfHead(c, 0, 6, c[i].off, c[i].off);
        FieldOfHead(c, 0, 6, c[i].off, c[i].off + 1);
      }
    }
    HeaderRing(w, v, c, Offsets(c), NEXT, PREV);
    HeaderRing(w, v, c, [0] + f, NEXT_FREE, PREV_FREE);
  }

  lemma HeaderRing(w: seq<int>, v: seq<int>, c: Chain, r: Nodes, nf: nat, pf: nat)
    requires IsRing(w, r, nf, pf) && |v| == |w| && nf < HDR && pf < HDR
    requires forall k :: 0 <= k < |w| && FieldWord(c, 0, 6, k) ==> v[k] == w[k]
    requires forall k :: 0 <= k < |r| ==> IsHead(c, r[k])
    ensures IsRing(v, r, nf, pf)
  {
    forall k | 0 <= k < |r| ensures FieldWord(c, 0, 6, r[k] + nf) && FieldWord(c, 0, 6, r[k] + pf) {
      assert IsHead(c, r[k]);
    }
    RingFrame(w, v, r, nf, pf);
  }

  lemma AllocKeepsOthers(h: Heap, size: nat, w: seq<int>, v: seq<int>)
    requires Inv(h) && KeepsData(h.chain, HDR, w, v)
    ensures KeepsOthers(FreeListHeap.Alloc(h, size).0.chain, HDR, w, v,
                        if FreeListHeap.Alloc(h, size).1.Some? then FreeListHeap.Alloc(h, size).1.value else 0)
  {
    AllocMeaning(h, size);
    var (g, r) := FreeListHeap.Alloc(h, size);
    if r.Some? {
      var k, i :| TakesEntry(h, Need(size), g, r.value, k, i);
      forall e | Holds(g.chain, HDR, e) && e.from != r.value ensures SameOn(w, v, e) {
        assert Holds(h.chain, HDR, e);
        KeptExtent(h.chain, HDR, w, v, e);
      }
    } else {
      KeptOthers(h.chain, HDR, w, v, 0);
    }
  }

  /** What growing block `i` in place keeps, seen from the new chain. */
  lemma GrowData(h: Heap, i: nat, need: nat, g: Heap, p: nat, n: nat, w: seq<int>, v: seq<int>)
    requires Inv(h) && CanGrow(h.chain, i, need) && need + MIN_WORDS < WORD_SPAN
    requires h.chain[i].used && need + HDR > h.chain[i + 1].off - h.chain[i].off
    requires g == Grow(h, i, need) && p == h.chain[i].off + HDR && HasBlock(h.chain, HDR, p, n)
    requires KeepsData(h.chain, HDR, w, v) && h.pool <= |w|
    ensures Copied(w, v, p, p, n) && KeepsOthers(g.chain, HDR, w, v, p)
  {
    hide Grow;
    GrowMeaning(h, i, need, g);
    Narrow(h.chain);
    KeptInPlace(h.chain, HDR, p, n, w, v);
  }

  /** What keeping or cutting the block at `p` keeps. */
  lemma StayData(h: Heap, p: nat, i: nat, need: nat, g: Heap, w: seq<int>, v: seq<int>)
    requires Inv(h) && Pointer(h.chain, HDR, Some(p)) && MIN_WORDS <= need <= SizeAt(h.chain, HDR, p)
    requires i == BlockAt(h.chain, HDR, p) && i + 1 < |h.chain|
    requires g == if need + HDR + MIN_WORDS >= SizeAt(h.chain, HDR, p) then h else Cut(h, i, need)
    requires KeepsData(g.chain, HDR, w, v) && h.pool <= |w|
    ensures Copied(w, v, p, p, need) && KeepsOthers(g.chain, HDR, w, v, p)
  {
    assert Inv(g) && HasBlock(g.chain, HDR, p, need) by { StayMeaning(h, p, i, need, g); }
    KeptInHeap(g, p, need, w, v);
  }

  lemma KeptInHeap(g: Heap, p: nat, n: nat, w: seq<int>, v: seq<int>)
    requires Inv(g) && HasBlock(g.chain, HDR, p, n) && KeepsData(g.chain, HDR, w, v) && g.pool <= |w|
    ensures Copied(w, v, p, p, n) && KeepsOthers(g.chain, HDR, w, v, p)
  {
    Narrow(g.chain);
    KeptInPlace(g.chain, HDR, p, n, w, v);
  }

  /** What claiming the free block `i` makes of the heap. */
  lemma ClaimReady(h: Heap, need: nat, size: int, i: nat)
    requires Fits(h.chain, HDR, need, i) && size == h.chain[i + 1].off - h.chain[i].off - HDR
    ensures var x, split := h.chain[i].off, size >= need + HDR + MIN_WORDS;
            var c := if split then Carve(h.chain, i, x + need + HDR) else h.chain[i := Block(x, true)];
            var f := if split then [x + need + HDR] + Minus(h.frees, x) else Minus(h.frees, x);
            && Take(h, need, i).Available() == h.Available() - (if split then need + HDR else size)
            && Take(h, need, i) == Heap(c, f, h.pool, Larger(h.maxUsed, h.pool - Take(h, need, i).Available()))
  {
    hide Minus, Total;
    OccupyTotal(h.chain, HDR, MIN_WORDS, need, i);
  }

  class MemHeap {
    const words: array<int>
    const self: int      // the address of this object, which every header names
    const poolSize: nat
    var available: int
    var maxUsed: int
    ghost var chain: Chain
    ghost var frees: seq<nat>

    /** The heap as a specification value. */
    ghost function Abs(): Heap
      reads this
    {
      Heap(chain, frees, poolSize, maxUsed)
    }

    ghost predicate Shape()
      reads this, words
    {
      InWords(words[..], chain, frees, self) && words.Length == poolSize + HDR
    }

    ghost predicate Valid()
      reads this, words
    {
      Shape() && Inv(Abs()) && available == Abs().Available()
    }

    /** rt_memheap_init: one free block over the pool, closed by a used tailer. */
    constructor (poolSize: nat, self: int)
      requires HDR + WIDE < poolSize && 4 * (poolSize + HDR) <= SIZE_SPAN
      ensures Valid() && fresh(words) && Abs() == Empty(poolSize)
    {
      this.poolSize, this.self := poolSize, self;
      words := new int[poolSize + HDR];
      available := poolSize - 2 * HDR;
      maxUsed := 2 * HDR;
      chain, frees := Empty(poolSize).chain, [HDR];
      new;
      EmptyInv(poolSize);
      SetUp();
    }

    /** Writes the header of an item. */
    method WriteItem(x: nat, magic: int, next: int, prev: int, nextFree: int, prevFree: int)
      requires x + HDR <= words.Length
      modifies words
      ensures words[x] == magic && words[x + 1] == self && words[x + NEXT] == next && words[x + PREV] == prev
      ensures words[x + NEXT_FREE] == nextFree && words[x + PREV_FREE] == prevFree
      ensures forall k :: 0 <= k < words.Length && !(x <= k < x + HDR) ==> words[k] == old(words[k])
    {
      words[x], words[x + 1], words[x + NEXT], words[x + PREV] := magic, self, next, prev;
      words[x + NEXT_FREE], words[x + PREV_FREE] := nextFree, prevFree;
    }

    /** Writes the free list's header, the big block and the tailer. */
    method SetUp()
      requires HDR + WIDE < poolSize && words.Length == poolSize + HDR
      modifies words
      ensures InWords(words[..], Empty(poolSize).chain, [HDR], self)
    {
      words[0 + NEXT_FREE], words[0 + PREV_FREE] := HDR, HDR;
      WriteItem(HDR, MAGIC, poolSize, poolSize, 0, 0);
      WriteItem(poolSize, MAGIC + 1, HDR, HDR, NULL, NULL);
      EmptyWords(words[..], poolSize, self);
    }

    /** What the header words of block `i` say. */
    lemma AtBlock(i: nat)
      requires Shape() && i < |chain|
      ensures chain[i].off + HDR <= words.Length && HDR <= chain[i].off
      ensures words[chain[i].off] == MAGIC + (if chain[i].used then 1 else 0)
      ensures words[chain[i].off + NEXT] == chain[if i + 1 < |chain| then i + 1 else 0].off
      ensures words[chain[i].off + PREV] == chain[if i == 0 then |chain| - 1 else i - 1].off
      ensures i + 1 < |chain| ==> chain[i].off + WIDE < chain[i + 1].off
    {
      var r := Offsets(chain);
      assert Tagged(words[..], chain, self, i);
      assert Linked(words[..], r, NEXT, PREV, i) && Linked(words[..], r, NEXT, PREV, if i == 0 then |r| - 1 else i - 1);
      AllIncreasing(chain, WIDE);
    }

    predicate IsUsed(x: nat)
      requires x < words.Length
      reads words
    {
      words[x] % 2 == 1
    }

    /** Unlinks `x`, entry `k`, from the free list. */
    method RemoveFree(x: nat, ghost k: nat)
      requires Shape() && k < |frees| && frees[k] == x
      modifies this`frees, words
      ensures Shape() && frees == Minus(old(frees), x) && x !in frees
      ensures KeepsData(chain, HDR, old(words[..]), words[..])
    {
      ghost var w, r := words[..], [0] + frees;
      assert Linked(w, r, NEXT_FREE, PREV_FREE, k + 1) && Linked(w, r, NEXT_FREE, PREV_FREE, k);
      words[words[x + NEXT_FREE] + PREV_FREE] := words[x + PREV_FREE];
      words[words[x + PREV_FREE] + NEXT_FREE] := words[x + NEXT_FREE];
      assert words[..] == Unlinked(w, r, NEXT_FREE, PREV_FREE, k + 1);
      RemoveFreeWords(w, chain, frees, self, k);
      KeepsUserData(w, words[..], chain, 4, 6);
      WithoutMeaning(frees, k);
      frees := Without(frees, k);
    }

    /** Sets the links of `x`, which is on no list, to null. */
    method ClearLinks(x: nat)
      requires Shape() && IsHead(chain, x) && x != 0 && x !in frees && x + HDR <= words.Length
      modifies words
      ensures Shape() && KeepsData(chain, HDR, old(words[..]), words[..])
    {
      ghost var w := words[..];
      words[x + NEXT_FREE] := NULL;
      words[x + PREV_FREE] := NULL;
      ClearWords(w, chain, frees, self, x);
      assert words[..] == w[x + NEXT_FREE := NULL][x + PREV_FREE := NULL];
      KeepsUserData(w, words[..], chain, 4, 6);
    }

    /** Puts `x` at the front of the free list. */
    method PushFree(x: nat)
      requires Shape() && IsHead(chain, x) && x != 0 && x !in frees && x + HDR <= words.Length
      modifies this`frees, words
      ensures Shape() && frees == [x] + old(frees)
      ensures KeepsData(chain, HDR, old(words[..]), words[..])
    {
      ghost var w, r := words[..], [0] + frees;
      assert Linked(w, r, NEXT_FREE, PREV_FREE, 0);
      words[x + NEXT_FREE] := words[0 + NEXT_FREE];
      words[x + PREV_FREE] := 0;
      words[words[0 + NEXT_FREE] + PREV_FREE] := x;
      words[0 + NEXT_FREE] := x;
      RingOfFrees(w, chain, frees, self);
      HeadsApart(chain, x, r[0]);
      HeadsApart(chain, x, if 1 < |r| then r[1] else r[0]);
      HeadsApart(chain, r[0], if 1 < |r| then r[1] else r[0]);
      assert LinkedIn(w, words[..], r, NEXT_FREE, PREV_FREE, 1, x);
      PushFreeWords(w, words[..], chain, frees, self, x);
      KeepsUserData(w, words[..], chain, 4, 6);
      frees := [x] + frees;
    }

    /** Marks block `i`, headed at `x`, used or free. */
    method SetMagic(x: nat, used: bool, ghost i: nat)
      requires Shape() && i + 1 < |chain| && chain[i].off == x
      modifies this`chain, words
      ensures Shape() && chain == old(chain)[i := Block(x, used)]
      ensures KeepsData(old(chain), HDR, old(words[..]), words[..])
    {
      AtBlock(i);
      ghost var w := words[..];
      words[x] := MAGIC + (if used then 1 else 0);
      MagicWords(w, chain, frees, self, i, used);
      KeepsUserData(w, words[..], chain, 0, 1);
      chain := chain[i := Block(x, used)];
    }

    /** Takes block `k`, headed at `x` and on no free list, out of the block list. */
    method DropBlock(x: nat, ghost k: nat)
      requires Shape() && 0 < k < |chain| - 1 && chain[k].off == x && x !in frees
      modifies this`chain, words
      ensures Shape() && chain == Drop(old(chain), k)
      ensures KeepsData(old(chain), HDR, old(words[..]), words[..])
    {
      AtBlock(k - 1);
      AtBlock(k);
      AtBlock(k + 1);
      ghost var w, c := words[..], chain;
      Bypass(x);
      DropWords(w, words[..], c, frees, self, k);
      KeepsUserData(w, words[..], c, 2, 4);
      chain := Drop(c, k);
    }

    /** Makes the block-list neighbours of `x` point at each other. */
    method Bypass(x: nat)
      requires x + HDR <= words.Length
      requires 0 <= words[x + NEXT] && words[x + NEXT] + HDR <= words.Length && 0 <= words[x + PREV] && words[x + PREV] + HDR <= x
      modifies words
      ensures var next, prev := old(words[x + NEXT]), old(words[x + PREV]);
              words[..] == old(words[..])[next + PREV := prev][prev + NEXT := next]
    {
      var next := words[x + NEXT];
      words[next + PREV] := words[x + PREV];
      words[words[x + PREV] + NEXT] := next;
    }

    /** Writes a free item at `at` and links it into the block list behind `x`. */
    method LinkItem(x: nat, at: nat)
      requires x + HDR <= at && at + HDR <= words.Length && x + NEXT < words.Length
      requires at + HDR <= words[x + NEXT] && words[x + NEXT] + HDR <= words.Length
      modifies words
      ensures var next := old(words[x + NEXT]);
              && words[at] == MAGIC && words[at + 1] == self && words[at + NEXT] == next && words[at + PREV] == x
              && words[x + NEXT] == at && words[next + PREV] == at
      ensures forall k :: 0 <= k < words.Length ==>
                words[k] == old(words[k]) || at <= k < at + NEXT_FREE || k == x + NEXT || k == old(words[x + NEXT]) + PREV
    {
      words[at] := MAGIC;
      words[at + 1] := self;
      words[at + PREV] := x;
      words[at + NEXT] := words[x + NEXT];
      words[words[x + NEXT] + PREV] := at;
      words[x + NEXT] := at;
    }

    /** Writes a free item at `at` inside block `i`, headed at `x`, and links it into the block list. */
    method InsertBlock(x: nat, at: nat, ghost i: nat)
      requires Shape() && i + 1 < |chain| && chain[i].off == x
      requires x + WIDE < at && at + WIDE < chain[i + 1].off
      modifies this`chain, words
      ensures Shape() && chain == Insert(old(chain), i, at)
      ensures IsHead(chain, at) && at !in frees && at + HDR <= words.Length
      ensures DiffersAt(old(words[..]), words[..], chain, 0, 6)
    {
      hide InWords, IsHead, DiffersAt, Insert;
      AtBlock(i);
      AtBlock(i + 1);
      ghost var w := words[..];
      LinkItem(x, at);
      assert InsertedAt(w, words[..], chain, self, i, at);
      InsertWords(w, words[..], chain, frees, self, i, at);
      chain := Insert(chain, i, at);
    }

    /** What the words of entry `k` of the free list say; entry 0 comes right behind the list header. */
    lemma AtFree(k: nat)
      requires Valid() && k <= |frees|
      ensures (if k == 0 then 0 else frees[k - 1]) + HDR <= words.Length
      ensures words[(if k == 0 then 0 else frees[k - 1]) + NEXT_FREE] == if k < |frees| then frees[k] else 0
      ensures k < |frees| ==>
                && frees[k] + HDR <= words.Length && frees[k] != 0
                && words[frees[k] + NEXT] - frees[k] - HDR == DataOf(chain, frees[k])
    {
      hide IsHead, WellFormed, Listed, Heap.Available;
      assert Linked(words[..], [0] + frees, NEXT_FREE, PREV_FREE, k);
      if 0 < k {
        ListedBlock(Abs(), frees[k - 1], 0);
        AtBlock(BlockAt(chain, HDR, frees[k - 1] + HDR));
      }
      if k < |frees| {
        ListedBlock(Abs(), frees[k], 0);
        AtBlock(BlockAt(chain, HDR, frees[k] + HDR));
      }
    }

    /** The first item on the free list with `need` words, and its size. */
    method FindListed(need: nat) returns (x: int, size: int, ghost k: nat)
      requires Valid() && 0 < need
      ensures k == FirstListed(chain, frees, need, 0)
      ensures if k == |frees| then size < need else x == frees[k] && size == DataOf(chain, frees[k]) >= need
    {
      hide Inv, InWords, DataOf;
      AtFree(0);
      size, k := 0, 0;
      x := words[0 + NEXT_FREE];
      while x != 0 && size < need
        invariant k <= |frees| && x == (if k < |frees| then frees[k] else 0)
        invariant forall j :: 0 <= j < k ==> DataOf(chain, frees[j]) < need
        invariant size >= need ==> k < |frees| && size == DataOf(chain, frees[k])
        decreases |frees| - k, if size < need then 1 else 0
      {
        AtFree(k);
        size := words[x + NEXT] - x - HDR;
        if size < need {
          AtFree(k + 1);
          x := words[x + NEXT_FREE];
          k := k + 1;
        }
      }
      if k < |frees| {
        AtFree(k);
      }
    }

    /** Uses the front of the free item `x`, entry `k`; the rest becomes a free item of its own. */
    method ClaimFront(x: nat, at: nat, ghost i: nat, ghost k: nat)
      requires Shape() && i + 1 < |chain| && chain[i] == Block(x, false) && k < |frees| && frees[k] == x
      requires x + WIDE < at && at + WIDE < chain[i + 1].off
      modifies this`chain, this`frees, words
      ensures Shape() && chain == Carve(old(chain), i, at) && frees == [at] + Minus(old(frees), x)
      ensures KeepsData(old(chain), HDR, old(words[..]), words[..])
    {
      hide IsHead, WellFormed, Tagged, Heads, IsRing;
      InsertHolds(chain, HDR, i, at);
      ghost var c, w := chain, words[..];
      InsertBlock(x, at, i);
      ghost var d := chain;
      KeepsUserData(w, words[..], d, 0, 6);
      BlockIsHead(d, i);
      AtBlock(i);
      RemoveFree(x, k);
      ClearLinks(x);
      PushFree(at);
      SetMagic(x, true, i);
      assert chain == Carve(c, i, at);
      SameUserWords(c, d, HDR);
    }

    /** Uses the whole free item `x`, entry `k`. */
    method ClaimWhole(x: nat, ghost i: nat, ghost k: nat)
      requires Shape() && i + 1 < |chain| && chain[i] == Block(x, false) && k < |frees| && frees[k] == x
      modifies this`chain, this`frees, words
      ensures Shape() && chain == old(chain)[i := Block(x, true)] && frees == Minus(old(frees), x)
      ensures KeepsData(old(chain), HDR, old(words[..]), words[..])
    {
      BlockIsHead(chain, i);
      AtBlock(i);
      RemoveFree(x, k);
      ClearLinks(x);
      SetMagic(x, true, i);
    }

    /** Records a new peak of words in use. */
    method RaisePeak()
      modifies this`maxUsed
      ensures maxUsed == Larger(old(maxUsed), poolSize - available)
    {
      if poolSize - available > maxUsed {
        maxUsed := poolSize - available;
      }
    }

    /** Uses the free item `x` of `size` words for `need`, splitting it when the rest can be an item. */
    method Claim(x: nat, need: nat, size: int, ghost i: nat, ghost k: nat)
      requires Valid() && Fits(chain, HDR, need, i) && chain[i].off == x && MIN_WORDS <= need
      requires k < |frees| && frees[k] == x && size == chain[i + 1].off - x - HDR
      modifies this, words
      ensures Shape() && Abs() == Take(old(Abs()), need, i) && available == Abs().Available()
      ensures KeepsData(old(chain), HDR, old(words[..]), words[..])
    {
      hide Inv, InWords, Take, Carve, Total, KeepsData;
      ClaimReady(Abs(), need, size, i);
      if size >= need + HDR + MIN_WORDS {
        ClaimFront(x, x + need + HDR, i, k);
        available := available - need - HDR;
      } else {
        available := available - size;
        ClaimWhole(x, i, k);
      }
      RaisePeak();
    }

    /** rt_memheap_alloc. */
    method Alloc(size: nat) returns (r: Option<nat>)
      requires Valid()
      modifies this, words
      ensures Valid() && (Abs(), r) == FreeListHeap.Alloc(old(Abs()), size)
      ensures r.None? ==> words[..] == old(words[..])
      ensures KeepsData(old(chain), HDR, old(words[..]), words[..])
    {
      var need := AlignedWords(size);
      if need < MIN_WORDS {
        need := MIN_WORDS;
      }
      if need < available {
        var x, found;
        ghost var k;
        x, found, k := FindListed(need);
        if found >= need {
          ghost var i := AllocIs(Abs(), size, k);
          Claim(x, need, found, i, k);
          return Some(x + HDR);
        }
      }
      return None;
    }

    /** Frees the used item `x`: its bit is cleared and its data counted available. */
    method FreeItem(x: nat, ghost i: nat)
      requires Shape() && i + 1 < |chain| && chain[i].off == x
      modifies this`chain, this`available, words
      ensures Shape() && chain == old(chain)[i := Block(x, false)]
      ensures available == old(available) + (old(chain)[i + 1].off - x - HDR)
      ensures KeepsData(old(chain), HDR, old(words[..]), words[..])
    {
      SetMagic(x, false, i);
      AtBlock(i);
      available := available + (words[x + NEXT] - x - HDR);
    }

    /** Joins the free item `x`, block `i`, which is on no list, to a free left neighbour. */
    method JoinLeftItem(x: nat, ghost i: nat) returns (y: nat, alone: bool, ghost j: nat)
      requires Shape() && i + 1 < |chain| && chain[i] == Block(x, false) && x !in frees
      modifies this`chain, this`available, words
      ensures Shape() && chain == JoinLeft(old(chain), i)
      ensures alone <==> i == 0 || old(chain)[i - 1].used
      ensures j == (if alone then i else i - 1) && j + 1 < |chain| && chain[j] == Block(y, false)
      ensures available == old(available) + (if alone then 0 else HDR)
      ensures KeepsData(old(chain), HDR, old(words[..]), words[..])
    {
      AtBlock(i);
      AtBlock(if i == 0 then |chain| - 1 else i - 1);
      y, alone, j := x, true, i;
      var prev := words[x + PREV];
      if !IsUsed(prev) {
        available := available + HDR;
        DropBlock(x, i);
        y, alone, j := prev, false, i - 1;
      }
    }

    /** Takes the free item `next`, block `k`, off both lists. The two unlinkings write different
        words, so they may be taken in this order. */
    method RemoveItem(next: nat, ghost k: nat)
      requires Shape() && 0 < k < |chain| - 1 && chain[k].off == next && next in frees
      modifies this`chain, this`frees, words
      ensures Shape() && chain == Drop(old(chain), k) && frees == Minus(old(frees), next)
      ensures KeepsData(old(chain), HDR, old(words[..]), words[..])
    {
      ghost var m :| 0 <= m < |frees| && frees[m] == next;
      RemoveFree(next, m);
      DropBlock(next, k);
    }

    /** Joins a free right neighbour, which is on the list, to the free item `x`, block `j`. */
    method JoinRightItem(x: nat, ghost j: nat)
      requires Shape() && j + 1 < |chain| && chain[j] == Block(x, false)
      requires !chain[j + 1].used ==> chain[j + 1].off in frees
      modifies this`chain, this`frees, this`available, words
      ensures Shape() && chain == JoinRight(old(chain), j)
      ensures IsHead(chain, x) && x != 0 && x + HDR <= words.Length
      ensures frees == if old(chain)[j + 1].used then old(frees) else Minus(old(frees), old(chain)[j + 1].off)
      ensures available == old(available) + (if old(chain)[j + 1].used then 0 else HDR)
      ensures KeepsData(old(chain), HDR, old(words[..]), words[..])
    {
      AtBlock(j);
      AtBlock(j + 1);
      var next := words[x + NEXT];
      if !IsUsed(next) {
        available := available + HDR;
        RemoveItem(next, j + 1);
      }
      BlockIsHead(chain, j);
    }

    /** Joins the free item `x`, block `i`, which is on no list, to its free neighbours. */
    method JoinItem(x: nat, ghost i: nat) returns (y: nat, alone: bool)
      requires Shape() && i + 1 < |chain| && chain[i] == Block(x, false) && x !in frees
      requires !chain[i + 1].used ==> chain[i + 1].off in frees
      modifies this`chain, this`frees, this`available, words
      ensures Shape() && chain == Coalesce(old(chain), i)
      ensures alone <==> i == 0 || old(chain)[i - 1].used
      ensures y == (if alone then x else old(chain)[i - 1].off)
      ensures frees == if old(chain)[i + 1].used then old(frees) else Minus(old(frees), old(chain)[i + 1].off)
      ensures available == old(available) + (if alone then 0 else HDR) + (if old(chain)[i + 1].used then 0 else HDR)
      ensures IsHead(chain, y) && y != 0 && y + HDR <= words.Length
      ensures KeepsData(chain, HDR, old(words[..]), words[..])
    {
      ghost var c, w := chain, words[..];
      ghost var j;
      y, alone, j := JoinLeftItem(x, i);
      ghost var d, v := chain, words[..];
      LeftThenRight(c, i, d, j);
      JoinRightItem(y, j);
      assert chain == Coalesce(c, i);
      JoinData(c, d, chain, i, w, v, words[..]);
    }

    /** rt_memheap_free. */
    method Free(ptr: Option<nat>)
      requires Valid() && Pointer(chain, HDR, ptr)
      modifies this`chain, this`frees, this`available, words
      ensures Valid() && Abs() == FreeListHeap.Free(old(Abs()), ptr)
      ensures KeepsData(chain, HDR, old(words[..]), words[..])
    {
      if ptr.None? {
        return;
      }
      Narrow(chain);
      PointerBlock(chain, HDR, ptr.value);
      GiveKeeps(Abs(), BlockAt(chain, HDR, ptr.value));
      ReleaseItem(ptr.value - HDR, BlockAt(chain, HDR, ptr.value));
    }

    /** Frees the used item `x`, joins it to its free neighbours and lists it if it stands alone on
        the left. */
    method ReleaseItem(x: nat, ghost i: nat)
      requires Valid() && i + 1 < |chain| && chain[i] == Block(x, true)
      modifies this`chain, this`frees, this`available, words
      ensures Shape() && Abs() == Give(old(Abs()), i) && available == Abs().Available()
      ensures KeepsData(chain, HDR, old(words[..]), words[..])
    {
      hide Inv, InWords, KeepsData;
      ghost var h, w := Abs(), words[..];
      GiveReady(h, i);
      FreeItem(x, i);
      ghost var v := words[..];
      var y, alone := JoinItem(x, i);
      ghost var u := words[..];
      if alone {
        PushFree(y);
      }
      assert KeepsData(chain, HDR, w, words[..]) by {
        JoinsKeepData(chain, h.chain, HDR, w, w, v);
        JoinsKeepData(chain, chain, HDR, w, v, u);
        JoinsKeepData(chain, chain, HDR, w, u, words[..]);
      }
    }

    /** Realloc in place, growing: the free item behind `x` moves on to `at`. */
    method GrowItem(x: nat, at: nat, ghost i: nat)
      requires Shape() && i + 2 < |chain| && chain[i] == Block(x, true) && !chain[i + 1].used
      requires chain[i + 1].off in frees && chain[i + 1].off < at && at + WIDE < chain[i + 2].off
      modifies this`chain, this`frees, words
      ensures Shape() && chain == Slide(old(chain), i + 1, at) && frees == [at] + Minus(old(frees), old(chain)[i + 1].off)
      ensures KeepsData(old(chain), HDR, old(words[..]), words[..])
    {
      ghost var c, w := chain, words[..];
      AtBlock(i);
      AtBlock(i + 1);
      RemoveItem(words[x + NEXT], i + 1);
      ghost var v := words[..];
      InsertBlock(x, at, i);
      assert chain == Slide(c, i + 1, at);
      ghost var u := words[..];
      KeepsUserData(v, u, chain, 0, 6);
      PushFree(at);
      SlideUserWords(c, i + 1, at);
    }

    /** Takes a free right neighbour of the free item `at`, block `j`, into it; its words are not
        available any more. */
    method DropRight(at: nat, ghost j: nat)
      requires Shape() && j + 1 < |chain| && chain[j] == Block(at, false) && at !in frees
      requires !chain[j + 1].used ==> chain[j + 1].off in frees
      modifies this`chain, this`frees, this`available, words
      ensures Shape() && chain == JoinRight(old(chain), j) && at !in frees && j + 1 < |chain|
      ensures frees == if old(chain)[j + 1].used then old(frees) else Minus(old(frees), old(chain)[j + 1].off)
      ensures available == old(available)
              - (if old(chain)[j + 1].used then 0 else chain[j + 1].off - old(chain)[j + 1].off - HDR)
      ensures KeepsData(old(chain), HDR, old(words[..]), words[..])
    {
      assert !chain[j + 1].used ==> j + 1 < |chain| - 1;
      hide InWords;
      AtBlock(j);
      AtBlock(j + 1);
      var next := words[at + NEXT];
      if !IsUsed(next) {
        AtBlock(j + 2);
        available := available - (words[next + NEXT] - next - HDR);
        MinusKeeps(frees, next, at);
        RemoveItem(next, j + 1);
      }
    }

    /** Lists the free item `at`, block `j`, and counts its words available. */
    method ListItem(at: nat, ghost j: nat)
      requires Shape() && j + 1 < |chain| && chain[j] == Block(at, false) && at !in frees
      modifies this`frees, this`available, words
      ensures Shape() && frees == [at] + old(frees)
      ensures available == old(available) + (chain[j + 1].off - at - HDR)
      ensures KeepsData(chain, HDR, old(words[..]), words[..])
    {
      hide InWords, KeepsData;
      AtBlock(j);
      BlockIsHead(chain, j);
      PushFree(at);
      AtBlock(j);
      available := available + (words[at + NEXT] - at - HDR);
    }

    /** Joins the free item `at`, block `j`, to a free right neighbour and lists it; the words
        available grow by the new item less the one it took in. */
    method ListRemainder(at: nat, ghost j: nat)
      requires Shape() && j + 1 < |chain| && chain[j] == Block(at, false) && at !in frees
      requires !chain[j + 1].used ==> chain[j + 1].off in frees
      modifies this`chain, this`frees, this`available, words
      ensures Shape() && chain == JoinRight(old(chain), j)
      ensures frees == [at] + if old(chain)[j + 1].used then old(frees) else Minus(old(frees), old(chain)[j + 1].off)
      ensures available == old(available) + (old(chain)[j + 1].off - at - HDR) + (if old(chain)[j + 1].used then 0 else HDR)
      ensures KeepsData(old(chain), HDR, old(words[..]), words[..])
    {
      Narrow(chain);
      hide InWords, KeepsData, Minus;
      ghost var c, w := chain, words[..];
      DropRight(at, j);
      ghost var v := words[..];
      ListItem(at, j);
      JoinRightHolds(c, HDR, j);
      JoinsKeepData(c, chain, HDR, w, v, words[..]);
    }

    /** Realloc in place, shrinking: the used item `x` ends at `at`, and what is behind is freed. */
    method CutItem(x: nat, at: nat, ghost i: nat)
      requires Shape() && i + 1 < |chain| && chain[i] == Block(x, true)
      requires !chain[i + 1].used ==> chain[i + 1].off in frees
      requires x + WIDE < at && at + WIDE < chain[i + 1].off
      modifies this`chain, this`frees, this`available, words
      ensures Shape() && chain == Shrink(old(chain), i, at)
      ensures frees == [at] + if old(chain)[i + 1].used then old(frees) else Minus(old(frees), old(chain)[i + 1].off)
      ensures available == old(available) + (old(chain)[i + 1].off - at - HDR) + (if old(chain)[i + 1].used then 0 else HDR)
      ensures KeepsData(chain, HDR, old(words[..]), words[..])
    {
      ghost var c, w := chain, words[..];
      InsertBlock(x, at, i);
      ghost var d, v := chain, words[..];
      CarveIsInsert(c, i, at);
      KeepsUserData(w, v, d, 0, 6);
      ListRemainder(at, i + 1);
      Narrow(d);
      CoalesceKeepsData(d, HDR, i + 1, w, v, words[..]);
    }

    /** Copies `n` words of the block at `p` into the block at `r`, then frees the first. */
    method CopyAndFree(p: nat, r: nat, n: nat)
      requires Valid() && Pointer(chain, HDR, Some(p)) && HasBlock(chain, HDR, p, n) && HasBlock(chain, HDR, r, n) && p != r
      modifies this`chain, this`frees, this`available, words
      ensures Valid() && Abs() == FreeListHeap.Free(old(Abs()), Some(p))
      ensures Copied(old(words[..]), words[..], p, r, n) && KeepsOthers(chain, HDR, old(words[..]), words[..], r)
    {
      ghost var h, w := Abs(), words[..];
      Narrow(chain);
      CopyBlock(words, chain, HDR, r, p, n);
      UserWritesKeepHeaders(w, words[..], chain, frees, self);
      ghost var v := words[..];
      Free(Some(p));
      FreeMeaning(h, Some(p));
      FreeKeepsCopy(h.chain, chain, HDR, p, r, n, w, v, words[..]);
    }

    /** Realloc by moving: allocate, copy what fits, free the old block. */
    method MoveItem(p: nat, size: nat, need: nat) returns (r: Option<nat>)
      requires Valid() && Pointer(chain, HDR, Some(p)) && size == SizeAt(chain, HDR, p) && Need(4 * need) == need
      modifies this, words
      ensures Valid() && (Abs(), r) == Move(old(Abs()), p, need)
      ensures r.None? ==> words[..] == old(words[..])
      ensures r.Some? ==>
                && Copied(old(words[..]), words[..], p, r.value, SmallerOf(size, need))
                && KeepsOthers(chain, HDR, old(words[..]), words[..], r.value)
    {
      ghost var h, w := Abs(), words[..];
      r := Alloc(4 * need);
      if r.Some? {
        ghost var v := words[..];
        MoveReady(h, p, need, Abs(), r.value);
        CopyAndFree(p, r.value, SmallerOf(size, need));
        Narrow(h.chain);
        MoveMeaning(h, p, need, Abs(), r);
        AllocKeepsCopy(h.chain, chain, HDR, p, r.value, SmallerOf(size, need), w, v, words[..]);
      }
    }

    /** Realloc in place at the Valid level: growing into the free item behind. */
    method GrowTo(p: nat, size: nat, need: nat, ghost i: nat)
      requires Valid() && CanGrow(chain, i, need) && HDR <= p && chain[i] == Block(p - HDR, true)
      requires size == chain[i + 1].off - p < need && need + MIN_WORDS < WORD_SPAN
      modifies this, words
      ensures Valid() && Abs() == Grow(old(Abs()), i, need)
      ensures KeepsData(old(chain), HDR, old(words[..]), words[..])
    {
      hide Total;
      ghost var h := Abs();
      GrowKeeps(h, i, need);
      GrowsInside(h, i, need);
      assert FreeAt(chain, chain[i + 1].off, i + 1);
      SlideTotal(FreeData(HDR), chain, i + 1, p + need);
      available := available - (need - size);
      RaisePeak();
      GrowItem(p - HDR, p + need, i);
    }

    /** Realloc in place at the Valid level: cutting the item to `need` words. */
    method CutTo(p: nat, need: nat, ghost i: nat)
      requires Valid() && i + 1 < |chain| && HDR <= p && chain[i] == Block(p - HDR, true) && MIN_WORDS <= need
      requires p + need + HDR + MIN_WORDS < chain[i + 1].off
      modifies this`chain, this`frees, this`available, words
      ensures Valid() && Abs() == Cut(old(Abs()), i, need)
      ensures KeepsData(chain, HDR, old(words[..]), words[..])
    {
      hide Inv, InWords, Total, Shrink;
      ghost var h := Abs();
      ghost var g := Cut(h, i, need);
      CutReady(h, i, need, g);
      CutItem(p - HDR, p + need, i);
      assert Abs() == g;
    }

    /** Realloc in place: the size is kept, or the item is cut to `need` words. */
    method StayItem(p: nat, size: nat, need: nat, ghost i: nat)
      requires Valid() && i + 1 < |chain| && HDR <= p && chain[i] == Block(p - HDR, true)
      requires size == chain[i + 1].off - p && MIN_WORDS <= need <= size
      modifies this`chain, this`frees, this`available, words
      ensures Valid() && Abs() == if need + HDR + MIN_WORDS >= size then old(Abs()) else Cut(old(Abs()), i, need)
      ensures KeepsData(chain, HDR, old(words[..]), words[..])
    {
      if need + HDR + MIN_WORDS < size {
        CutTo(p, need, i);
      }
    }

    /** The words of the free neighbour behind the used item at `p`, when there is one. */
    method RoomBehind(p: nat, ghost i: nat) returns (free: bool, room: int)
      requires Valid() && i + 1 < |chain| && HDR <= p && chain[i] == Block(p - HDR, true)
      ensures free == !chain[i + 1].used
      ensures free ==> i + 2 < |chain| && room == chain[i + 2].off - chain[i + 1].off - HDR
    {
      AtBlock(i);
      AtBlock(i + 1);
      var next := words[p - HDR + NEXT];
      free, room := !IsUsed(next), 0;
      if free {
        room := words[next + NEXT] - next - HDR;
      }
    }

    /** The test of realloc by which an item grows in place, on sizes that wrap. */
    method TestGrowth(p: nat, size: nat, need: nat, ghost i: nat) returns (grow: bool)
      requires Valid() && i + 1 < |chain| && HDR <= p && chain[i] == Block(p - HDR, true) && size == chain[i + 1].off - p
      ensures grow == CanGrow(chain, i, need)
    {
      var free, room := RoomBehind(p, i);
      grow := free && room + size > (need + MIN_WORDS) % WORD_SPAN;
    }

    /** Realloc to more words than the item has: into the free item behind it, or by moving. */
    method GrowOrMove(p: nat, size: nat, need: nat, ghost i: nat) returns (r: Option<nat>)
      requires Valid() && Pointer(chain, HDR, Some(p)) && need == Need(4 * need)
      requires i == BlockAt(chain, HDR, p) && i + 1 < |chain| && HDR <= p && chain[i] == Block(p - HDR, true)
      requires size == SizeAt(chain, HDR, p) < need && HasBlock(chain, HDR, p, size)
      requires need + MIN_WORDS < WORD_SPAN || chain[i + 1].used
      modifies this, words
      ensures Valid() && (Abs(), r) == Resize(old(Abs()), p, i, need)
      ensures r.None? ==> words[..] == old(words[..])
      ensures r.Some? ==> Copied(old(words[..]), words[..], p, r.value, size)
      ensures KeepsOthers(chain, HDR, old(words[..]), words[..], if r.Some? then r.value else 0)
    {
      ghost var h, w := Abs(), words[..];
      var grow := TestGrowth(p, size, need, i);
      if grow {
        GrowTo(p, size, need, i);
        GrowData(h, i, need, Abs(), p, size, w, words[..]);
        return Some(p);
      }
      r := MoveItem(p, size, need);
      if r.None? {
        KeptOthers(chain, HDR, w, words[..], 0);
      }
    }

    /** The block at `p` resized to `need` words: grown in place, moved, kept or cut. */
    method ResizeItem(p: nat, need: nat, ghost i: nat) returns (r: Option<nat>)
      requires Valid() && Pointer(chain, HDR, Some(p)) && MIN_WORDS <= need == Need(4 * need)
      requires i == BlockAt(chain, HDR, p) && i + 1 < |chain| && HDR <= p && chain[i] == Block(p - HDR, true)
      requires need + MIN_WORDS < WORD_SPAN || chain[i + 1].used
      modifies this, words
      ensures Valid() && (Abs(), r) == Resize(old(Abs()), p, i, need)
      ensures r.None? ==> words[..] == old(words[..])
      ensures r.Some? ==> Copied(old(words[..]), words[..], p, r.value, SmallerOf(old(SizeAt(chain, HDR, p)), need))
      ensures KeepsOthers(chain, HDR, old(words[..]), words[..], if r.Some? then r.value else 0)
    {
      ghost var h, w := Abs(), words[..];
      Narrow(chain);
      PointerHasBlock(chain, HDR, p);
      AtBlock(i);
      var size := words[p - HDR + NEXT] - p;
      if need > size {
        r := GrowOrMove(p, size, need, i);
      } else {
        StayItem(p, size, need, i);
        StayData(h, p, i, need, Abs(), w, words[..]);
        r := Some(p);
      }
    }

    /** rt_memheap_realloc. */
    method Realloc(ptr: Option<nat>, newsize: nat) returns (r: Option<nat>)
      requires Valid() && Pointer(chain, HDR, ptr) && !Wraps(Abs(), ReallocCall(ptr, newsize))
      modifies this, words
      ensures Valid() && (Abs(), r) == FreeListHeap.Realloc(old(Abs()), ptr, newsize)
      ensures r.None? && newsize != 0 ==> words[..] == old(words[..])
      ensures r.Some? && ptr.Some? ==>
                Copied(old(words[..]), words[..], ptr.value, r.value,
                       SmallerOf(old(SizeAt(chain, HDR, ptr.value)), Need(newsize)))
      ensures KeepsOthers(chain, HDR, old(words[..]), words[..], if r.Some? then r.value else 0)
    {
      ghost var h, w := Abs(), words[..];
      if newsize == 0 {
        Free(ptr);
        KeptOthers(chain, HDR, w, words[..], 0);
        return None;
      }
      var need := AlignedWords(newsize);
      if need < MIN_WORDS {
        need := MIN_WORDS;
      }
      if ptr.None? {
        r := Alloc(4 * need);
        AllocKeepsOthers(h, 4 * need, w, words[..]);
        return;
      }
      NeedTwice(newsize);
      Narrow(chain);
      PointerBlock(chain, HDR, ptr.value);
      r := ResizeItem(ptr.value, need, BlockAt(chain, HDR, ptr.value));
    }
  }
}
