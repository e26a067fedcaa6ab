/** Memory pools (mempool.c): equal blocks cut from one array, each behind a header word that threads
    the free list while the block is free and names the pool while it is allocated. Threads that find
    no block wait in last-in, first-out order. */
module MemPool {
  import opened Sizes
  import opened WaitList

  const NULL: int := -1
  const POOL: int := -2   // the address of the pool's control block

  datatype Outcome = Block(b: nat) | Blocked | TimedOut

  /** `free` is the free list in order; the other blocks are allocated. */
  datatype Pool = Pool(total: nat, free: seq<nat>, gate: Gate)

  function InOrderFrom(k: nat, total: nat): (s: seq<nat>)
    requires k <= total
    ensures |s| == total - k
    ensures forall i :: 0 <= i < |s| ==> s[i] == k + i
  {
    seq(total - k, i requires 0 <= i < total - k => k + i)
  }

  function Fresh(total: nat): Pool {
    Pool(total, InOrderFrom(0, total), NOBODY)
  }

  // ---------- Steps ----------

  /** One pass of rt_mp_alloc by thread `t`; `wait` says that time is left to wait. */
  function AllocStep(m: Pool, t: Thread, wait: bool): (Pool, Outcome) {
    var gate := m.gate.Entered(t);
    if m.free == [] then
      if wait then (m.(gate := gate.(waiting := [t] + gate.waiting)), Blocked)
      else (m.(gate := gate), TimedOut)
    else (m.(free := m.free[1..], gate := gate), Block(m.free[0]))
  }

  /** rt_mp_free. */
  function FreeStep(m: Pool, b: nat): Pool {
    m.(free := [b] + m.free, gate := m.gate.WakeOne())
  }

  ghost predicate Allocated(m: Pool, b: nat) {
    b < m.total && b !in m.free
  }

  ghost predicate Inv(m: Pool) {
    && (forall i :: 0 <= i < |m.free| ==> m.free[i] < m.total)
    && Distinct(m.free)
    && m.gate.Valid() && m.gate.Covers(|m.free|)
  }

  lemma FreshInv(total: nat)
    ensures Inv(Fresh(total)) && forall b :: !Allocated(Fresh(total), b)
  {
    var s := InOrderFrom(0, total);
    forall b: nat | b < total ensures b in s {
      assert s[b] == b;
    }
  }

  /** A block is given out only while it is free, and then is allocated; the others do not change. */
  lemma AllocMeaning(m: Pool, t: Thread, wait: bool)
    requires Inv(m) && t !in m.gate.waiting
    ensures var (n, r) := AllocStep(m, t, wait);
            && Inv(n) && (r.Block? <==> m.free != []) && (r.Blocked? <==> m.free == [] && wait)
            && n.gate.waiting == (if r.Blocked? then [t] + m.gate.waiting else m.gate.waiting)
            && n.gate.woken == m.gate.woken - {t}
            && (r.Block? ==> !Allocated(m, r.b))
            && (r.Block? ==> forall x :: Allocated(n, x) <==> x == r.b || Allocated(m, x))
            && (!r.Block? ==> n.free == m.free)
  {
    EnterCovers(m.gate, t, |m.free|);
    if m.free == [] {
      WaitCovers(m.gate, t, [t] + m.gate.waiting);
    } else {
      assert forall x :: x in m.free <==> x == m.free[0] || x in m.free[1..];
    }
  }

  lemma FreeMeaning(m: Pool, b: nat)
    requires Inv(m) && Allocated(m, b)
    ensures Inv(FreeStep(m, b))
    ensures forall x :: Allocated(FreeStep(m, b), x) <==> x != b && Allocated(m, x)
  {
    WakeOneCovers(m.gate, |m.free|);
  }

  /** Freeing a block straight after its allocation gives the old pool. */
  lemma FreeUndoesAlloc(m: Pool, t: Thread, wait: bool)
    requires m.free != [] && m.gate == NOBODY
    ensures FreeStep(AllocStep(m, t, wait).0, AllocStep(m, t, wait).1.b) == m
  {
    assert [m.free[0]] + m.free[1..] == m.free;
  }

  /** The thread that suspended last is the first to be resumed. */
  lemma LastWaiterFirst(m: Pool, t: Thread, b: nat)
    requires Inv(m) && m.free == [] && t !in m.gate.waiting
    ensures var n := FreeStep(AllocStep(m, t, true).0, b);
            n.gate.waiting == m.gate.waiting && n.gate.woken == m.gate.woken + {t}
  {
    assert m.gate.woken - {t} + {t} == m.gate.woken + {t};
  }

  // ---------- Runs ----------

  datatype Event = AllocPass(t: Thread, wait: bool) | FreeCall(b: nat) | Timeout(t: Thread)

  /** A pool and the blocks handed out and not yet returned. */
  datatype World = World(pool: Pool, held: set<nat>)

  /** A suspended thread does not run, and only what was handed out is freed. */
  ghost predicate Legal(w: World, e: Event) {
    match e
    case AllocPass(t, _) => t !in w.pool.gate.waiting
    case FreeCall(b) => b in w.held
    case Timeout(_) => true
  }

  function Next(w: World, e: Event): World {
    match e
    case AllocPass(t, wait) =>
      var (m, r) := AllocStep(w.pool, t, wait);
      World(m, if r.Block? then w.held + {r.b} else w.held)
    case FreeCall(b) => World(FreeStep(w.pool, b), w.held - {b})
    case Timeout(t) => w.(pool := w.pool.(gate := w.pool.gate.Expired(t)))
  }

  ghost predicate Reaches(w: World, es: seq<Event>, x: World)
    decreases |es|
  {
    if es == [] then w == x else Legal(w, es[0]) && Reaches(Next(w, es[0]), es[1..], x)
  }

  /** The blocks handed out are those the pool counts as allocated. */
  ghost predicate Kept(w: World) {
    Inv(w.pool) && forall b: nat :: b in w.held <==> Allocated(w.pool, b)
  }

  lemma NextKeeps(w: World, e: Event)
    requires Kept(w) && Legal(w, e)
    ensures Kept(Next(w, e)) && Next(w, e).pool.total == w.pool.total
    ensures e.Timeout? ==>
              && Next(w, e).held == w.held && Next(w, e).pool.free == w.pool.free
              && forall x :: x in Next(w, e).pool.gate.waiting <==> x in w.pool.gate.waiting && x != e.t
  {
    match e
    case AllocPass(t, wait) => AllocMeaning(w.pool, t, wait);
    case FreeCall(b) => FreeMeaning(w.pool, b);
    case Timeout(t) =>
      ExpireCovers(w.pool.gate, t, |w.pool.free|);
      assert forall b: nat :: Allocated(Next(w, e).pool, b) <==> Allocated(w.pool, b);
  }

  lemma {:induction false} RunKeeps(w: World, es: seq<Event>, x: World)
    requires Kept(w) && Reaches(w, es, x)
    ensures Kept(x) && x.pool.total == w.pool.total
    decreases |es|
  {
    if es != [] {
      NextKeeps(w, es[0]);
      RunKeeps(Next(w, es[0]), es[1..], x);
    }
  }

  function Below(n: nat): (s: set<nat>)
    ensures |s| == n && forall b: nat :: b in s <==> b < n
  {
    if n == 0 then {} else Below(n - 1) + {n - 1}
  }

  function Elements(s: seq<nat>): set<nat> {
    set b | b in s
  }

  lemma {:induction false} DistinctCount(s: seq<nat>)
    requires Distinct(s)
    ensures |Elements(s)| == |s|
  {
    if s != [] {
      DistinctCount(s[1..]);
      assert Elements(s) == Elements(s[1..]) + {s[0]};
      assert s[0] !in s[1..];
    }
  }

  /** Every run divides the blocks between those handed out and not yet returned and those on the free
      list, each there once; and while a thread waits, every free block has a resumed thread on its way
      to it. */
  lemma RunPartitions(total: nat, es: seq<Event>, x: World)
    requires Reaches(World(Fresh(total), {}), es, x)
    ensures x.held !! Elements(x.pool.free) && x.held + Elements(x.pool.free) == Below(total)
    ensures Distinct(x.pool.free) && |x.held| + |x.pool.free| == total
    ensures x.pool.gate.waiting != [] ==> |x.pool.free| <= |x.pool.gate.woken|
  {
    FreshInv(total);
    RunKeeps(World(Fresh(total), {}), es, x);
    var m := x.pool;
    DistinctCount(m.free);
    forall b | b in m.free ensures b < total {
      var i :| 0 <= i < |m.free| && m.free[i] == b;
    }
  }

  /** No block is handed out twice before it comes back. */
  lemma NeverHandedOutTwice(total: nat, es: seq<Event>, x: World, t: Thread, wait: bool)
    requires Reaches(World(Fresh(total), {}), es, x) && Legal(x, AllocPass(t, wait))
    ensures var r := AllocStep(x.pool, t, wait).1; r.Block? ==> r.b < total && r.b !in x.held
  {
    FreshInv(total);
    RunKeeps(World(Fresh(total), {}), es, x);
    AllocMeaning(x.pool, t, wait);
  }

  // ---------- The blocks in memory ----------

  /** The header word of block `b` when a block and its header take `stride` words. */
  function Header(stride: nat, b: nat): nat {
    b * stride
  }

  /** Blocks, headers included, follow one another without overlap and end inside the pool. */
  lemma BlocksApart(stride: nat, total: nat, b: nat, c: nat)
    requires b < c <= total
    ensures Header(stride, b) + stride <= Header(stride, c) <= total * stride
  {
    HeadersOrdered(stride, b + 1, c);
    HeadersOrdered(stride, c, total);
    assert (b + 1) * stride == b * stride + stride;
  }

  lemma {:induction false} HeadersOrdered(stride: nat, b: nat, c: nat)
    requires b <= c
    ensures Header(stride, b) <= Header(stride, c)
    decreases c - b
  {
    if b < c {
      HeadersOrdered(stride, b + 1, c);
      assert (b + 1) * stride == b * stride + stride;
    }
  }

  /** A block has the bytes asked for exactly when rounding them up to words does not wrap; when it does
      the block is nothing but its header. */
  lemma BlockHolds(blockSize: nat)
    requires blockSize < SIZE_SPAN
    ensures 4 * AlignedWords(blockSize) >= blockSize <==> blockSize <= SIZE_SPAN - 4
    ensures blockSize > SIZE_SPAN - 4 ==> AlignedWords(blockSize) == 0
  {}

  function Link(stride: nat, free: seq<nat>, k: nat): int {
    if k < |free| then Header(stride, free[k]) else NULL
  }

  ghost predicate Threads(w: seq<int>, stride: nat, free: seq<nat>, k: int) {
    0 <= k < |free| ==> 0 <= Header(stride, free[k]) < |w| && w[Header(stride, free[k])] == Link(stride, free, k + 1)
  }

  ghost predicate NamesPool(w: seq<int>, stride: nat, b: int) {
    0 <= b && Header(stride, b) < |w| ==> w[Header(stride, b)] == POOL
  }

  ghost predicate InMemory(w: seq<int>, stride: nat, total: nat, free: seq<nat>) {
    && 0 < stride && total * stride <= |w|
    && Distinct(free) && (forall i :: 0 <= i < |free| ==> free[i] < total)
    && (forall k :: Threads(w, stride, free, k))
    && (forall b: nat :: b < total && b !in free ==> NamesPool(w, stride, b))
  }

  lemma HeaderInside(stride: nat, total: nat, b: nat)
    requires 0 < stride && b < total
    ensures Header(stride, b) + stride <= total * stride
  {
    BlocksApart(stride, total, b, total);
  }

  lemma HeadersDiffer(stride: nat, b: nat, c: nat)
    requires 0 < stride && b != c
    ensures Header(stride, b) != Header(stride, c)
  {
    BlocksApart(stride, Larger(b, c), if b < c then b else c, Larger(b, c));
  }

  lemma TakeInMemory(w: seq<int>, v: seq<int>, stride: nat, total: nat, free: seq<nat>)
    requires InMemory(w, stride, total, free) && free != []
    requires Header(stride, free[0]) < |w| && v == w[Header(stride, free[0]) := POOL]
    ensures InMemory(v, stride, total, free[1..])
    ensures w[Header(stride, free[0])] == Link(stride, free[1..], 0)
  {
    var rest := free[1..];
    assert Threads(w, stride, free, 0);
    forall k ensures Threads(v, stride, rest, k) {
      if 0 <= k < |rest| {
        assert Threads(w, stride, free, k + 1);
        HeadersDiffer(stride, free[0], rest[k]);
      }
    }
    forall b: nat | b < total && b !in rest ensures NamesPool(v, stride, b) {
      if b != free[0] {
        assert b !in free;
        HeadersDiffer(stride, free[0], b);
        assert NamesPool(w, stride, b);
      }
    }
  }

  lemma GiveInMemory(w: seq<int>, v: seq<int>, stride: nat, total: nat, free: seq<nat>, b: nat)
    requires InMemory(w, stride, total, free) && b < total && b !in free
    requires Header(stride, b) < |w| && v == w[Header(stride, b) := Link(stride, free, 0)]
    ensures InMemory(v, stride, total, [b] + free)
  {
    var more := [b] + free;
    forall k ensures Threads(v, stride, more, k) {
      if 0 < k < |more| {
        assert Threads(w, stride, free, k - 1);
        HeadersDiffer(stride, b, free[k - 1]);
      }
    }
    forall x: nat | x < total && x !in more ensures NamesPool(v, stride, x) {
      HeadersDiffer(stride, b, x);
      assert x !in free;
      assert NamesPool(w, stride, x);
    }
  }

  ghost predicate Forward(w: seq<int>, stride: nat, k: int) {
    0 <= k && Header(stride, k) < |w| && w[Header(stride, k)] == Header(stride, k + 1)
  }

  /** Writing the header of block `b` leaves the links of the blocks before it. */
  lemma ForwardKept(w: seq<int>, v: seq<int>, stride: nat, n: nat, b: nat)
    requires 0 < stride && n <= b && Header(stride, b) < |w| == |v|
    requires v == w[Header(stride, b) := v[Header(stride, b)]]
    requires forall k: nat :: k < n ==> Forward(w, stride, k)
    ensures forall k: nat :: k < n ==> Forward(v, stride, k)
  {
    forall k: nat | k < n ensures Forward(v, stride, k) {
      assert Forward(w, stride, k);
      HeadersDiffer(stride, k, b);
    }
  }

  /** Every block linked to the next, and the last to none: all are free, in order. */
  lemma AllThreaded(w: seq<int>, stride: nat, total: nat)
    requires 0 < stride && 0 < total && total * stride <= |w|
    requires forall k: nat :: k < total - 1 ==> Forward(w, stride, k)
    requires Header(stride, total - 1) < |w| && w[Header(stride, total - 1)] == NULL
    ensures InMemory(w, stride, total, InOrderFrom(0, total))
  {
    var free := InOrderFrom(0, total);
    forall k ensures Threads(w, stride, free, k) {
      assert 0 <= k < total - 1 ==> Forward(w, stride, k);
    }
    forall b: nat | b < total ensures free[b] == b && b in free {
      assert free[b] == b;
    }
  }

  class MemPool {
    const words: array<int>
    const stride: nat   // words in a block and its header
    const total: nat    // block_total_count
    var freeCount: nat
    var blockList: int
    var waiting: seq<Thread>
    ghost var free: seq<nat>
    ghost var woken: set<Thread>

    ghost predicate Valid()
      reads this, words
    {
      && InMemory(words[..], stride, total, free)
      && freeCount == |free| && blockList == Link(stride, free, 0)
    }

    ghost function View(): Pool
      reads this
    {
      Pool(total, free, Gate(waiting, woken))
    }

    /** rt_mp_init over `size` bytes. It needs room for one block, for it writes a null link into the
        last block whether or not there is one. A block holds the bytes asked for exactly when rounding
        them up does not wrap. */
    constructor (size: nat, blockSize: nat)
      requires size < SIZE_SPAN && 4 * (AlignedWords(blockSize) + 1) <= size
      ensures Valid() && View() == Fresh(total) && fresh(words)
      ensures stride == AlignedWords(blockSize) + 1 && words.Length == size / 4
      ensures blockSize < SIZE_SPAN ==> (4 * (stride - 1) >= blockSize <==> blockSize <= SIZE_SPAN - 4)
      ensures total * stride <= size / 4 < (total + 1) * stride
    {
      stride := AlignedWords(blockSize) + 1;
      total := size / 4 / (AlignedWords(blockSize) + 1);
      words := new int[size / 4];
      freeCount := size / 4 / (AlignedWords(blockSize) + 1);
      blockList := 0;
      waiting, woken := [], {};
      free := InOrderFrom(0, size / 4 / (AlignedWords(blockSize) + 1));
      new;
      DivisionFloor(size / 4, stride);
      if blockSize < SIZE_SPAN {
        BlockHolds(blockSize);
      }
      ThreadAll();
    }

    /** The loop of rt_mp_init and the null link after it. */
    method ThreadAll()
      requires 0 < stride && 0 < total && total * stride <= words.Length
      modifies words
      ensures InMemory(words[..], stride, total, InOrderFrom(0, total))
    {
      var offset := ThreadForward();
      HeaderInside(stride, total, offset - 1);
      ghost var was := words[..];
      words[Header(stride, offset - 1)] := NULL;
      ForwardKept(was, words[..], stride, offset - 1, offset - 1);
      AllThreaded(words[..], stride, total);
    }

    method ThreadForward() returns (offset: nat)
      requires 0 < stride && 0 < total && total * stride <= words.Length
      modifies words
      ensures offset == total && forall k: nat :: k < total ==> Forward(words[..], stride, k)
    {
      offset := 0;
      while offset < total
        invariant offset <= total
        invariant forall k: nat :: k < offset ==> Forward(words[..], stride, k)
      {
        HeaderInside(stride, total, offset);
        ghost var was := words[..];
        words[Header(stride, offset)] := Header(stride, offset + 1);
        ForwardKept(was, words[..], stride, offset, offset);
        offset := offset + 1;
      }
    }

    /** rt_mp_alloc, from one disabling of interrupts to the next enabling. The address returned is
        that of the word behind the header. */
    method Alloc(t: Thread, wait: bool) returns (address: int, blocked: bool, ghost r: Outcome)
      requires Valid()
      modifies this, words
      ensures Valid() && (View(), r) == AllocStep(old(View()), t, wait)
      ensures address == (if r.Block? then Header(stride, r.b) + 1 else NULL) && (blocked <==> r.Blocked?)
      ensures forall i :: 0 <= i < words.Length && i != address - 1 ==> words[i] == old(words[i])
    {
      woken := woken - {t};
      address, blocked := NULL, false;
      if freeCount == 0 {
        if !wait {
          r := TimedOut;
          return;
        }
        waiting := [t] + waiting;
        blocked, r := true, Blocked;
        return;
      }
      assert Threads(words[..], stride, free, 0);
      freeCount := freeCount - 1;
      var block := blockList;
      r := Block(free[0]);
      TakeInMemory(words[..], words[..][block := POOL], stride, total, free);
      blockList := words[block];
      words[block] := POOL;
      assert words[..] == old(words[..])[block := POOL];
      free := free[1..];
      address := block + 1;
    }

    /** rt_mp_free of the block at `address`, whose header says which pool it is from. */
    method Free(address: int, ghost b: nat)
      requires Valid() && Allocated(View(), b) && address == Header(stride, b) + 1
      modifies this, words
      ensures Valid() && View() == FreeStep(old(View()), b)
      ensures forall i :: 0 <= i < words.Length && i != address - 1 ==> words[i] == old(words[i])
    {
      var block := address - 1;
      HeaderInside(stride, total, b);
      assert NamesPool(words[..], stride, b);
      assert words[block] == POOL;
      GiveInMemory(words[..], words[..][block := blockList], stride, total, free, b);
      freeCount := freeCount + 1;
      words[block] := blockList;
      assert words[..] == old(words[..])[block := blockList];
      blockList := block;
      free := [b] + free;
      if waiting != [] {
        woken := woken + {waiting[0]};
        waiting := waiting[1..];
      }
    }
  }

  lemma DivisionFloor(n: nat, d: nat)
    requires 0 < d
    ensures n / d * d <= n < (n / d + 1) * d
    ensures d <= n ==> 0 < n / d
  {}
}
