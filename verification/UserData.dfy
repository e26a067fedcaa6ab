/** The words callers may use, and what it means for a heap operation to leave them alone. */
module UserData {
  import opened Option
  import opened BlockChain

  /** Word `k` is data of some used block. */
  ghost predicate UserWord(c: Chain, hdr: nat, k: int) {
    exists i :: 0 <= i < |c| - 1 && c[i].used && c[i].off + hdr <= k < c[i + 1].off
  }

  /** Every word of a used block's data is the same in `w` and `v`. */
  ghost predicate KeepsData(c: Chain, hdr: nat, w: seq<int>, v: seq<int>) {
    |w| == |v| && forall k :: 0 <= k < |w| && UserWord(c, hdr, k) ==> w[k] == v[k]
  }

  /** A header word, or a data word of a free block, is no user word. */
  lemma NotUserWord(c: Chain, hdr: nat, i: nat, k: int)
    requires WellFormed(c, hdr) && i < |c| && c[i].off <= k
    requires k < c[i].off + hdr || (i + 1 < |c| && !c[i].used && k < c[i + 1].off)
    ensures !UserWord(c, hdr, k)
  {
    AllIncreasing(c, hdr);
  }

  /** User words are the words of held extents. */
  lemma UserWordIffHeld(c: Chain, hdr: nat, k: int)
    ensures UserWord(c, hdr, k) <==> exists e :: Holds(c, hdr, e) && e.from <= k < e.to
  {
    if UserWord(c, hdr, k) {
      var i :| 0 <= i < |c| - 1 && c[i].used && c[i].off + hdr <= k < c[i + 1].off;
      assert Owns(c, hdr, Extent(c[i].off + hdr, c[i + 1].off), i);
    }
  }

  lemma SameUserWords(c: Chain, d: Chain, hdr: nat)
    requires forall e :: Holds(c, hdr, e) ==> Holds(d, hdr, e)
    ensures forall k :: UserWord(c, hdr, k) ==> UserWord(d, hdr, k)
  {
    forall k | UserWord(c, hdr, k) ensures UserWord(d, hdr, k) {
      UserWordIffHeld(c, hdr, k);
      UserWordIffHeld(d, hdr, k);
    }
  }

  lemma JoinsKeepData(c: Chain, d: Chain, hdr: nat, w: seq<int>, v: seq<int>, u: seq<int>)
    requires KeepsData(c, hdr, w, v) && KeepsData(d, hdr, v, u)
    requires forall e :: Holds(c, hdr, e) ==> Holds(d, hdr, e)
    ensures KeepsData(c, hdr, w, u)
  {
    SameUserWords(c, d, hdr);
  }

  lemma JoinRightHolds(c: Chain, hdr: nat, i: nat)
    requires i + 1 < |c| && !c[i].used && c[|c| - 1].used
    ensures forall e :: Holds(c, hdr, e) ==> Holds(JoinRight(c, i), hdr, e)
  {
    if !c[i + 1].used {
      forall e {
        DropHolds(c, hdr, i + 1, e);
      }
    }
  }

  lemma InsertHolds(c: Chain, hdr: nat, i: nat, at: nat)
    requires i + 1 < |c| && !c[i].used
    ensures forall e :: Holds(c, hdr, e) ==> Holds(Insert(c, i, at), hdr, e)
  {
    forall e | Holds(c, hdr, e) ensures Holds(Insert(c, i, at), hdr, e) {
      var k :| Owns(c, hdr, e, k);
      assert Owns(Insert(c, i, at), hdr, e, if k < i then k else k + 1);
    }
  }

  lemma CoalesceHoldsAll(c: Chain, hdr: nat, i: nat)
    requires WellFormed(c, hdr) && i + 1 < |c| && !c[i].used
    ensures forall e :: Holds(Coalesce(c, i), hdr, e) ==> Holds(c, hdr, e)
  {
    forall e {
      CoalesceHolds(c, hdr, i, e);
    }
  }

  /** What a step and a coalescing keep for a chain, they keep for the coalesced one. */
  lemma CoalesceKeepsData(c: Chain, hdr: nat, i: nat, w: seq<int>, v: seq<int>, u: seq<int>)
    requires WellFormed(c, hdr) && i + 1 < |c| && !c[i].used
    requires KeepsData(c, hdr, w, v) && KeepsData(c, hdr, v, u)
    ensures KeepsData(Coalesce(c, i), hdr, w, u)
  {
    var d := Coalesce(c, i);
    CoalesceHoldsAll(c, hdr, i);
    SameUserWords(d, c, hdr);
  }

  lemma ReleaseShrinksHolds(c: Chain, hdr: nat, i: nat)
    requires WellFormed(c, hdr) && i + 1 < |c| && c[i].used
    ensures forall e :: Holds(Release(c, i), hdr, e) ==> Holds(c, hdr, e) && Holds(c[i := Block(c[i].off, false)], hdr, e)
  {
    forall e | Holds(Release(c, i), hdr, e)
      ensures Holds(c, hdr, e) && Holds(c[i := Block(c[i].off, false)], hdr, e)
    {
      FlagKeeps(c, hdr, i, false);
      CoalesceHolds(c[i := Block(c[i].off, false)], hdr, i, e);
      ReleaseHolds(c, hdr, i, e);
    }
  }

  ghost predicate SameOn(w: seq<int>, v: seq<int>, e: Extent) {
    |w| == |v| && forall k :: e.from <= k < e.to && k < |w| ==> w[k] == v[k]
  }

  /** The data of every used block but the one at `r` is the same in `w` and `v`. */
  ghost predicate KeepsOthers(c: Chain, hdr: nat, w: seq<int>, v: seq<int>, r: nat) {
    forall e :: Holds(c, hdr, e) && e.from != r ==> SameOn(w, v, e)
  }

  /** The `n` words at `r` in `v` are the `n` words at `p` in `w`. */
  ghost predicate Copied(w: seq<int>, v: seq<int>, p: nat, r: nat, n: nat) {
    |w| == |v| && p + n <= |w| && r + n <= |w| && forall k :: r <= k < r + n ==> v[k] == w[p + (k - r)]
  }

  lemma KeptExtent(c: Chain, hdr: nat, w: seq<int>, v: seq<int>, e: Extent)
    requires KeepsData(c, hdr, w, v) && Holds(c, hdr, e)
    ensures SameOn(w, v, e)
  {
    forall k | e.from <= k < e.to && k < |w| ensures w[k] == v[k] {
      UserWordIffHeld(c, hdr, k);
    }
  }

  lemma KeptOthers(c: Chain, hdr: nat, w: seq<int>, v: seq<int>, r: nat)
    requires KeepsData(c, hdr, w, v)
    ensures KeepsOthers(c, hdr, w, v, r)
  {
    forall e | Holds(c, hdr, e) && e.from != r ensures SameOn(w, v, e) {
      KeptExtent(c, hdr, w, v, e);
    }
  }

  lemma KeptInPlace(c: Chain, hdr: nat, p: nat, n: nat, w: seq<int>, v: seq<int>)
    requires WellFormed(c, hdr) && HasBlock(c, hdr, p, n) && KeepsData(c, hdr, w, v) && c[|c| - 1].off <= |w|
    ensures Copied(w, v, p, p, n) && KeepsOthers(c, hdr, w, v, p)
  {
    var f :| Holds(c, hdr, f) && f.from == p && f.from + n <= f.to;
    var i :| Owns(c, hdr, f, i);
    AllIncreasing(c, hdr);
    KeptExtent(c, hdr, w, v, f);
    KeptOthers(c, hdr, w, v, p);
  }

  /** Freeing the block at `p` after copying it to `r` keeps the copy and every other block. */
  lemma FreeKeepsCopy(c: Chain, d: Chain, hdr: nat, p: nat, r: nat, n: nat, w: seq<int>, v: seq<int>, u: seq<int>)
    requires forall e :: Holds(d, hdr, e) <==> Holds(c, hdr, e) && e.from != p
    requires HasBlock(c, hdr, r, n) && p != r
    requires Copied(w, v, p, r, n) && KeepsOthers(c, hdr, w, v, r) && KeepsData(d, hdr, v, u)
    ensures Copied(w, u, p, r, n) && KeepsOthers(d, hdr, w, u, r)
  {
    var f :| Holds(c, hdr, f) && f.from == r && f.from + n <= f.to;
    KeptExtent(d, hdr, v, u, f);
    forall e | Holds(d, hdr, e) && e.from != r ensures SameOn(w, u, e) {
      KeptExtent(d, hdr, v, u, e);
    }
  }

  /** What an allocation kept, the copy to `r` and the free of `p` keep. */
  lemma AllocKeepsCopy(c: Chain, d: Chain, hdr: nat, p: nat, r: nat, n: nat, w: seq<int>, v: seq<int>, u: seq<int>)
    requires WellFormed(c, hdr) && Pointer(c, hdr, Some(p)) && n <= SizeAt(c, hdr, p) && KeepsData(c, hdr, w, v)
    requires Copied(v, u, p, r, n) && KeepsOthers(d, hdr, v, u, r)
    requires OnlyChanges(c, d, hdr, p, r) && !Pointer(d, hdr, Some(p))
    ensures Copied(w, u, p, r, n) && KeepsOthers(d, hdr, w, u, r)
  {
    PointerBlock(c, hdr, p);
    KeptExtent(c, hdr, w, v, Extent(p, c[BlockAt(c, hdr, p) + 1].off));
    forall e | Holds(d, hdr, e) && e.from != r ensures SameOn(w, u, e) {
      assert Holds(c, hdr, e);
      KeptExtent(c, hdr, w, v, e);
    }
  }

  /** rt_memcpy, a word at a time. */
  method CopyWords(words: array<int>, dst: nat, src: nat, n: nat)
    requires dst + n <= words.Length && src + n <= words.Length && (dst + n <= src || src + n <= dst)
    modifies words
    ensures forall k :: dst <= k < dst + n ==> words[k] == old(words[src + (k - dst)])
    ensures forall k :: 0 <= k < words.Length && !(dst <= k < dst + n) ==> words[k] == old(words[k])
  {
    for m := 0 to n
      invariant forall k :: dst <= k < dst + m ==> words[k] == old(words[src + (k - dst)])
      invariant forall k :: 0 <= k < words.Length && !(dst <= k < dst + m) ==> words[k] == old(words[k])
    {
      words[dst + m] := words[src + m];
    }
  }

  lemma HeldBelow(c: Chain, hdr: nat, e: Extent)
    requires WellFormed(c, hdr) && Holds(c, hdr, e)
    ensures e.from < e.to <= c[|c| - 1].off
  {
    var i :| Owns(c, hdr, e, i);
    AllIncreasing(c, hdr);
  }

  /** Copies `n` words of one used block into another; no other user word changes. */
  method CopyBlock(words: array<int>, ghost c: Chain, ghost hdr: nat, dst: nat, src: nat, n: nat)
    requires WellFormed(c, hdr) && HasBlock(c, hdr, dst, n) && HasBlock(c, hdr, src, n) && dst != src
    requires c[|c| - 1].off <= words.Length
    modifies words
    ensures Copied(old(words[..]), words[..], src, dst, n) && KeepsOthers(c, hdr, old(words[..]), words[..], dst)
    ensures forall k :: 0 <= k < words.Length && !UserWord(c, hdr, k) ==> words[..][k] == old(words[..])[k]
  {
    ghost var e :| Holds(c, hdr, e) && e.from == dst && e.from + n <= e.to;
    ghost var f :| Holds(c, hdr, f) && f.from == src && f.from + n <= f.to;
    ExtentsDisjoint(c, hdr, e, f);
    HeldBelow(c, hdr, e);
    HeldBelow(c, hdr, f);
    ghost var w := words[..];
    CopyWords(words, dst, src, n);
    forall k | 0 <= k < |w| && !UserWord(c, hdr, k) ensures words[..][k] == w[k] {
      UserWordIffHeld(c, hdr, k);
    }
    forall g | Holds(c, hdr, g) && g.from != dst ensures SameOn(w, words[..], g) {
      ExtentsDisjoint(c, hdr, e, g);
    }
  }
}
