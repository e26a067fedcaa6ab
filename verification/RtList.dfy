/** The kernel's intrusive lists (rtservice.h): a node is two words, next and prev, and a list is a
    ring through its head. Each operation is proved to do to the ring what its name says to the
    sequence of nodes, wherever the other lists of the system lie. */
module RtList {
  import opened Ring

  const NEXT: nat := 0
  const PREV: nat := 1
  const WIDTH: nat := 2   // words in a node

  /** A list: its head, then its nodes in order. */
  ghost predicate IsList(w: seq<int>, r: Nodes) {
    IsRing(w, r, NEXT, PREV) && Spaced(r, WIDTH)
  }

  /** `n` shares no word with the nodes of `r`. */
  ghost predicate ApartFrom(r: Nodes, n: nat) {
    forall k :: 0 <= k < |r| ==> r[k] + WIDTH <= n || n + WIDTH <= r[k]
  }

  lemma WithSpaced(r: Nodes, k: nat, n: nat)
    requires Spaced(r, WIDTH) && k <= |r| && ApartFrom(r, n)
    ensures Spaced(With(r, k, n), WIDTH)
  {
    var s := With(r, k, n);
    forall i, j ensures Clear(s, WIDTH, i, j) {
      assert Clear(r, WIDTH, if i < k then i else i - 1, if j < k then j else j - 1);
    }
  }

  /** A list none of whose link words changed is still that list. */
  lemma OtherListKept(w: seq<int>, v: seq<int>, r: Nodes)
    requires IsList(w, r) && |v| == |w|
    requires forall k :: 0 <= k < |r| && r[k] + PREV < |w| ==> v[r[k]] == w[r[k]] && v[r[k] + PREV] == w[r[k] + PREV]
    ensures IsList(v, r)
  {
    forall k | 0 <= k < |r| ensures r[k] + PREV < |w| {
      assert Linked(w, r, NEXT, PREV, if k == 0 then |r| - 1 else k - 1);
    }
    RingFrame(w, v, r, NEXT, PREV);
  }

  /** The writes of an insertion behind node `p`. */
  lemma WrittenBefore(w: seq<int>, r: Nodes, p: nat, n: nat)
    requires Spaced(r, WIDTH) && ApartFrom(r, n) && p < |r|
    requires r[p] + NEXT < |w| && Next(r, p) + PREV < |w| && n + PREV < |w|
    ensures LinkedIn(w, w[r[p] + NEXT := n][n + PREV := r[p]][Next(r, p) + PREV := n][n + NEXT := Next(r, p)],
                     r, NEXT, PREV, p + 1, n)
  {
    assert Clear(r, WIDTH, p, if p + 1 < |r| then p + 1 else 0);
  }

  class Lists {
    const words: array<int>

    constructor (size: nat)
      ensures fresh(words) && words.Length == size
    {
      words := new int[size];
    }

    /** rt_list_init. */
    method Init(l: nat)
      requires l + PREV < words.Length
      modifies words
      ensures IsList(words[..], [l])
      ensures forall i :: 0 <= i < words.Length && i != l && i != l + PREV ==> words[i] == old(words[i])
    {
      words[l + NEXT] := l;
      words[l + PREV] := l;
      assert forall k :: Linked(words[..], [l], NEXT, PREV, k);
      assert forall i, j :: Clear([l], WIDTH, i, j);
    }

    /** rt_list_insert_after: `n` comes right behind node `k`. */
    method InsertAfter(l: nat, n: nat, ghost r: Nodes, ghost k: nat)
      requires IsList(words[..], r) && k < |r| && r[k] == l && ApartFrom(r, n) && n + PREV < words.Length
      modifies words
      ensures IsList(words[..], With(r, k + 1, n))
      ensures forall i :: 0 <= i < words.Length && i != n && i != n + PREV && i != l && i != Next(r, k) + PREV ==> words[i] == old(words[i])
    {
      ghost var w := words[..];
      assert Linked(w, r, NEXT, PREV, k);
      words[words[l + NEXT] + PREV] := n;
      words[n + NEXT] := words[l + NEXT];
      words[l + NEXT] := n;
      words[n + PREV] := l;
      WithSpaced(r, k + 1, n);
      assert Clear(r, WIDTH, k, if k + 1 < |r| then k + 1 else 0);
      assert LinkedIn(w, words[..], r, NEXT, PREV, k + 1, n);
      LinkKeepsRing(w, words[..], r, NEXT, PREV, WIDTH, k + 1, n);
    }

    /** rt_list_insert_before: `n` comes right ahead of node `k`; ahead of the head is the end. */
    method InsertBefore(l: nat, n: nat, ghost r: Nodes, ghost k: nat)
      requires IsList(words[..], r) && k < |r| && r[k] == l && ApartFrom(r, n) && n + PREV < words.Length
      modifies words
      ensures IsList(words[..], With(r, if k == 0 then |r| else k, n))
      ensures forall i :: 0 <= i < words.Length && i != n && i != n + PREV && i != l + PREV && i != Prev(r, k) ==> words[i] == old(words[i])
    {
      ghost var w := words[..];
      ghost var p := if k == 0 then |r| - 1 else k - 1;
      assert Linked(w, r, NEXT, PREV, p);
      words[words[l + PREV] + NEXT] := n;
      words[n + PREV] := words[l + PREV];
      words[l + PREV] := n;
      words[n + NEXT] := l;
      assert words[..] == w[r[p] + NEXT := n][n + PREV := r[p]][l + PREV := n][n + NEXT := l];
      WithSpaced(r, p + 1, n);
      WrittenBefore(w, r, p, n);
      LinkKeepsRing(w, words[..], r, NEXT, PREV, WIDTH, p + 1, n);
    }

    /** rt_list_remove: node `k` leaves the list and becomes a list of its own. */
    method Remove(n: nat, ghost r: Nodes, ghost k: nat)
      requires IsList(words[..], r) && 0 < k < |r| && r[k] == n
      modifies words
      ensures IsList(words[..], Without(r, k)) && IsList(words[..], [n])
      ensures forall i :: 0 <= i < words.Length && i != n && i != n + PREV && i != Prev(r, k) && i != Next(r, k) + PREV ==> words[i] == old(words[i])
    {
      ghost var w := words[..];
      assert Linked(w, r, NEXT, PREV, k) && Linked(w, r, NEXT, PREV, k - 1);
      words[words[n + NEXT] + PREV] := words[n + PREV];
      words[words[n + PREV] + NEXT] := words[n + NEXT];
      ghost var v := words[..];
      assert v == Unlinked(w, r, NEXT, PREV, k);
      UnlinkKeepsRing(w, r, NEXT, PREV, WIDTH, k);
      words[n + PREV] := n;
      words[n + NEXT] := n;
      forall j | 0 <= j < |Without(r, k)|
        ensures Without(r, k)[j] + WIDTH <= n || n + WIDTH <= Without(r, k)[j]
      {
        assert Clear(r, WIDTH, if j < k then j else j + 1, k);
      }
      OtherListKept(v, words[..], Without(r, k));
      assert forall i :: Linked(words[..], [n], NEXT, PREV, i);
      assert forall i, j :: Clear([n], WIDTH, i, j);
    }

    /** rt_list_isempty. */
    method IsEmpty(l: nat, ghost r: Nodes) returns (empty: bool)
      requires IsList(words[..], r) && r[0] == l
      ensures empty <==> r == [l]
    {
      assert Linked(words[..], r, NEXT, PREV, 0);
      assert Clear(r, WIDTH, 0, 1);
      empty := words[l + NEXT] == l;
    }

    /** rt_list_len: the nodes between one visit of the head and the next. */
    method Len(l: nat, ghost r: Nodes) returns (len: nat)
      requires IsList(words[..], r) && r[0] == l
      ensures len == |r| - 1
    {
      assert Linked(words[..], r, NEXT, PREV, 0);
      len := 0;
      var p := l;
      while words[p + NEXT] != l
        invariant len < |r| && p == r[len] && p + NEXT < words.Length
        decreases |r| - len
      {
        assert Linked(words[..], r, NEXT, PREV, len);
        p := words[p + NEXT];
        len := len + 1;
        assert Linked(words[..], r, NEXT, PREV, len);
      }
      assert Linked(words[..], r, NEXT, PREV, len);
      assert Clear(r, WIDTH, 0, len + 1);
    }
  }
}
