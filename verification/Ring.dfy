/** Circular doubly linked lists threaded through words: the node at `x` keeps its successor in word
    `x + nf` and its predecessor in word `x + pf`. A list is described by its nodes in order, from
    any node on; the last is followed by the first. Every list of the kernel has this form. */
module Ring {

  type Nodes = seq<nat>

  function Next(r: Nodes, k: nat): nat
    requires k < |r|
  {
    r[if k + 1 < |r| then k + 1 else 0]
  }

  function Prev(r: Nodes, k: nat): nat
    requires k < |r|
  {
    r[if k == 0 then |r| - 1 else k - 1]
  }

  /** Node `k` and its successor point at each other. */
  ghost predicate Linked(w: seq<int>, r: Nodes, nf: nat, pf: nat, k: int) {
    0 <= k < |r| ==>
      && r[k] + nf < |w| && Next(r, k) + pf < |w|
      && w[r[k] + nf] == Next(r, k)
      && w[Next(r, k) + pf] == r[k]
  }

  /** Different nodes do not share words. */
  ghost predicate Clear(r: Nodes, width: nat, i: int, j: int) {
    0 <= i < |r| && 0 <= j < |r| && i != j ==> r[i] + width <= r[j] || r[j] + width <= r[i]
  }

  ghost predicate Spaced(r: Nodes, width: nat) {
    forall i, j :: Clear(r, width, i, j)
  }

  ghost predicate IsRing(w: seq<int>, r: Nodes, nf: nat, pf: nat) {
    r != [] && forall k :: Linked(w, r, nf, pf, k)
  }

  function Without(r: Nodes, k: nat): Nodes
    requires k < |r|
  {
    r[..k] + r[k + 1..]
  }

  function With(r: Nodes, k: nat, x: nat): Nodes
    requires k <= |r|
  {
    r[..k] + [x] + r[k..]
  }

  /** What unlinking node `k` writes. */
  function Unlinked(w: seq<int>, r: Nodes, nf: nat, pf: nat, k: nat): (v: seq<int>)
    requires k < |r| && Next(r, k) + pf < |w| && Prev(r, k) + nf < |w|
    ensures |v| == |w|
  {
    w[Next(r, k) + pf := Prev(r, k)][Prev(r, k) + nf := Next(r, k)]
  }

  /** What linking `x` in before node `k`, behind node `k - 1`, writes. */
  ghost predicate LinkedIn(w: seq<int>, v: seq<int>, r: Nodes, nf: nat, pf: nat, k: nat, x: nat)
    requires 0 < k <= |r|
  {
    var next := if k < |r| then r[k] else r[0];
    && |v| == |w| && x + nf < |w| && x + pf < |w| && next + pf < |w| && r[k - 1] + nf < |w|
    && v[x + nf] == next && v[x + pf] == r[k - 1] && v[r[k - 1] + nf] == x && v[next + pf] == x
    && forall i :: 0 <= i < |w| && i != x + nf && i != x + pf && i != r[k - 1] + nf && i != next + pf ==> v[i] == w[i]
  }

  /** Unlinking removes exactly that node. */
  lemma UnlinkKeepsRing(w: seq<int>, r: Nodes, nf: nat, pf: nat, width: nat, k: nat)
    requires IsRing(w, r, nf, pf) && Spaced(r, width) && nf < width && pf < width && nf != pf
    requires k < |r| && 2 <= |r|
    requires Next(r, k) + pf < |w| && Prev(r, k) + nf < |w|
    ensures IsRing(Unlinked(w, r, nf, pf, k), Without(r, k), nf, pf) && Spaced(Without(r, k), width)
  {
    var v, s := Unlinked(w, r, nf, pf, k), Without(r, k);
    forall j ensures Linked(v, s, nf, pf, j) {
      if 0 <= j < |s| {
        UnlinkLinks(w, r, nf, pf, width, k, j);
      }
    }
    forall i, j ensures Clear(s, width, i, j) {
      assert Clear(r, width, if i < k then i else i + 1, if j < k then j else j + 1);
    }
  }

  lemma UnlinkLinks(w: seq<int>, r: Nodes, nf: nat, pf: nat, width: nat, k: nat, j: nat)
    requires IsRing(w, r, nf, pf) && Spaced(r, width) && nf < width && pf < width && nf != pf
    requires k < |r| && 2 <= |r| && j < |r| - 1
    requires Next(r, k) + pf < |w| && Prev(r, k) + nf < |w|
    ensures Linked(Unlinked(w, r, nf, pf, k), Without(r, k), nf, pf, j)
  {
    var a := if j < k then j else j + 1;             // the node in r
    var b := if a + 1 < |r| then a + 1 else 0;        // its successor in r
    var n := if k + 1 < |r| then k + 1 else 0;        // k's successor in r
    WithoutNext(r, k, j);
    assert Linked(w, r, nf, pf, a) && Linked(w, r, nf, pf, k);
    hide IsRing, Without;
    UnlinkedWords(w, r, nf, pf, width, k, a);
    UnlinkedWords(w, r, nf, pf, width, k, b);
    UnlinkedWords(w, r, nf, pf, width, k, n);
  }

  /** The neighbours in the list without node `k`. */
  lemma WithoutNext(r: Nodes, k: nat, j: nat)
    requires k < |r| && j < |r| - 1
    ensures var a := if j < k then j else j + 1;
            && Without(r, k)[j] == r[a]
            && Next(Without(r, k), j) == if a == (if k == 0 then |r| - 1 else k - 1) then Next(r, k) else Next(r, a)
  {
  }

  /** Unlinking writes the predecessor's next word and the successor's previous word. */
  lemma UnlinkedWords(w: seq<int>, r: Nodes, nf: nat, pf: nat, width: nat, k: nat, a: nat)
    requires Spaced(r, width) && nf < width && pf < width && nf != pf && k < |r| && a < |r|
    requires Next(r, k) + pf < |w| && Prev(r, k) + nf < |w|
    ensures var v, n, p := Unlinked(w, r, nf, pf, k), if k + 1 < |r| then k + 1 else 0, if k == 0 then |r| - 1 else k - 1;
            && (r[a] + nf < |w| ==> v[r[a] + nf] == if a == p then r[n] else w[r[a] + nf])
            && (r[a] + pf < |w| ==> v[r[a] + pf] == if a == n then r[p] else w[r[a] + pf])
  {
    var n := if k + 1 < |r| then k + 1 else 0;
    var p := if k == 0 then |r| - 1 else k - 1;
    assert Clear(r, width, a, p) && Clear(r, width, a, n) && Clear(r, width, n, p);
  }

  /** Linking in adds exactly that node, at that place. */
  lemma LinkKeepsRing(w: seq<int>, v: seq<int>, r: Nodes, nf: nat, pf: nat, width: nat, k: nat, x: nat)
    requires 0 < k <= |r| && IsRing(w, r, nf, pf) && Spaced(With(r, k, x), width) && nf < width && pf < width && nf != pf
    requires LinkedIn(w, v, r, nf, pf, k, x)
    ensures IsRing(v, With(r, k, x), nf, pf)
  {
    var s := With(r, k, x);
    forall j ensures Linked(v, s, nf, pf, j) {
      if 0 <= j < |s| {
        LinkLinks(w, v, r, nf, pf, width, k, x, j);
      }
    }
  }

  lemma LinkLinks(w: seq<int>, v: seq<int>, r: Nodes, nf: nat, pf: nat, width: nat, k: nat, x: nat, j: nat)
    requires 0 < k <= |r| && IsRing(w, r, nf, pf) && Spaced(With(r, k, x), width) && nf < width && pf < width && nf != pf
    requires LinkedIn(w, v, r, nf, pf, k, x) && j <= |r|
    ensures Linked(v, With(r, k, x), nf, pf, j)
  {
    var s := With(r, k, x);
    var i := if j < k then j else j - 1;
    var m := if i + 1 < |r| then i + 1 else 0;
    assert s[j] == if j == k then x else r[i];
    assert Next(s, j) == if j == k - 1 then x else r[m];
    assert Linked(w, r, nf, pf, i) && Linked(w, r, nf, pf, m);
    hide IsRing, With;
    LinkedWords(w, v, r, nf, pf, width, k, x, i);
    LinkedWords(w, v, r, nf, pf, width, k, x, m);
  }

  /** Linking `x` in leaves the link words of the others alone but for its two neighbours. */
  lemma LinkedWords(w: seq<int>, v: seq<int>, r: Nodes, nf: nat, pf: nat, width: nat, k: nat, x: nat, a: nat)
    requires 0 < k <= |r| && Spaced(With(r, k, x), width) && nf < width && pf < width && nf != pf
    requires LinkedIn(w, v, r, nf, pf, k, x) && a < |r| && r[a] + nf < |w|
    ensures v[r[a] + nf] == if a == k - 1 then x else w[r[a] + nf]
    ensures r[a] + pf < |w| ==> v[r[a] + pf] == if a == (if k < |r| then k else 0) then x else w[r[a] + pf]
  {
    var s := With(r, k, x);
    var j := if a < k then a else a + 1;
    var n := if k + 1 < |s| then k + 1 else 0;
    assert s[j] == r[a] && s[k] == x && s[k - 1] == r[k - 1] && s[n] == if k < |r| then r[k] else r[0];
    assert Clear(s, width, j, k) && Clear(s, width, j, k - 1) && Clear(s, width, j, n);
  }

  /** A ring does not notice writes outside its link words. */
  lemma RingFrame(w: seq<int>, v: seq<int>, r: Nodes, nf: nat, pf: nat)
    requires IsRing(w, r, nf, pf) && |v| == |w|
    requires forall k :: 0 <= k < |r| && r[k] + nf < |w| ==> v[r[k] + nf] == w[r[k] + nf]
    requires forall k :: 0 <= k < |r| && r[k] + pf < |w| ==> v[r[k] + pf] == w[r[k] + pf]
    ensures IsRing(v, r, nf, pf)
  {
    forall k ensures Linked(v, r, nf, pf, k) {
      assert Linked(w, r, nf, pf, k);
    }
  }
}
