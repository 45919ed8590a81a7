/** Height resolution over a chain held as an arena: node i's parent is
    P[i], a smaller index, or absent when negative; H[i] is its height, 0
    meaning not resolved yet (or the genesis block).

    Starting at a block, the walk climbs parent links up to the first node
    with a positive height, or the root when there is none: the terminal
    node. Every node strictly before the terminal is given a height, the
    terminal's height plus its distance from the terminal. */
module Heights {

  /** Parent links point to smaller indices, so every walk ends. */
  predicate ParentOrder(P: seq<int>)
  {
    forall i :: 0 <= i < |P| ==> P[i] < i
  }

  /** Number of hops from node i to the terminal node of its walk. */
  function Dist(P: seq<int>, H: seq<nat>, i: nat): nat
    requires ParentOrder(P) && |H| == |P| && i < |P|
    decreases i
  {
    if H[i] > 0 || P[i] < 0 then 0 else 1 + Dist(P, H, P[i])
  }

  /** The terminal node of the walk from i: the first node at or above i with a
      positive height, or the root. It is the node reached after Dist hops;
      OnWalkShape and TerminalNotOnWalk show every node before it keeps
      walking. */
  function Terminal(P: seq<int>, H: seq<nat>, i: nat): (t: nat)
    requires ParentOrder(P) && |H| == |P| && i < |P|
    ensures t <= i
    ensures H[t] > 0 || P[t] < 0
    ensures OnPath(P, i, Dist(P, H, i) + 1, t)
    decreases i
  {
    if H[i] > 0 || P[i] < 0 then i else Terminal(P, H, P[i])
  }

  /** n is one of the first d nodes met climbing from i. */
  predicate OnPath(P: seq<int>, i: int, d: nat, n: int)
    requires ParentOrder(P) && i < |P|
    decreases d
  {
    d > 0 && i >= 0 && (n == i || OnPath(P, P[i], d - 1, n))
  }

  /** n is given a new height by the walk from i: it comes before the terminal node. */
  predicate OnWalk(P: seq<int>, H: seq<nat>, i: nat, n: int)
    requires ParentOrder(P) && |H| == |P| && i < |P|
  {
    OnPath(P, i, Dist(P, H, i), n)
  }

  /** The heights after the write-back pass: climbing d nodes from i, the
      first gets base + d, the next base + d - 1, and so on down to base + 1. */
  function Relabel(P: seq<int>, h: seq<nat>, i: int, d: nat, base: nat): (r: seq<nat>)
    requires ParentOrder(P) && |h| == |P| && i < |P|
    ensures |r| == |h|
    decreases d
  {
    if d == 0 || i < 0 then h else Relabel(P, h[i := base + d], P[i], d - 1, base)
  }

  /** The heights after resolving from block i. */
  function ResolveHeights(P: seq<int>, H: seq<nat>, i: nat): (r: seq<nat>)
    requires ParentOrder(P) && |H| == |P| && i < |P|
    ensures |r| == |H|
  {
    Relabel(P, H, i, Dist(P, H, i), H[Terminal(P, H, i)])
  }

  lemma {:induction false} OnPathBelow(P: seq<int>, i: int, d: nat, n: int)
    requires ParentOrder(P) && i < |P|
    requires OnPath(P, i, d, n)
    ensures 0 <= n <= i
    decreases d
  {
    if n != i {
      OnPathBelow(P, P[i], d - 1, n);
    }
  }

  /** The write-back pass touches only the nodes on its path. */
  lemma {:induction false} RelabelFrame(P: seq<int>, h: seq<nat>, i: int, d: nat, base: nat, n: nat)
    requires ParentOrder(P) && |h| == |P| && i < |P| && n < |h|
    requires !OnPath(P, i, d, n)
    ensures Relabel(P, h, i, d, base)[n] == h[n]
    decreases d
  {
    if d > 0 && i >= 0 {
      RelabelFrame(P, h[i := base + d], P[i], d - 1, base, n);
    }
  }

  /** The first node of the path gets base + d. */
  lemma RelabelHead(P: seq<int>, h: seq<nat>, i: nat, d: nat, base: nat)
    requires ParentOrder(P) && |h| == |P| && i < |P| && d > 0
    ensures Relabel(P, h, i, d, base)[i] == base + d
  {
    if OnPath(P, P[i], d - 1, i) {
      OnPathBelow(P, P[i], d - 1, i);
    }
    RelabelFrame(P, h[i := base + d], P[i], d - 1, base, i);
  }

  /** Along the path, each node's new height is one more than the next node's
      new height, or base + 1 for the last node of the path. */
  lemma {:induction false} RelabelStep(P: seq<int>, h: seq<nat>, i: int, d: nat, base: nat, n: nat)
    requires ParentOrder(P) && |h| == |P| && i < |P|
    requires n < |P| && OnPath(P, i, d, n) && P[n] >= 0
    ensures Relabel(P, h, i, d, base)[n] ==
              (if OnPath(P, i, d, P[n]) then Relabel(P, h, i, d, base)[P[n]] else base) + 1
    decreases d
  {
    var h' := h[i := base + d];
    if n == i {
      RelabelHead(P, h, n, d, base);
      if d > 1 {
        RelabelHead(P, h', P[i], d - 1, base);
      } else {
        assert !OnPath(P, P[i], d - 1, P[n]);
      }
    } else {
      OnPathBelow(P, P[i], d - 1, n);
      RelabelStep(P, h', P[i], d - 1, base, n);
      assert OnPath(P, i, d, P[n]) == OnPath(P, P[i], d - 1, P[n]);
    }
  }

  /** Nodes on the walk have no height yet and have a parent; the last of them
      has the terminal node as its parent. */
  lemma {:induction false} OnWalkShape(P: seq<int>, H: seq<nat>, i: nat, n: nat)
    requires ParentOrder(P) && |H| == |P| && i < |P| && n < |P|
    requires OnWalk(P, H, i, n)
    ensures H[n] == 0 && P[n] >= 0
    ensures !OnWalk(P, H, i, P[n]) ==> P[n] == Terminal(P, H, i)
    decreases i
  {
    if n != i {
      OnWalkShape(P, H, P[i], n);
    } else if Dist(P, H, P[i]) > 0 {
      assert OnWalk(P, H, P[i], P[i]);
      assert OnWalk(P, H, i, P[n]);
    }
  }

  /** The terminal node is not on its own walk. */
  lemma TerminalNotOnWalk(P: seq<int>, H: seq<nat>, i: nat)
    requires ParentOrder(P) && |H| == |P| && i < |P|
    ensures !OnWalk(P, H, i, Terminal(P, H, i))
  {
    var t := Terminal(P, H, i);
    if OnWalk(P, H, i, t) {
      OnWalkShape(P, H, i, t);
    }
  }

  /** Only the nodes on the walk change height; the terminal node and
      everything beyond it, and every node off the path, keep theirs. */
  lemma ResolveFrame(P: seq<int>, H: seq<nat>, i: nat, n: nat)
    requires ParentOrder(P) && |H| == |P| && i < |P| && n < |P|
    requires !OnWalk(P, H, i, n)
    ensures ResolveHeights(P, H, i)[n] == H[n]
  {
    RelabelFrame(P, H, i, Dist(P, H, i), H[Terminal(P, H, i)], n);
  }

  /** Every node on the walk ends one above its parent: the resolved heights
      are consecutive from the terminal node up to the block. */
  lemma ResolveConsecutive(P: seq<int>, H: seq<nat>, i: nat, n: nat)
    requires ParentOrder(P) && |H| == |P| && i < |P| && n < |P|
    requires OnWalk(P, H, i, n)
    ensures P[n] >= 0
    ensures ResolveHeights(P, H, i)[n] == ResolveHeights(P, H, i)[P[n]] + 1
  {
    var t := Terminal(P, H, i);
    OnWalkShape(P, H, i, n);
    RelabelStep(P, H, i, Dist(P, H, i), H[t], n);
    if !OnWalk(P, H, i, P[n]) {
      TerminalNotOnWalk(P, H, i);
      ResolveFrame(P, H, i, t);
    }
  }

  /** The block itself ends at the terminal's height plus its distance to it;
      a block whose height is already positive changes nothing. */
  lemma ResolveBlockHeight(P: seq<int>, H: seq<nat>, i: nat)
    requires ParentOrder(P) && |H| == |P| && i < |P|
    ensures Dist(P, H, i) > 0 ==> ResolveHeights(P, H, i)[i] == H[Terminal(P, H, i)] + Dist(P, H, i)
    ensures H[i] > 0 ==> ResolveHeights(P, H, i) == H
  {
    if Dist(P, H, i) > 0 {
      RelabelHead(P, H, i, Dist(P, H, i), H[Terminal(P, H, i)]);
    }
  }

  /** Linking an unresolved block to a parent that has a positive height, or
      that is a root (such as a genesis block of height 0), gives the block
      the parent's height plus one and changes no other height. */
  lemma LinkToResolvedParent(P: seq<int>, H: seq<nat>, i: nat)
    requires ParentOrder(P) && |H| == |P| && i < |P|
    requires H[i] == 0 && P[i] >= 0 && (H[P[i]] > 0 || P[P[i]] < 0)
    ensures ResolveHeights(P, H, i) == H[i := H[P[i]] + 1]
  {
    var r := ResolveHeights(P, H, i);
    assert Dist(P, H, i) == 1 && Terminal(P, H, i) == P[i];
    RelabelHead(P, H, i, 1, H[P[i]]);
    forall n | 0 <= n < |P| && n != i
      ensures r[n] == H[n]
    {
      ResolveFrame(P, H, i, n);
    }
  }

  /** Genesis (height 0, no parent), A on genesis and B on A, none resolved:
      resolving from B gives A height 1 and B height 2 in one walk. */
  lemma ResolveTwoUnresolvedBlocks()
    ensures ResolveHeights([-1, 0, 1], [0, 0, 0], 2) == [0, 1, 2]
  {
    assert Dist([-1, 0, 1], [0, 0, 0], 2) == 2;
  }
}
