/** Array-based tree arithmetic (Appendix C of RFC 9420) and the level-by-level order in which
    subcircuits walk the tree. */
module TreeMath {
  import opened Sequences
  import opened Bits
  import opened BitArithmetic

  /** Whole powers of two below: the source's base-two logarithm, 0 at 0. */
  method Log2(x: nat) returns (r: nat)
    ensures x == 0 ==> r == 0
    ensures x > 0 ==> Pow2(r) <= x < Pow2(r + 1)
  {
    if x == 0 {
      return 0;
    }
    var k := 1;
    while x / Pow2(k) > 0
      invariant k >= 1 && Pow2(k - 1) <= x
      decreases x - k
    {
      AtLeastPower(x, Pow2(k));
      PowerExceeds(k);
      k := k + 1;
    }
    BelowPower(x, Pow2(k));
    r := k - 1;
  }

  lemma AtLeastPower(x: nat, d: nat)
    requires d > 0 && x / d > 0
    ensures x >= d
  {
    if x < d { DivisionIs(x, d, 0, x); }
  }

  lemma BelowPower(x: nat, d: nat)
    requires d > 0 && x / d == 0
    ensures x < d
  {}

  lemma {:induction false} PowerExceeds(k: nat)
    ensures Pow2(k) > k
  {
    if k > 0 {
      PowerExceeds(k - 1);
    }
  }

  /** Exactly one power of two range contains a number. */
  lemma LogIs(x: nat, r: nat, m: nat)
    requires Pow2(r) <= x < Pow2(r + 1) && Pow2(m) <= x < Pow2(m + 1)
    ensures r == m
  {
    if r < m {
      PowersOrdered(r + 1, m);
    } else if m < r {
      PowersOrdered(m + 1, r);
    }
  }

  lemma {:induction false} PowersOrdered(a: nat, b: nat)
    requires a <= b
    ensures Pow2(a) <= Pow2(b)
  {
    if a < b {
      PowersOrdered(a, b - 1);
    }
  }

  // ----------------------------------------------------------------------- node indices

  /** The level of a node: how many ones its index ends in. */
  function Level(node: nat): nat {
    if node % 2 == 0 then 0 else 1 + Level(node / 2)
  }

  /** A node's position within its level. */
  function Upper(node: nat): nat {
    if node % 2 == 0 then node / 2 else Upper(node / 2)
  }

  function NodeIdx(level: nat, upper: nat): nat {
    upper * Pow2(level + 1) + (Pow2(level) - 1)
  }

  lemma NodeStep(level: nat, upper: nat)
    requires level > 0
    ensures NodeIdx(level, upper) == 2 * NodeIdx(level - 1, upper) + 1
  {
    PowerPositive(level + 1);
    PowerPositive(level);
    hide Pow2;
    assert upper * (2 * Pow2(level)) == 2 * (upper * Pow2(level));
  }

  /** Level and position address the nodes one to one. */
  lemma {:induction false} NodeIdxRoundTrip(level: nat, upper: nat)
    ensures Level(NodeIdx(level, upper)) == level && Upper(NodeIdx(level, upper)) == upper
  {
    hide *;
    if level == 0 {
      FirstLevel(upper);
    } else {
      NodeIdxRoundTrip(level - 1, upper);
      NodeStep(level, upper);
      OddNode(NodeIdx(level - 1, upper));
    }
  }

  lemma FirstLevel(upper: nat)
    ensures NodeIdx(0, upper) == 2 * upper && Level(2 * upper) == 0 && Upper(2 * upper) == upper
  {}

  lemma OddNode(k: nat)
    ensures Level(2 * k + 1) == Level(k) + 1 && Upper(2 * k + 1) == Upper(k)
  {
    assert (2 * k + 1) % 2 == 1 && (2 * k + 1) / 2 == k;
  }

  lemma {:induction false} NodeIdxCovers(node: nat)
    ensures NodeIdx(Level(node), Upper(node)) == node
  {
    if node % 2 == 0 {
      assert NodeIdx(0, node / 2) == 2 * (node / 2);
    } else {
      NodeIdxCovers(node / 2);
      NodeStep(Level(node), Upper(node));
    }
  }

  function FlipBit(i: nat, h: nat): nat
    requires h > 0
  {
    if HasBit(i, h) then (FlipDown(i, h); i - h) else i + h
  }

  /** Flips the highest of the trailing ones. */
  function LeftChild(node: nat): nat
    requires Level(node) > 0
  {
    FlipBit(node, Pow2(Level(node) - 1))
  }

  /** Flips it and the bit above. */
  function RightChild(node: nat): nat
    requires Level(node) > 0
  {
    FlipBit(FlipBit(node, Pow2(Level(node) - 1)), Pow2(Level(node)))
  }

  /** Children are one level down, side by side. */
  lemma Children(level: nat, upper: nat)
    requires level > 0
    ensures Level(NodeIdx(level, upper)) == level
    ensures LeftChild(NodeIdx(level, upper)) == NodeIdx(level - 1, 2 * upper)
    ensures RightChild(NodeIdx(level, upper)) == NodeIdx(level - 1, 2 * upper + 1)
  {
    NodeIdxRoundTrip(level, upper);
    PowerPositive(level);
    PowerPositive(level + 1);
    hide Pow2, Level, Upper;
    var h := Pow2(level - 1);
    FlipPattern(upper, h, NodeIdx(level, upper));
  }

  lemma FlipPattern(u: nat, h: nat, node: nat)
    requires h > 0 && node == u * (4 * h) + (2 * h - 1)
    ensures FlipBit(node, h) == (2 * u) * (2 * h) + (h - 1)
    ensures FlipBit(FlipBit(node, h), 2 * h) == (2 * u + 1) * (2 * h) + (h - 1)
  {
    hide HasBit;
    var left := (2 * u) * (2 * h) + (h - 1);
    Products(u, h);
    BitIs(2 * u, h, 2 * h - 1, node);
    BitIs(u, 2 * h, h - 1, left);
  }

  lemma Products(u: nat, h: nat)
    ensures u * (4 * h) == 2 * h * (2 * u) == 2 * (2 * h) * u == (2 * u) * (2 * h)
    ensures (2 * u + 1) * (2 * h) == (2 * u) * (2 * h) + 2 * h
  {}

  lemma BitIs(q: nat, h: nat, r: nat, i: nat)
    requires h > 0 && r < 2 * h && i == 2 * h * q + r
    ensures HasBit(i, h) <==> r >= h
  {
    LowBit(q, h, r);
  }

  // -------------------------------------------------------------------------- the order

  /** The first subcircuit of a level, in a tree of `Pow2(m)` leaves. */
  function Start(m: nat, level: nat): (r: nat)
    requires level <= m + 1
    ensures r + Pow2(m + 1 - level) == Pow2(m + 1)
  {
    if level == 0 then 0 else Start(m, level - 1) + Pow2(m - (level - 1))
  }

  predicate InTree(m: nat, node: nat) {
    Level(node) <= m && Upper(node) < Pow2(m - Level(node))
  }

  /** The subcircuit that computes a node. */
  function SubcircuitOf(m: nat, node: nat): nat
    requires InTree(m, node)
  {
    Start(m, Level(node)) + Upper(node)
  }

  /** The node that the `i`-th subcircuit from `level` on computes. */
  function NodeFrom(m: nat, level: nat, i: nat): nat
    requires level <= m && i + 1 < Pow2(m - level + 1)
    decreases m - level
  {
    if i < Pow2(m - level) then NodeIdx(level, i)
    else
      assert m - level > 0 && Pow2(m - level + 1) == 2 * Pow2(m - level);
      NodeFrom(m, level + 1, i - Pow2(m - level))
  }

  function NodeOf(m: nat, i: nat): nat
    requires i + 1 < 2 * Pow2(m)
  {
    NodeFrom(m, 0, i)
  }

  lemma {:induction false} NodeFromFacts(m: nat, level: nat, i: nat)
    requires level <= m && i + 1 < Pow2(m - level + 1)
    ensures var node := NodeFrom(m, level, i);
            && level <= Level(node) && InTree(m, node)
            && SubcircuitOf(m, node) == Start(m, level) + i
    decreases m - level
  {
    if i < Pow2(m - level) {
      NodeIdxRoundTrip(level, i);
    } else {
      assert m - level > 0 && Pow2(m - level + 1) == 2 * Pow2(m - level);
      NodeFromFacts(m, level + 1, i - Pow2(m - level));
      NextStart(m, level);
    }
  }

  lemma NextStart(m: nat, level: nat)
    requires level <= m
    ensures Start(m, level + 1) == Start(m, level) + Pow2(m - level)
  {}

  lemma {:induction false} NodeFromLevel(m: nat, level: nat, l: nat, u: nat)
    requires level <= l <= m && u < Pow2(m - l)
    ensures Start(m, l) >= Start(m, level)
    ensures var i := Start(m, l) + u - Start(m, level);
            i + 1 < Pow2(m - level + 1) && NodeFrom(m, level, i) == NodeIdx(l, u)
    decreases l - level
  {
    assert Pow2(m - level + 1) == 2 * Pow2(m - level);
    if level < l {
      NodeFromLevel(m, level + 1, l, u);
      NextStart(m, level);
    }
  }

  /** Subcircuits and nodes correspond one to one, in both directions. */
  lemma SubcircuitsAreNodes(m: nat)
    ensures forall i: nat | i + 1 < 2 * Pow2(m) :: InTree(m, NodeOf(m, i)) && SubcircuitOf(m, NodeOf(m, i)) == i
    ensures forall node | InTree(m, node) ::
              SubcircuitOf(m, node) + 1 < 2 * Pow2(m) && NodeOf(m, SubcircuitOf(m, node)) == node
  {
    hide *;
    forall i: nat | i + 1 < 2 * Pow2(m) ensures InTree(m, NodeOf(m, i)) && SubcircuitOf(m, NodeOf(m, i)) == i {
      NodeOfSubcircuit(m, i);
    }
    forall node | InTree(m, node)
      ensures SubcircuitOf(m, node) + 1 < 2 * Pow2(m) && NodeOf(m, SubcircuitOf(m, node)) == node
    {
      SubcircuitOfNode(m, node);
    }
  }

  lemma NodeOfSubcircuit(m: nat, i: nat)
    requires i + 1 < 2 * Pow2(m)
    ensures InTree(m, NodeOf(m, i)) && SubcircuitOf(m, NodeOf(m, i)) == i
  {
    hide Pow2, NodeFrom, Start, Level, Upper, InTree, SubcircuitOf;
    PowerPositive(m + 1);
    NodeFromFacts(m, 0, i);
    StartsAt(m);
  }

  lemma SubcircuitOfNode(m: nat, node: nat)
    requires InTree(m, node)
    ensures SubcircuitOf(m, node) + 1 < 2 * Pow2(m) && NodeOf(m, SubcircuitOf(m, node)) == node
  {
    hide NodeIdx, Pow2, NodeOf;
    NodeOfLevel(m, Level(node), Upper(node));
    NodeIdxCovers(node);
  }

  /** The nodes of the tree are exactly the indices below `2 * Pow2(m) - 1`. */
  lemma InTreeIff(m: nat, node: nat)
    ensures InTree(m, node) <==> node + 1 < 2 * Pow2(m)
  {
    hide Pow2, Level, Upper;
    var l, u := Level(node), Upper(node);
    NodeIdxCovers(node);
    PowerPositive(l + 1);
    PowerPositive(m + 1);
    if l > m {
      PowersOrdered(m + 1, l);
    } else {
      Pow2Add(m - l, l);
      TreeBound(u, Pow2(m - l), Pow2(l), node);
    }
  }

  lemma TreeBound(u: nat, c: nat, h: nat, node: nat)
    requires h > 0 && node == u * (2 * h) + (h - 1)
    ensures u < c <==> node + 1 < 2 * (c * h)
  {
    var d := 2 * h;
    assert 2 * (c * h) == d * c && node == d * u + (h - 1);
    NotAbove(d, u, c);
    NotAbove(d, c, u);
  }

  /** Both children of a parent in the tree are in it and come earlier. */
  lemma ChildrenEarlier(m: nat, node: nat)
    requires InTree(m, node) && Level(node) > 0
    ensures InTree(m, LeftChild(node)) && InTree(m, RightChild(node))
    ensures SubcircuitOf(m, LeftChild(node)) < SubcircuitOf(m, node)
    ensures SubcircuitOf(m, RightChild(node)) < SubcircuitOf(m, node)
  {
    hide Level, Upper, NodeIdx, LeftChild, RightChild, Pow2;
    var l, u := Level(node), Upper(node);
    NodeIdxCovers(node);
    Children(l, u);
    NodeIdxRoundTrip(l - 1, 2 * u);
    NodeIdxRoundTrip(l - 1, 2 * u + 1);
    PowerPositive(m - l + 1);
    NextStart(m, l - 1);
  }

  function NumInternalNodes(numLeaves: nat): nat {
    if numLeaves < 2 then 0 else 2 * (numLeaves - 1) + 1
  }

  method RootIdx(numLeaves: nat, ghost m: nat) returns (r: nat)
    requires numLeaves == Pow2(m)
    ensures r == NodeIdx(m, 0) == Pow2(m) - 1
  {
    var w := NumInternalNodes(numLeaves);
    var k := Log2(w);
    RootLog(numLeaves, w, k, m);
    r := Pow2(k) - 1;
    assert NodeIdx(m, 0) == Pow2(m) - 1;
  }

  lemma RootLog(numLeaves: nat, w: nat, k: nat, m: nat)
    requires numLeaves == Pow2(m) && w == NumInternalNodes(numLeaves)
    requires w == 0 ==> k == 0
    requires w > 0 ==> Pow2(k) <= w < Pow2(k + 1)
    ensures k == m
  {
    if m == 0 {
      assert numLeaves == 1;
    } else {
      PowerPositive(m);
      PowerPositive(m + 1);
      hide Pow2;
      LogIs(w, k, m);
    }
  }

  method TrailingOnes(node: nat) returns (r: nat)
    ensures r == Level(node)
  {
    r := 0;
    var n := node;
    while n % 2 == 1
      invariant Level(node) == r + Level(n)
      decreases n
    {
      n := n / 2;
      r := r + 1;
    }
  }

  /** Walks the levels bottom up and each level left to right; `None` beyond the root. */
  method SubcircuitIdxToNodeIdx(subcircuitIdx: nat, numLeaves: nat, ghost m: nat) returns (r: Option<nat>)
    requires numLeaves == Pow2(m)
    ensures r == if subcircuitIdx + 1 < 2 * Pow2(m) then Some(NodeOf(m, subcircuitIdx)) else None
  {
    hide NodeIdx, NodeOf, Pow2;
    var i := 0;
    var root := RootIdx(numLeaves, m);
    var top := TrailingOnes(root);
    NodeIdxRoundTrip(m, 0);
    var bits := Log2(numLeaves);
    PowerPositive(m + 1);
    LogIs(numLeaves, bits, m);
    StartsAt(m);
    for level := 0 to top + 1
      invariant i == Start(m, level) <= subcircuitIdx
    {
      var upperHalfSize := bits - level;
      NextStart(m, level);
      var width := Pow2(upperHalfSize);
      for upperHalf := 0 to width
        invariant i == Start(m, level) + upperHalf <= subcircuitIdx
      {
        if i == subcircuitIdx {
          NodeOfLevel(m, level, upperHalf);
          return Some(NodeIdx(level, upperHalf));
        }
        i := i + 1;
      }
    }
    r := None;
  }

  lemma StartsAt(m: nat)
    ensures Start(m, 0) == 0 && Start(m, m + 1) + 1 == 2 * Pow2(m)
  {}

  lemma NodeOfLevel(m: nat, level: nat, u: nat)
    requires level <= m && u < Pow2(m - level)
    ensures Start(m, level) + u + 1 < 2 * Pow2(m)
    ensures NodeOf(m, Start(m, level) + u) == NodeIdx(level, u)
  {
    NodeFromLevel(m, 0, level, u);
  }
}
