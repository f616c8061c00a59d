/** The bitonic sorting network, first as the recursion it comes from and then as the layers
    of comparators the code runs, with the 0-1 principle by thresholds. */
module BitonicNetwork {
  import opened Sequences
  import opened Bits
  import opened BitArithmetic

  // ---------------------------------------------------------------------- comparators

  /** A comparator keeps its inputs in place when the first is strictly below the second, and
      otherwise swaps them, equal ones included. */
  function Lower<T>(a: T, b: T, less: (T, T) -> bool): T { if less(a, b) then a else b }

  function Upper<T>(a: T, b: T, less: (T, T) -> bool): T { if less(a, b) then b else a }

  /** What ends up at the lower and at the higher position. */
  function Front<T>(a: T, b: T, up: bool, less: (T, T) -> bool): T {
    if up then Lower(a, b, less) else Upper(b, a, less)
  }

  function Back<T>(a: T, b: T, up: bool, less: (T, T) -> bool): T {
    if up then Upper(a, b, less) else Lower(b, a, less)
  }

  function Fronts<T>(x: seq<T>, y: seq<T>, up: bool, less: (T, T) -> bool): (r: seq<T>)
    requires |x| == |y|
    ensures |r| == |x| && forall i | 0 <= i < |x| :: r[i] == Front(x[i], y[i], up, less)
  {
    if x == [] then [] else Fronts(x[..|x| - 1], y[..|y| - 1], up, less) + [Front(x[|x| - 1], y[|y| - 1], up, less)]
  }

  function Backs<T>(x: seq<T>, y: seq<T>, up: bool, less: (T, T) -> bool): (r: seq<T>)
    requires |x| == |y|
    ensures |r| == |x| && forall i | 0 <= i < |x| :: r[i] == Back(x[i], y[i], up, less)
  {
    if x == [] then [] else Backs(x[..|x| - 1], y[..|y| - 1], up, less) + [Back(x[|x| - 1], y[|y| - 1], up, less)]
  }

  // ----------------------------------------------------------------- the recursive form

  function Merge<T>(s: seq<T>, j: nat, up: bool, less: (T, T) -> bool): (r: seq<T>)
    requires |s| == Pow2(j)
    ensures |r| == |s|
    decreases j
  {
    if j == 0 then s
    else
      var h := Pow2(j - 1);
      Merge(Fronts(s[..h], s[h..], up, less), j - 1, up, less) + Merge(Backs(s[..h], s[h..], up, less), j - 1, up, less)
  }

  function BitonicSort<T>(s: seq<T>, k: nat, up: bool, less: (T, T) -> bool): (r: seq<T>)
    requires |s| == Pow2(k)
    ensures |r| == |s|
    decreases k
  {
    if k == 0 then s
    else
      var h := Pow2(k - 1);
      Merge(BitonicSort(s[..h], k - 1, true, less) + BitonicSort(s[h..], k - 1, false, less), k, up, less)
  }

  // ---------------------------------------------------------------------- permutation

  lemma ConcatMultiset<T>(a: seq<T>, b: seq<T>)
    ensures multiset(a + b) == multiset(a) + multiset(b)
  {}

  lemma ExchangePair<T>(a: multiset<T>, b: multiset<T>, x: multiset<T>, y: multiset<T>, p: T, q: T, u: T, v: T)
    requires a + b == x + y && ((p == u && q == v) || (p == v && q == u))
    ensures (a + multiset{p}) + (b + multiset{q}) == (x + multiset{u}) + (y + multiset{v})
  {
    assert (a + multiset{p}) + (b + multiset{q}) == (a + b) + (multiset{p} + multiset{q});
    assert (x + multiset{u}) + (y + multiset{v}) == (x + y) + (multiset{u} + multiset{v});
    assert multiset{p} + multiset{q} == multiset{u} + multiset{v};
  }

  lemma {:induction false} HalfCleanPermutes<T>(x: seq<T>, y: seq<T>, up: bool, less: (T, T) -> bool)
    requires |x| == |y|
    ensures multiset(Fronts(x, y, up, less)) + multiset(Backs(x, y, up, less)) == multiset(x) + multiset(y)
  {
    if x != [] {
      var n := |x| - 1;
      HalfCleanPermutes(x[..n], y[..n], up, less);
      LastPair(x, y, up, less, n);
      hide *;
      var f, g := Fronts(x[..n], y[..n], up, less), Backs(x[..n], y[..n], up, less);
      var p, q := Front(x[n], y[n], up, less), Back(x[n], y[n], up, less);
      ConcatMultiset(f, [p]);
      ConcatMultiset(g, [q]);
      ConcatMultiset(x[..n], [x[n]]);
      ConcatMultiset(y[..n], [y[n]]);
      ExchangePair(multiset(f), multiset(g), multiset(x[..n]), multiset(y[..n]), p, q, x[n], y[n]);
    }
  }

  lemma LastPair<T>(x: seq<T>, y: seq<T>, up: bool, less: (T, T) -> bool, n: nat)
    requires |x| == |y| == n + 1
    ensures Fronts(x, y, up, less) == Fronts(x[..n], y[..n], up, less) + [Front(x[n], y[n], up, less)]
    ensures Backs(x, y, up, less) == Backs(x[..n], y[..n], up, less) + [Back(x[n], y[n], up, less)]
    ensures x == x[..n] + [x[n]] && y == y[..n] + [y[n]]
    ensures var (p, q) := (Front(x[n], y[n], up, less), Back(x[n], y[n], up, less));
            (p == x[n] && q == y[n]) || (p == y[n] && q == x[n])
  {
    hide *;
    LastFront(x, y, up, less, n);
    LastBack(x, y, up, less, n);
    KeepsPair(x[n], y[n], up, less);
  }

  lemma KeepsPair<T>(a: T, b: T, up: bool, less: (T, T) -> bool)
    ensures var (p, q) := (Front(a, b, up, less), Back(a, b, up, less)); (p == a && q == b) || (p == b && q == a)
  {}

  lemma LastFront<T>(x: seq<T>, y: seq<T>, up: bool, less: (T, T) -> bool, n: nat)
    requires |x| == |y| == n + 1
    ensures Fronts(x, y, up, less) == Fronts(x[..n], y[..n], up, less) + [Front(x[n], y[n], up, less)]
  {
    hide Front;
  }

  lemma LastBack<T>(x: seq<T>, y: seq<T>, up: bool, less: (T, T) -> bool, n: nat)
    requires |x| == |y| == n + 1
    ensures Backs(x, y, up, less) == Backs(x[..n], y[..n], up, less) + [Back(x[n], y[n], up, less)]
  {
    hide Back;
  }

  lemma NothingToDo<T>(s: seq<T>, up: bool, less: (T, T) -> bool)
    requires |s| == Pow2(0)
    ensures |s| == 1 && Merge(s, 0, up, less) == s && BitonicSort(s, 0, up, less) == s
  {}

  /** One level of merging. */
  lemma MergeStep<T>(s: seq<T>, j: nat, up: bool, less: (T, T) -> bool, h: nat)
    requires j > 0 && |s| == Pow2(j) && h == Pow2(j - 1)
    ensures |s[..h]| == |s[h..]| == h && s[..h] + s[h..] == s
    ensures Merge(s, j, up, less)
         == Merge(Fronts(s[..h], s[h..], up, less), j - 1, up, less)
              + Merge(Backs(s[..h], s[h..], up, less), j - 1, up, less)
  {
    hide Fronts, Backs;
  }

  lemma {:induction false} MergePermutes<T>(s: seq<T>, j: nat, up: bool, less: (T, T) -> bool)
    requires |s| == Pow2(j)
    ensures multiset(Merge(s, j, up, less)) == multiset(s)
    decreases j
  {
    hide *;
    if j == 0 {
      NothingToDo(s, up, less);
    } else {
      var h := Pow2(j - 1);
      MergeStep(s, j, up, less, h);
      PowerPositive(j);
      var a, b := Fronts(s[..h], s[h..], up, less), Backs(s[..h], s[h..], up, less);
      HalfCleanPermutes(s[..h], s[h..], up, less);
      MergePermutes(a, j - 1, up, less);
      MergePermutes(b, j - 1, up, less);
      ConcatMultiset(Merge(a, j - 1, up, less), Merge(b, j - 1, up, less));
      ConcatMultiset(s[..h], s[h..]);
    }
  }

  /** One level of sorting. */
  lemma SortStep<T>(s: seq<T>, k: nat, up: bool, less: (T, T) -> bool, h: nat)
    requires k > 0 && |s| == Pow2(k) && h == Pow2(k - 1)
    ensures |s[..h]| == |s[h..]| == h && s[..h] + s[h..] == s
    ensures BitonicSort(s, k, up, less)
         == Merge(BitonicSort(s[..h], k - 1, true, less) + BitonicSort(s[h..], k - 1, false, less), k, up, less)
  {
    hide Merge;
  }

  lemma {:induction false} SortPermutes<T>(s: seq<T>, k: nat, up: bool, less: (T, T) -> bool)
    requires |s| == Pow2(k)
    ensures multiset(BitonicSort(s, k, up, less)) == multiset(s)
    decreases k
  {
    hide *;
    if k == 0 {
      NothingToDo(s, up, less);
    } else {
      var h := Pow2(k - 1);
      SortStep(s, k, up, less, h);
      PowerPositive(k);
      var x, y := BitonicSort(s[..h], k - 1, true, less), BitonicSort(s[h..], k - 1, false, less);
      SortPermutes(s[..h], k - 1, true, less);
      SortPermutes(s[h..], k - 1, false, less);
      MergePermutes(x + y, k, up, less);
      ConcatMultiset(x, y);
      ConcatMultiset(s[..h], s[h..]);
    }
  }

  // ----------------------------------------------------------------- the 0-1 principle

  predicate BitLess(a: bool, b: bool) { !a && b }

  const BitOrder := (a: bool, b: bool) => BitLess(a, b)

  /** `f` cuts the order at a threshold: comparators act on its images as on bits. */
  ghost predicate Threshold<T(!new)>(f: T -> bool, less: (T, T) -> bool) {
    forall a, b :: f(Lower(a, b, less)) == (f(a) && f(b)) && f(Upper(a, b, less)) == (f(a) || f(b))
  }

  lemma PairMaps<T(!new)>(f: T -> bool, a: T, b: T, up: bool, less: (T, T) -> bool)
    requires Threshold(f, less)
    ensures f(Front(a, b, up, less)) == Front(f(a), f(b), up, BitOrder)
    ensures f(Back(a, b, up, less)) == Back(f(a), f(b), up, BitOrder)
  {
    assert f(Lower(a, b, less)) == (f(a) && f(b));
    assert f(Lower(b, a, less)) == (f(b) && f(a));
  }

  lemma HalfCleanMaps<T(!new)>(f: T -> bool, x: seq<T>, y: seq<T>, up: bool, less: (T, T) -> bool)
    requires |x| == |y| && Threshold(f, less)
    ensures Map(f, Fronts(x, y, up, less)) == Fronts(Map(f, x), Map(f, y), up, BitOrder)
    ensures Map(f, Backs(x, y, up, less)) == Backs(Map(f, x), Map(f, y), up, BitOrder)
  {
    hide *;
    forall i | 0 <= i < |x|
      ensures f(Front(x[i], y[i], up, less)) == Front(f(x[i]), f(y[i]), up, BitOrder)
      ensures f(Back(x[i], y[i], up, less)) == Back(f(x[i]), f(y[i]), up, BitOrder)
    {
      PairMaps(f, x[i], y[i], up, less);
    }
  }

  lemma MapSlices<T>(f: T -> bool, s: seq<T>, h: nat)
    requires h <= |s|
    ensures Map(f, s)[..h] == Map(f, s[..h]) && Map(f, s)[h..] == Map(f, s[h..])
  {
    hide Map;
  }

  lemma MapAppend<T>(f: T -> bool, a: seq<T>, b: seq<T>)
    ensures Map(f, a + b) == Map(f, a) + Map(f, b)
  {
    hide Map;
  }

  lemma {:induction false} MergeMaps<T(!new)>(f: T -> bool, s: seq<T>, j: nat, up: bool, less: (T, T) -> bool)
    requires |s| == Pow2(j) && Threshold(f, less)
    ensures Map(f, Merge(s, j, up, less)) == Merge(Map(f, s), j, up, BitOrder)
    decreases j
  {
    hide Fronts, Backs, Map, Threshold;
    if j > 0 {
      var h := Pow2(j - 1);
      MapSlices(f, s, h);
      var x, y := Fronts(s[..h], s[h..], up, less), Backs(s[..h], s[h..], up, less);
      HalfCleanMaps(f, s[..h], s[h..], up, less);
      MergeMaps(f, x, j - 1, up, less);
      MergeMaps(f, y, j - 1, up, less);
      MapAppend(f, Merge(x, j - 1, up, less), Merge(y, j - 1, up, less));
    }
  }

  lemma {:induction false} SortMaps<T(!new)>(f: T -> bool, s: seq<T>, k: nat, up: bool, less: (T, T) -> bool)
    requires |s| == Pow2(k) && Threshold(f, less)
    ensures Map(f, BitonicSort(s, k, up, less)) == BitonicSort(Map(f, s), k, up, BitOrder)
    decreases k
  {
    hide Merge, Map, Threshold;
    if k > 0 {
      var h := Pow2(k - 1);
      MapSlices(f, s, h);
      var x, y := BitonicSort(s[..h], k - 1, true, less), BitonicSort(s[h..], k - 1, false, less);
      SortMaps(f, s[..h], k - 1, true, less);
      SortMaps(f, s[h..], k - 1, false, less);
      MapAppend(f, x, y);
      MergeMaps(f, x + y, k, up, less);
    }
  }

  // ------------------------------------------------------------------- sorting bits

  predicate SortedBits(bs: seq<bool>, up: bool) {
    forall i, j | 0 <= i < j < |bs| :: if up then bs[i] ==> bs[j] else bs[j] ==> bs[i]
  }

  /** The bit `v` on `[p, q)` and the other bit elsewhere. */
  predicate Interval(bs: seq<bool>, v: bool, p: nat, q: nat) {
    p <= q <= |bs| && forall i | 0 <= i < |bs| :: bs[i] == (if p <= i < q then v else !v)
  }

  ghost predicate Bitonic(bs: seq<bool>) { exists v: bool, p: nat, q: nat :: Interval(bs, v, p, q) }

  predicate All(bs: seq<bool>, v: bool) { forall i | 0 <= i < |bs| :: bs[i] == v }

  /** A half-cleaner leaves one half constant and the other bitonic. */
  ghost predicate Cleaned(lo: seq<bool>, hi: seq<bool>) {
    (All(lo, false) && Bitonic(hi)) || (All(hi, true) && Bitonic(lo))
  }

  lemma HalfCleanInterval(x: seq<bool>, y: seq<bool>, p: nat, q: nat, lo: seq<bool>, hi: seq<bool>)
    requires |x| == |y| == |lo| == |hi| && Interval(x + y, true, p, q)
    requires forall i | 0 <= i < |x| :: lo[i] == (x[i] && y[i]) && hi[i] == (x[i] || y[i])
    ensures Cleaned(lo, hi)
  {
    var h := |x|;
    forall i | 0 <= i < h ensures x[i] == (p <= i < q) && y[i] == (p <= i + h < q) {
      assert (x + y)[i] == x[i] && (x + y)[i + h] == y[i];
    }
    if q <= h {
      assert Interval(hi, true, p, q);
    } else if h <= p {
      assert Interval(hi, true, p - h, q - h);
    } else if q - h <= p {
      assert Interval(hi, false, q - h, p);
    } else {
      assert Interval(lo, true, p, q - h);
    }
  }

  function Not(bs: seq<bool>): (r: seq<bool>)
    ensures |r| == |bs| && forall i | 0 <= i < |bs| :: r[i] == !bs[i]
  {
    seq(|bs|, i requires 0 <= i < |bs| => !bs[i])
  }

  lemma NotBitonic(bs: seq<bool>)
    requires Bitonic(Not(bs))
    ensures Bitonic(bs)
  {
    var v: bool, p: nat, q: nat :| Interval(Not(bs), v, p, q);
    forall i | 0 <= i < |bs| ensures bs[i] == (if p <= i < q then !v else v) {
      assert Not(bs)[i] == !bs[i];
    }
    assert Interval(bs, !v, p, q);
  }

  lemma HalfCleanBitonic(x: seq<bool>, y: seq<bool>, lo: seq<bool>, hi: seq<bool>)
    requires |x| == |y| == |lo| == |hi| && Bitonic(x + y)
    requires forall i | 0 <= i < |x| :: lo[i] == (x[i] && y[i]) && hi[i] == (x[i] || y[i])
    ensures Cleaned(lo, hi)
  {
    var v: bool, p: nat, q: nat :| Interval(x + y, v, p, q);
    if v {
      HalfCleanInterval(x, y, p, q, lo, hi);
    } else {
      assert Not(x) + Not(y) == Not(x + y);
      assert Interval(Not(x + y), true, p, q);
      HalfCleanInterval(Not(x), Not(y), p, q, Not(hi), Not(lo));
      if All(Not(hi), false) {
        assert forall i | 0 <= i < |hi| :: Not(hi)[i] == false;
        assert All(hi, true);
      }
      if All(Not(lo), true) {
        assert forall i | 0 <= i < |lo| :: Not(lo)[i] == true;
        assert All(lo, false);
      }
      if Bitonic(Not(lo)) { NotBitonic(lo); }
      if Bitonic(Not(hi)) { NotBitonic(hi); }
    }
  }

  lemma MergeOfConstant(s: seq<bool>, j: nat, up: bool, v: bool)
    requires |s| == Pow2(j) && All(s, v)
    ensures All(Merge(s, j, up, BitOrder), v)
  {
    MergePermutes(s, j, up, BitOrder);
    var r := Merge(s, j, up, BitOrder);
    hide Merge;
    forall i | 0 <= i < |r| ensures r[i] == v {
      MultisetMember(r, s, r[i]);
      assert r[i] in r;
    }
  }

  lemma ConcatSorted(a: seq<bool>, b: seq<bool>, up: bool)
    requires SortedBits(a, up) && SortedBits(b, up)
    requires if up then All(a, false) || All(b, true) else All(a, true) || All(b, false)
    ensures SortedBits(a + b, up)
  {}

  lemma ConstantIsSorted(a: seq<bool>, v: bool, up: bool)
    requires All(a, v)
    ensures SortedBits(a, up) && Bitonic(a)
  {
    assert Interval(a, v, 0, |a|);
  }

  /** A bitonic sequence of bits is sorted by merging. */
  lemma {:induction false} MergeSortsBits(s: seq<bool>, j: nat, up: bool)
    requires |s| == Pow2(j) && Bitonic(s)
    ensures SortedBits(Merge(s, j, up, BitOrder), up)
    decreases j, 0
  {
    hide *;
    if j == 0 {
      NothingToDo(s, up, BitOrder);
      OneBitSorted(s, up);
    } else {
      PowerPositive(j);
      var h := Pow2(j - 1);
      var x, y := s[..h], s[h..];
      MergeStep(s, j, up, BitOrder, h);
      var a, b := Fronts(x, y, up, BitOrder), Backs(x, y, up, BitOrder);
      HalfCleanBits(x, y, up);
      MergeOfClean(if up then a else b, if up then b else a, j - 1, up);
      ConcatSorted(Merge(a, j - 1, up, BitOrder), Merge(b, j - 1, up, BitOrder), up);
    }
  }

  lemma HalfCleanBits(x: seq<bool>, y: seq<bool>, up: bool)
    requires |x| == |y| && Bitonic(x + y)
    ensures var (a, b) := (Fronts(x, y, up, BitOrder), Backs(x, y, up, BitOrder));
            if up then Cleaned(a, b) else Cleaned(b, a)
  {
    var a, b := Fronts(x, y, up, BitOrder), Backs(x, y, up, BitOrder);
    if up {
      HalfCleanBitonic(x, y, a, b);
    } else {
      HalfCleanBitonic(x, y, b, a);
    }
  }

  /** Merging both halves sorts them, and keeps the constant one constant. */
  lemma {:induction false} MergeOfClean(lo: seq<bool>, hi: seq<bool>, j: nat, up: bool)
    requires |lo| == |hi| == Pow2(j) && Cleaned(lo, hi)
    ensures SortedBits(Merge(lo, j, up, BitOrder), up) && SortedBits(Merge(hi, j, up, BitOrder), up)
    ensures All(Merge(lo, j, up, BitOrder), false) || All(Merge(hi, j, up, BitOrder), true)
    decreases j, 1
  {
    hide SortedBits, Merge, Pow2, Bitonic;
    if All(lo, false) && Bitonic(hi) {
      ConstantIsSorted(lo, false, up);
      MergeOfConstant(lo, j, up, false);
    } else {
      ConstantIsSorted(hi, true, up);
      MergeOfConstant(hi, j, up, true);
    }
    MergeSortsBits(lo, j, up);
    MergeSortsBits(hi, j, up);
  }

  function CountTrailing(bs: seq<bool>, v: bool): (n: nat)
    ensures n <= |bs|
    ensures forall i | |bs| - n <= i < |bs| :: bs[i] == v
    ensures n < |bs| ==> bs[|bs| - n - 1] != v
  {
    if bs == [] || bs[|bs| - 1] != v then 0 else 1 + CountTrailing(bs[..|bs| - 1], v)
  }

  /** An ascending half followed by a descending one is bitonic. */
  lemma UpThenDown(a: seq<bool>, b: seq<bool>)
    requires SortedBits(a, true) && SortedBits(b, false)
    ensures Bitonic(a + b)
  {
    var p, q := |a| - CountTrailing(a, true), |a| + |b| - CountTrailing(b, false);
    assert Interval(a + b, true, p, q);
  }

  /** The recursive network sorts bits, either way. */
  lemma {:induction false} SortsBits(s: seq<bool>, k: nat, up: bool)
    requires |s| == Pow2(k)
    ensures SortedBits(BitonicSort(s, k, up, BitOrder), up)
    decreases k
  {
    hide Merge, SortedBits;
    if k == 0 {
      OneBitSorted(s, up);
    } else {
      var h := Pow2(k - 1);
      var x, y := BitonicSort(s[..h], k - 1, true, BitOrder), BitonicSort(s[h..], k - 1, false, BitOrder);
      SortsBits(s[..h], k - 1, true);
      SortsBits(s[h..], k - 1, false);
      UpThenDown(x, y);
      MergeSortsBits(x + y, k, up);
    }
  }

  lemma OneBitSorted(s: seq<bool>, up: bool)
    requires |s| == 1
    ensures SortedBits(s, up)
  {}

  // ------------------------------------------------------------------ layers of comparators

  /** The comparators of distance `Pow2(j)` in stage `k`: the pair of `i` is `i` with bit `j`
      flipped, and bit `k` of `i` gives the direction. */
  function LayerAt<T>(s: seq<T>, m: nat, k: nat, j: nat, i: nat, less: (T, T) -> bool): T
    requires |s| == Pow2(m) && j < k <= m && i < |s|
  {
    PartnerInRange(i, j, m);
    if Bit(i, j) then Back(s[i - Pow2(j)], s[i], !Bit(i, k), less)
    else Front(s[i], s[i + Pow2(j)], !Bit(i, k), less)
  }

  function Layer<T>(s: seq<T>, m: nat, k: nat, j: nat, less: (T, T) -> bool): (r: seq<T>)
    requires |s| == Pow2(m) && j < k <= m
    ensures |r| == |s|
  {
    seq(|s|, i requires 0 <= i < |s| => LayerAt(s, m, k, j, i, less))
  }

  /** Layers `j - 1` down to 0 of stage `k`. */
  function Layers<T>(s: seq<T>, m: nat, k: nat, j: nat, less: (T, T) -> bool): (r: seq<T>)
    requires |s| == Pow2(m) && j <= k <= m
    ensures |r| == |s|
    decreases j
  {
    if j == 0 then s else Layers(Layer(s, m, k, j - 1, less), m, k, j - 1, less)
  }

  /** Stages 1 up to `k`. */
  function Stages<T>(s: seq<T>, m: nat, k: nat, less: (T, T) -> bool): (r: seq<T>)
    requires |s| == Pow2(m) && k <= m
    ensures |r| == |s|
  {
    if k == 0 then s else Layers(Stages(s, m, k - 1, less), m, k, k, less)
  }

  /** Aligned block `q` of size `Pow2(j)`. */
  function Block<T>(s: seq<T>, j: nat, q: nat): (r: seq<T>)
    requires Pow2(j) * q + Pow2(j) <= |s|
    ensures |r| == Pow2(j)
  {
    s[Pow2(j) * q..Pow2(j) * q + Pow2(j)]
  }

  lemma SliceHalves<T>(s: seq<T>, o: nat, h: nat)
    requires o + 2 * h <= |s|
    ensures s[o..o + 2 * h][..h] == s[o..o + h]
    ensures s[o..o + 2 * h][h..] == s[o + h..o + h + h]
    ensures s[o..o + 2 * h] == s[o..o + h] + s[o + h..o + h + h]
  {}

  lemma BlockHalves<T>(s: seq<T>, j: nat, q: nat)
    requires Pow2(j + 1) * q + Pow2(j + 1) <= |s|
    ensures 0 <= Pow2(j) * (2 * q) && Pow2(j) * (2 * q) + Pow2(j) <= |s| && Pow2(j) * (2 * q + 1) + Pow2(j) <= |s|
    ensures Block(s, j + 1, q)[..Pow2(j)] == Block(s, j, 2 * q)
    ensures Block(s, j + 1, q)[Pow2(j)..] == Block(s, j, 2 * q + 1)
    ensures Block(s, j + 1, q) == Block(s, j, 2 * q) + Block(s, j, 2 * q + 1)
  {
    hide *;
    PowerPositive(j + 1);
    var h, o := Pow2(j), Pow2(j) * (2 * q);
    HalfOffsets(h, q, o);
    SliceHalves(s, o, h);
    BlockIs(s, j + 1, q, o);
    BlockIs(s, j, 2 * q, o);
    BlockIs(s, j, 2 * q + 1, o + h);
  }

  lemma HalfOffsets(h: nat, q: nat, o: nat)
    requires o == h * (2 * q)
    ensures (h + h) * q == o && h * (2 * q + 1) == o + h
  {}

  lemma BlockIs<T>(s: seq<T>, j: nat, q: nat, o: nat)
    requires o == Pow2(j) * q && o + Pow2(j) <= |s|
    ensures Block(s, j, q) == s[o..o + Pow2(j)]
  {}

  /** Which way block `q` of size `Pow2(j)` goes in stage `k`. */
  function Upwards(k: nat, j: nat, q: nat): bool { !Bit(Pow2(j) * q, k) }

  /** What the layer puts at offset `r` of block `q`. */
  lemma ElementOfLayer<T>(s: seq<T>, m: nat, k: nat, j: nat, q: nat, less: (T, T) -> bool, o: nat, r: nat)
    requires |s| == Pow2(m) && j < k <= m && o == Pow2(j + 1) * q && o + 2 * Pow2(j) <= |s| && r < 2 * Pow2(j)
    ensures var (t, h, up) := (Layer(s, m, k, j, less), Pow2(j), Upwards(k, j + 1, q));
            && (r < h ==> t[o + r] == Front(s[o + r], s[o + r + h], up, less))
            && (r >= h ==> t[o + r] == Back(s[o + r - h], s[o + r], up, less))
  {
    hide Pow2, Bit, Front, Back, Layer;
    PowerPositive(j + 1);
    assert o == 2 * Pow2(j) * q;
    BitsInBlock(q, j, k, r);
    LayerAtIs(s, m, k, j, o + r, less);
  }

  /** The two halves a layer leaves in a block. */
  lemma HalvesOfLayer<T>(s: seq<T>, m: nat, k: nat, j: nat, q: nat, less: (T, T) -> bool, o: nat, h: nat)
    requires |s| == Pow2(m) && j < k <= m && h == Pow2(j) && o == Pow2(j + 1) * q && o + 2 * h <= |s|
    ensures var (t, x, y, up) := (Layer(s, m, k, j, less), s[o..o + h], s[o + h..o + h + h], Upwards(k, j + 1, q));
            t[o..o + h] == Fronts(x, y, up, less) && t[o + h..o + h + h] == Backs(x, y, up, less)
  {
    hide *;
    var t, x, y, up := Layer(s, m, k, j, less), s[o..o + h], s[o + h..o + h + h], Upwards(k, j + 1, q);
    forall r | 0 <= r < h ensures t[o..o + h][r] == Front(x[r], y[r], up, less) {
      ElementOfLayer(s, m, k, j, q, less, o, r);
    }
    forall r | 0 <= r < h ensures t[o + h..o + h + h][r] == Back(x[r], y[r], up, less) {
      ElementOfLayer(s, m, k, j, q, less, o, h + r);
    }
  }

  /** One layer half-cleans every aligned block. */
  lemma LayerHalfCleans<T>(s: seq<T>, m: nat, k: nat, j: nat, q: nat, less: (T, T) -> bool)
    requires |s| == Pow2(m) && j < k <= m && Pow2(j + 1) * q + Pow2(j + 1) <= |s|
    ensures |Block(s, j + 1, q)| == 2 * Pow2(j)
    ensures var (x, y, up) := (Block(s, j + 1, q)[..Pow2(j)], Block(s, j + 1, q)[Pow2(j)..], Upwards(k, j + 1, q));
            Block(Layer(s, m, k, j, less), j + 1, q) == Fronts(x, y, up, less) + Backs(x, y, up, less)
  {
    hide *;
    var h, o, t := Pow2(j), Pow2(j + 1) * q, Layer(s, m, k, j, less);
    PowerPositive(j + 1);
    OffsetNonNegative(Pow2(j + 1), q);
    BlockIs(s, j + 1, q, o);
    BlockIs(t, j + 1, q, o);
    SliceHalves(s, o, h);
    SliceHalves(t, o, h);
    HalvesOfLayer(s, m, k, j, q, less, o, h);
  }

  lemma OffsetNonNegative(d: nat, q: nat)
    ensures d * q >= 0
  {}

  lemma LayerAtIs<T>(s: seq<T>, m: nat, k: nat, j: nat, i: nat, less: (T, T) -> bool)
    requires |s| == Pow2(m) && j < k <= m && i < |s|
    ensures Bit(i, j) ==> i >= Pow2(j) && Layer(s, m, k, j, less)[i] == Back(s[i - Pow2(j)], s[i], !Bit(i, k), less)
    ensures !Bit(i, j) ==>
              i + Pow2(j) < |s| && Layer(s, m, k, j, less)[i] == Front(s[i], s[i + Pow2(j)], !Bit(i, k), less)
  {
    hide Bit, Front, Back;
    PartnerInRange(i, j, m);
  }

  lemma UpwardsHalves(k: nat, j: nat, q: nat)
    requires j < k
    ensures Upwards(k, j, 2 * q) == Upwards(k, j + 1, q) == Upwards(k, j, 2 * q + 1)
  {
    hide Bit;
    PowerPositive(j + 1);
    BitsInBlock(q, j, k, Pow2(j));
    hide Pow2;
    assert Pow2(j) * (2 * q) == 2 * Pow2(j) * q == Pow2(j + 1) * q;
    assert Pow2(j) * (2 * q + 1) == Pow2(j + 1) * q + Pow2(j);
  }

  /** The layers of a stage merge every aligned block. */
  lemma {:induction false} LayersMerge<T>(s: seq<T>, m: nat, k: nat, j: nat, q: nat, less: (T, T) -> bool)
    requires |s| == Pow2(m) && j <= k <= m && Pow2(j) * q + Pow2(j) <= |s|
    ensures Block(Layers(s, m, k, j, less), j, q) == Merge(Block(s, j, q), j, Upwards(k, j, q), less)
    decreases j
  {
    hide *;
    if j == 0 {
      NoLayers(s, m, k, q, less);
    } else {
      var s1 := Layer(s, m, k, j - 1, less);
      var b := Block(s, j, q);
      var h := Pow2(j - 1);
      var up := Upwards(k, j, q);
      PowerPositive(j);
      LayerHalfCleans(s, m, k, j - 1, q, less);
      BlockHalves(s1, j - 1, q);
      LayersMerge(s1, m, k, j - 1, 2 * q, less);
      LayersMerge(s1, m, k, j - 1, 2 * q + 1, less);
      UpwardsHalves(k, j - 1, q);
      NextLayer(s, m, k, j, less);
      BlockHalves(Layers(s, m, k, j, less), j - 1, q);
      MergeStep(b, j, up, less, h);
      var f, g := Fronts(b[..h], b[h..], up, less), Backs(b[..h], b[h..], up, less);
      assert (f + g)[..h] == f && (f + g)[h..] == g;
    }
  }

  lemma NoLayers<T>(s: seq<T>, m: nat, k: nat, q: nat, less: (T, T) -> bool)
    requires |s| == Pow2(m) && k <= m && Pow2(0) * q + Pow2(0) <= |s|
    ensures Block(Layers(s, m, k, 0, less), 0, q) == Merge(Block(s, 0, q), 0, Upwards(k, 0, q), less)
  {}

  lemma NextLayer<T>(s: seq<T>, m: nat, k: nat, j: nat, less: (T, T) -> bool)
    requires |s| == Pow2(m) && 0 < j <= k <= m
    ensures Layers(s, m, k, j, less) == Layers(Layer(s, m, k, j - 1, less), m, k, j - 1, less)
  {
    hide Layer;
  }

  lemma UpwardsOwn(k: nat, q: nat)
    ensures Upwards(k, k, q) == (q % 2 == 0)
  {
    DivisionIs(Pow2(k) * q, Pow2(k), q, 0);
    hide Pow2;
  }

  /** After `k` stages every aligned block of size `Pow2(k)` is the recursive sort of its
      input, alternating direction. */
  lemma {:induction false} StagesSort<T>(s: seq<T>, m: nat, k: nat, q: nat, up: bool, less: (T, T) -> bool)
    requires |s| == Pow2(m) && k <= m && Pow2(k) * q + Pow2(k) <= |s| && up == (q % 2 == 0)
    ensures Block(Stages(s, m, k, less), k, q) == BitonicSort(Block(s, k, q), k, up, less)
    decreases k
  {
    hide *;
    if k == 0 {
      NoStages(s, m, q, up, less);
    } else {
      NextStage(s, m, k, less);
      BlockHalves(s, k - 1, q);
      StagesSort(s, m, k - 1, 2 * q, true, less);
      StagesSort(s, m, k - 1, 2 * q + 1, false, less);
      StageOfHalves(Stages(s, m, k - 1, less), s, m, k, q, up, less);
    }
  }

  /** A stage sorts a block whose halves are sorted in opposite directions. */
  lemma StageOfHalves<T>(before: seq<T>, s: seq<T>, m: nat, k: nat, q: nat, up: bool, less: (T, T) -> bool)
    requires |before| == |s| == Pow2(m) && 0 < k <= m && Pow2(k) * q + Pow2(k) <= |s| && up == (q % 2 == 0)
    requires 0 <= Pow2(k - 1) * (2 * q) && Pow2(k - 1) * (2 * q) + Pow2(k - 1) <= |s|
         && Pow2(k - 1) * (2 * q + 1) + Pow2(k - 1) <= |s|
    requires Block(before, k - 1, 2 * q) == BitonicSort(Block(s, k - 1, 2 * q), k - 1, true, less)
    requires Block(before, k - 1, 2 * q + 1) == BitonicSort(Block(s, k - 1, 2 * q + 1), k - 1, false, less)
    ensures Block(Layers(before, m, k, k, less), k, q) == BitonicSort(Block(s, k, q), k, up, less)
  {
    hide *;
    BlockHalves(s, k - 1, q);
    BlockHalves(before, k - 1, q);
    LayersMerge(before, m, k, k, q, less);
    UpwardsOwn(k, q);
    SortStep(Block(s, k, q), k, up, less, Pow2(k - 1));
  }

  lemma NoStages<T>(s: seq<T>, m: nat, q: nat, up: bool, less: (T, T) -> bool)
    requires |s| == Pow2(m) && Pow2(0) * q + Pow2(0) <= |s|
    ensures Block(Stages(s, m, 0, less), 0, q) == BitonicSort(Block(s, 0, q), 0, up, less)
  {}

  lemma NextStage<T>(s: seq<T>, m: nat, k: nat, less: (T, T) -> bool)
    requires |s| == Pow2(m) && 0 < k <= m
    ensures Stages(s, m, k, less) == Layers(Stages(s, m, k - 1, less), m, k, k, less)
  {
    hide Layers;
  }

  /** The layered network is the recursive one. */
  lemma NetworkIsRecursive<T>(s: seq<T>, m: nat, less: (T, T) -> bool)
    requires |s| == Pow2(m)
    ensures Stages(s, m, m, less) == BitonicSort(s, m, true, less)
  {
    hide Stages, BitonicSort, Pow2;
    StagesSort(s, m, m, 0, true, less);
    assert Block(s, m, 0) == s && Block(Stages(s, m, m, less), m, 0) == Stages(s, m, m, less);
  }

  // ----------------------------------------------------------------------- it sorts

  /** A strict order that any two elements' classes are ranked by. */
  ghost predicate WeakOrder<T(!new)>(less: (T, T) -> bool) {
    && (forall a, b :: less(a, b) ==> !less(b, a))
    && (forall a, b, c :: !less(b, a) && !less(c, b) ==> !less(c, a))
  }

  ghost predicate NonDescending<T(!new)>(s: seq<T>, less: (T, T) -> bool) {
    forall i, j | 0 <= i < j < |s| :: !less(s[j], s[i])
  }

  /** `a` is at or above the threshold `t`. */
  function AtLeast<T>(t: T, less: (T, T) -> bool): T -> bool {
    (a: T) => !less(a, t)
  }

  lemma AtLeastIsThreshold<T(!new)>(t: T, less: (T, T) -> bool)
    requires WeakOrder(less)
    ensures Threshold(AtLeast(t, less), less)
  {
    var f := AtLeast(t, less);
    forall a, b
      ensures f(Lower(a, b, less)) == (f(a) && f(b))
      ensures f(Upper(a, b, less)) == (f(a) || f(b))
    {
      if less(a, b) {
        assert !less(b, a);
        assert !less(a, t) && !less(b, a) ==> !less(b, t);
      } else {
        assert !less(b, t) && !less(a, b) ==> !less(a, t);
      }
    }
  }

  /** For any number of inputs that is a power of two and any strict weak order, the network
      rearranges its input into non-descending order. */
  lemma NetworkSorts<T(!new)>(s: seq<T>, m: nat, less: (T, T) -> bool)
    requires |s| == Pow2(m) && WeakOrder(less)
    ensures multiset(Stages(s, m, m, less)) == multiset(s)
    ensures NonDescending(Stages(s, m, m, less), less)
  {
    hide Stages, BitonicSort, Pow2, WeakOrder;
    NetworkIsRecursive(s, m, less);
    SortPermutes(s, m, true, less);
    var r := Stages(s, m, m, less);
    forall i, j | 0 <= i < j < |r| ensures !less(r[j], r[i]) {
      var f := AtLeast(r[i], less);
      AtLeastIsThreshold(r[i], less);
      SortMaps(f, s, m, true, less);
      SortsBits(Map(f, s), m, true);
      assert Map(f, r)[i] ==> Map(f, r)[j];
      Irreflexive(r[i], less);
    }
  }

  lemma Irreflexive<T(!new)>(a: T, less: (T, T) -> bool)
    requires WeakOrder(less)
    ensures !less(a, a)
  {}

  // ------------------------------------------------------------------- equal elements

  /** Nothing is below anything else. */
  ghost predicate AllTied<T(!new)>(s: seq<T>, less: (T, T) -> bool) {
    forall a, b | a in s && b in s :: !less(a, b)
  }

  /** The fixed rearrangement of elements that are all equal for the order: every merge
      swaps all its pairs and so reverses its block. */
  function TieOrder<T>(s: seq<T>, k: nat): (r: seq<T>)
    requires |s| == Pow2(k)
    ensures |r| == |s|
    decreases k
  {
    if k == 0 then s
    else
      var h := Pow2(k - 1);
      Reverse(TieOrder(s[..h], k - 1) + TieOrder(s[h..], k - 1))
  }

  lemma {:induction false} MergeOfTies<T(!new)>(s: seq<T>, j: nat, up: bool, less: (T, T) -> bool)
    requires |s| == Pow2(j) && AllTied(s, less)
    ensures Merge(s, j, up, less) == Reverse(s)
    decreases j
  {
    hide Reverse, Fronts, Backs;
    if j == 0 {
      assert |s| == 1;
    } else {
      var h := Pow2(j - 1);
      var x, y := s[..h], s[h..];
      MergeStep(s, j, up, less, h);
      SwapsTies(x, y, up, less);
      MergeOfTies(y, j - 1, up, less);
      MergeOfTies(x, j - 1, up, less);
      hide Merge, Pow2;
      assert Reverse(y) + Reverse(x) == Reverse(s);
    }
  }

  lemma SwapsTies<T(!new)>(x: seq<T>, y: seq<T>, up: bool, less: (T, T) -> bool)
    requires |x| == |y| && AllTied(x + y, less)
    ensures Fronts(x, y, up, less) == y && Backs(x, y, up, less) == x
  {
    hide Fronts, Backs;
    forall i | 0 <= i < |x| ensures Front(x[i], y[i], up, less) == y[i] && Back(x[i], y[i], up, less) == x[i] {
      assert (x + y)[i] == x[i] && (x + y)[|x| + i] == y[i];
      assert x[i] in x + y && y[i] in x + y;
    }
  }

  lemma {:induction false} SortOfTies<T(!new)>(s: seq<T>, k: nat, up: bool, less: (T, T) -> bool)
    requires |s| == Pow2(k) && AllTied(s, less)
    ensures BitonicSort(s, k, up, less) == TieOrder(s, k)
    decreases k
  {
    hide Merge, Reverse, AllTied;
    if k > 0 {
      var h := Pow2(k - 1);
      SortStep(s, k, up, less, h);
      TiedHalves(s, h, less);
      SortOfTies(s[..h], k - 1, true, less);
      SortOfTies(s[h..], k - 1, false, less);
      var halves := TieOrder(s[..h], k - 1) + TieOrder(s[h..], k - 1);
      SortPermutes(s[..h], k - 1, true, less);
      SortPermutes(s[h..], k - 1, false, less);
      TiedRearranged(s, h, halves, less);
      MergeOfTies(halves, k, up, less);
    }
  }

  lemma TiedHalves<T(!new)>(s: seq<T>, h: nat, less: (T, T) -> bool)
    requires h <= |s| && AllTied(s, less)
    ensures AllTied(s[..h], less) && AllTied(s[h..], less)
  {}

  lemma TiedRearranged<T(!new)>(s: seq<T>, h: nat, t: seq<T>, less: (T, T) -> bool)
    requires h <= |t| == |s| && AllTied(s, less)
    requires multiset(t[..h]) == multiset(s[..h]) && multiset(t[h..]) == multiset(s[h..])
    ensures AllTied(t, less)
  {
    forall a | a in t ensures a in s {
      assert t == t[..h] + t[h..];
      if a in t[..h] {
        MultisetMember(t[..h], s[..h], a);
      } else {
        MultisetMember(t[h..], s[h..], a);
      }
    }
  }

  lemma NetworkOfTies<T(!new)>(s: seq<T>, m: nat, less: (T, T) -> bool)
    requires |s| == Pow2(m) && AllTied(s, less)
    ensures Stages(s, m, m, less) == TieOrder(s, m)
  {
    hide *;
    NetworkIsRecursive(s, m, less);
    SortOfTies(s, m, true, less);
  }

  lemma StagesPermute<T>(s: seq<T>, m: nat, less: (T, T) -> bool)
    requires |s| == Pow2(m)
    ensures multiset(Stages(s, m, m, less)) == multiset(s)
  {
    hide *;
    NetworkIsRecursive(s, m, less);
    SortPermutes(s, m, true, less);
  }

  // ------------------------------------------------------------- orders that agree here

  /** The two orders are one on the elements of `s`. */
  ghost predicate Agree<T(!new)>(s: seq<T>, less: (T, T) -> bool, other: (T, T) -> bool) {
    forall a, b | a in s && b in s :: less(a, b) == other(a, b)
  }

  lemma AgreePart<T(!new)>(s: seq<T>, t: seq<T>, less: (T, T) -> bool, other: (T, T) -> bool)
    requires Agree(s, less, other) && multiset(t) <= multiset(s)
    ensures Agree(t, less, other)
  {
    forall a | a in t ensures a in s {
      assert a in multiset(t);
    }
  }

  lemma AgreeHalves<T(!new)>(x: seq<T>, y: seq<T>, less: (T, T) -> bool, other: (T, T) -> bool)
    requires Agree(x + y, less, other)
    ensures Agree(x, less, other) && Agree(y, less, other)
  {
    ConcatMultiset(x, y);
    AgreePart(x + y, x, less, other);
    AgreePart(x + y, y, less, other);
  }

  lemma HalfCleanAgrees<T(!new)>(x: seq<T>, y: seq<T>, up: bool, less: (T, T) -> bool, other: (T, T) -> bool)
    requires |x| == |y| && Agree(x + y, less, other)
    ensures Fronts(x, y, up, less) == Fronts(x, y, up, other) && Backs(x, y, up, less) == Backs(x, y, up, other)
  {
    hide Fronts, Backs;
    forall i | 0 <= i < |x|
      ensures Front(x[i], y[i], up, less) == Front(x[i], y[i], up, other)
      ensures Back(x[i], y[i], up, less) == Back(x[i], y[i], up, other)
    {
      assert (x + y)[i] == x[i] && (x + y)[|x| + i] == y[i];
      assert x[i] in x + y && y[i] in x + y;
    }
  }

  lemma {:induction false} MergeAgrees<T(!new)>(s: seq<T>, j: nat, up: bool, less: (T, T) -> bool,
                                                other: (T, T) -> bool)
    requires |s| == Pow2(j) && Agree(s, less, other)
    ensures Merge(s, j, up, less) == Merge(s, j, up, other)
    decreases j
  {
    hide *;
    if j == 0 {
      NothingToDo(s, up, less);
      NothingToDo(s, up, other);
    } else {
      var h := Pow2(j - 1);
      MergeStep(s, j, up, less, h);
      MergeStep(s, j, up, other, h);
      var x, y := s[..h], s[h..];
      var a, b := Fronts(x, y, up, less), Backs(x, y, up, less);
      HalfCleanAgrees(x, y, up, less, other);
      HalfCleanPermutes(x, y, up, less);
      ConcatMultiset(x, y);
      ConcatMultiset(a, b);
      AgreePart(s, a + b, less, other);
      AgreeHalves(a, b, less, other);
      MergeAgrees(a, j - 1, up, less, other);
      MergeAgrees(b, j - 1, up, less, other);
    }
  }

  lemma {:induction false} SortAgrees<T(!new)>(s: seq<T>, k: nat, up: bool, less: (T, T) -> bool,
                                               other: (T, T) -> bool)
    requires |s| == Pow2(k) && Agree(s, less, other)
    ensures BitonicSort(s, k, up, less) == BitonicSort(s, k, up, other)
    decreases k
  {
    hide *;
    if k == 0 {
      NothingToDo(s, up, less);
      NothingToDo(s, up, other);
    } else {
      var h := Pow2(k - 1);
      SortStep(s, k, up, less, h);
      SortStep(s, k, up, other, h);
      AgreeHalves(s[..h], s[h..], less, other);
      SortAgrees(s[..h], k - 1, true, less, other);
      SortAgrees(s[h..], k - 1, false, less, other);
      var x, y := BitonicSort(s[..h], k - 1, true, less), BitonicSort(s[h..], k - 1, false, less);
      SortPermutes(s[..h], k - 1, true, less);
      SortPermutes(s[h..], k - 1, false, less);
      ConcatMultiset(x, y);
      ConcatMultiset(s[..h], s[h..]);
      AgreePart(s, x + y, less, other);
      MergeAgrees(x + y, k, up, less, other);
    }
  }

  /** The network cannot tell two orders apart that agree on its input. */
  lemma NetworkOfAgreeing<T(!new)>(s: seq<T>, m: nat, less: (T, T) -> bool, other: (T, T) -> bool)
    requires |s| == Pow2(m) && Agree(s, less, other)
    ensures Stages(s, m, m, less) == Stages(s, m, m, other)
  {
    hide *;
    NetworkIsRecursive(s, m, less);
    NetworkIsRecursive(s, m, other);
    SortAgrees(s, m, true, less, other);
  }

  // ------------------------------------------------------------- each layer rearranges

  lemma BlockPermutes<T>(s: seq<T>, m: nat, k: nat, j: nat, q: nat, less: (T, T) -> bool)
    requires |s| == Pow2(m) && j < k <= m && Pow2(j + 1) * q + Pow2(j + 1) <= |s|
    ensures multiset(Block(Layer(s, m, k, j, less), j + 1, q)) == multiset(Block(s, j + 1, q))
  {
    hide *;
    LayerHalfCleans(s, m, k, j, q, less);
    PowerPositive(j + 1);
    var b, up := Block(s, j + 1, q), Upwards(k, j + 1, q);
    var x, y := b[..Pow2(j)], b[Pow2(j)..];
    HalfCleanPermutes(x, y, up, less);
    ConcatMultiset(Fronts(x, y, up, less), Backs(x, y, up, less));
    ConcatMultiset(x, y);
    assert x + y == b;
  }

  lemma ExtendPermutation<T>(s: seq<T>, t: seq<T>, from: nat, d: nat)
    requires from + d <= |s| == |t|
    requires multiset(s[..from]) == multiset(t[..from]) && multiset(s[from..from + d]) == multiset(t[from..from + d])
    ensures multiset(s[..from + d]) == multiset(t[..from + d])
  {
    assert t[..from + d] == t[..from] + t[from..from + d] && s[..from + d] == s[..from] + s[from..from + d];
  }

  lemma Successive(d: nat, q: nat)
    requires q > 0
    ensures d * q == d * (q - 1) + d && 0 <= d * (q - 1)
  {}

  /** A layer rearranges: block by block, each half-cleaned in place. */
  lemma {:induction false} LayerPrefixPermutes<T>(s: seq<T>, m: nat, k: nat, j: nat, q: nat, to: nat,
                                                  less: (T, T) -> bool)
    requires |s| == Pow2(m) && j < k <= m && to == Pow2(j + 1) * q <= |s|
    ensures multiset(Layer(s, m, k, j, less)[..to]) == multiset(s[..to])
    decreases q
  {
    hide *;
    var t := Layer(s, m, k, j, less);
    if q > 0 {
      var d := Pow2(j + 1);
      Successive(d, q);
      var from := to - d;
      LayerPrefixPermutes(s, m, k, j, q - 1, from, less);
      BlockPermutes(s, m, k, j, q - 1, less);
      BlockIs(s, j + 1, q - 1, from);
      BlockIs(t, j + 1, q - 1, from);
      ExtendPermutation(s, t, from, d);
    } else {
      assert to == 0;
    }
  }

  lemma LayerPermutes<T>(s: seq<T>, m: nat, k: nat, j: nat, less: (T, T) -> bool)
    requires |s| == Pow2(m) && j < k <= m
    ensures multiset(Layer(s, m, k, j, less)) == multiset(s)
  {
    hide *;
    PowerSplits(j, m);
    PowerPositive(j + 1);
    var q := Pow2(m - (j + 1));
    LayerPrefixPermutes(s, m, k, j, q, |s|, less);
    assert s[..|s|] == s && Layer(s, m, k, j, less)[..|s|] == Layer(s, m, k, j, less);
  }
}
