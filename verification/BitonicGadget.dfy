/** The sorting gadget over table rows: zero padding to a power of two, the comparator
    network in place, truncation, and the gadget that checks sortedness. */
module BitonicGadget {
  import opened Field
  import opened Sequences
  import opened Bits
  import opened BitArithmetic
  import Net = BitonicNetwork

  type Row = seq<F>

  /** A key column; rows shorter than that are excluded wherever keys are read. */
  function Key(row: Row, idx: nat): F { if idx < |row| then row[idx] else 0 }

  /** Lexicographic comparison on the key columns, in the order they are given. */
  predicate RowLess(a: Row, b: Row, keys: seq<nat>) {
    keys != [] &&
    (Key(a, keys[0]) < Key(b, keys[0]) || (Key(a, keys[0]) == Key(b, keys[0]) && RowLess(a, b, keys[1..])))
  }

  function RowOrder(keys: seq<nat>): (Row, Row) -> bool {
    (a: Row, b: Row) => RowLess(a, b, keys)
  }

  predicate SameKeys(a: Row, b: Row, keys: seq<nat>) {
    forall k | k in keys :: Key(a, k) == Key(b, k)
  }

  lemma {:induction false} RowLessFacts(a: Row, b: Row, c: Row, keys: seq<nat>)
    ensures RowLess(a, b, keys) ==> !RowLess(b, a, keys)
    ensures !RowLess(b, a, keys) && !RowLess(c, b, keys) ==> !RowLess(c, a, keys)
  {
    if keys != [] {
      RowLessFacts(a, b, c, keys[1..]);
    }
  }

  lemma RowOrderIsWeak(keys: seq<nat>)
    ensures Net.WeakOrder(RowOrder(keys))
  {
    var less := RowOrder(keys);
    forall a: Row, b: Row ensures less(a, b) ==> !less(b, a) {
      RowLessFacts(a, b, a, keys);
    }
    forall a: Row, b: Row, c: Row ensures !less(b, a) && !less(c, b) ==> !less(c, a) {
      RowLessFacts(a, b, c, keys);
    }
  }

  // ---------------------------------------------------------------------- comparisons

  /** The comparison gadget asks both operands to be at most `(P - 1) / 2`. */
  predicate InRange(x: F) { 2 * x <= P - 1 }

  /** It then reads one bit: the lowest of the doubled difference. */
  predicate SmallerBit(a: F, b: F) {
    var d := Sub(a, b);
    Add(d, d) % 2 == 1
  }

  lemma OddField()
    requires P > 2
    ensures P % 2 == 1
  {}

  /** In range, that bit is the order of the two numbers. */
  lemma SmallerBitIsLess(a: F, b: F)
    requires InRange(a) && InRange(b)
    ensures SmallerBit(a, b) <==> a < b
  {
    hide Sub, Add;
    var d := Sub(a, b);
    if a < b {
      OddField();
      NegativeDifference(a, b);
      OddAbove(P + 2 * (a - b), a - b);
    } else {
      PositiveDifference(a, b);
    }
  }

  lemma OddAbove(x: int, k: int)
    requires x == P + 2 * k && P % 2 == 1
    ensures x % 2 == 1
  {}

  /** A smaller number in range leaves a difference above half of the field, which doubles to
      an odd number once the modulus is taken off. */
  lemma NegativeDifference(a: F, b: F)
    requires InRange(a) && InRange(b) && a < b
    ensures Add(Sub(a, b), Sub(a, b)) == P + 2 * (a - b)
  {
    DivisionUnique(a - b, -1, P + a - b);
    DivisionUnique((P + a - b) + (P + a - b), 1, P + 2 * (a - b));
  }

  lemma PositiveDifference(a: F, b: F)
    requires InRange(a) && InRange(b) && b <= a
    ensures Add(Sub(a, b), Sub(a, b)) == 2 * (a - b)
  {
    DivisionUnique(a - b, 0, a - b);
    DivisionUnique((a - b) + (a - b), 0, 2 * (a - b));
  }

  /** The range is half of the field: of any other two opposite elements exactly one is in it,
      so it cannot be any larger. */
  lemma HalfInRange(x: F)
    requires P > 2 && x != 0
    ensures InRange(x) <==> !InRange(P - x)
  {
    OddField();
  }

  /** Outside of the range the bit is wrong: 0 is smaller than the largest element. */
  lemma OutOfRangeBit()
    requires P > 2
    ensures 0 < P - 1 && !SmallerBit(0, P - 1)
  {
    DivisionUnique(0 - (P - 1), -1, 1);
    DivisionUnique(1 + 1, 0, 2);
  }

  /** The lexicographic comparison the gadget makes of those bits. */
  predicate GadgetLess(a: Row, b: Row, keys: seq<nat>) {
    keys != [] &&
    (SmallerBit(Key(a, keys[0]), Key(b, keys[0]))
     || (Key(a, keys[0]) == Key(b, keys[0]) && GadgetLess(a, b, keys[1..])))
  }

  function GadgetOrder(keys: seq<nat>): (Row, Row) -> bool {
    (a: Row, b: Row) => GadgetLess(a, b, keys)
  }

  predicate RowInRange(row: Row, keys: seq<nat>) {
    forall k | k in keys :: InRange(Key(row, k))
  }

  predicate AllInRange(rows: seq<Row>, keys: seq<nat>) {
    forall i | 0 <= i < |rows| :: RowInRange(rows[i], keys)
  }

  predicate ValidKeys(row: Row, keys: seq<nat>) {
    forall k | k in keys :: k < |row|
  }

  /** On rows in range it is the lexicographic order of the numbers. */
  lemma {:induction false} GadgetLessIsRowLess(a: Row, b: Row, keys: seq<nat>)
    requires RowInRange(a, keys) && RowInRange(b, keys)
    ensures GadgetLess(a, b, keys) <==> RowLess(a, b, keys)
  {
    if keys != [] {
      assert keys[0] in keys;
      SmallerBitIsLess(Key(a, keys[0]), Key(b, keys[0]));
      GadgetLessIsRowLess(a, b, keys[1..]);
    }
  }

  /** The comparison gadget's flags after some of the keys. */
  lemma {:induction false} OneMoreKey(a: Row, b: Row, keys: seq<nat>, n: nat)
    requires n < |keys|
    ensures GadgetLess(a, b, keys[..n + 1]) <==>
              GadgetLess(a, b, keys[..n])
              || (SameKeys(a, b, keys[..n]) && SmallerBit(Key(a, keys[n]), Key(b, keys[n])))
    decreases n
  {
    hide SmallerBit;
    if n > 0 {
      OneMoreKey(a, b, keys[1..], n - 1);
      assert keys[..n + 1][1..] == keys[1..][..n] && keys[..n][1..] == keys[1..][..n - 1];
      assert keys[..n] == [keys[0]] + keys[1..][..n - 1];
    }
  }

  lemma NoKeys(a: Row, b: Row)
    ensures !GadgetLess(a, b, []) && SameKeys(a, b, []) && RowInRange(a, []) && RowInRange(b, [])
  {}

  lemma SameOneMore(a: Row, b: Row, keys: seq<nat>, n: nat)
    requires n < |keys|
    ensures SameKeys(a, b, keys[..n + 1]) <==> SameKeys(a, b, keys[..n]) && Key(a, keys[n]) == Key(b, keys[n])
  {
    assert keys[..n + 1] == keys[..n] + [keys[n]];
    assert keys[n] in keys[..n + 1];
    assert forall k | k in keys[..n] :: k in keys[..n + 1];
  }

  lemma RangeOneMore(row: Row, keys: seq<nat>, n: nat)
    requires n < |keys|
    ensures RowInRange(row, keys[..n + 1]) <==> RowInRange(row, keys[..n]) && InRange(Key(row, keys[n]))
  {
    assert keys[..n + 1] == keys[..n] + [keys[n]];
    assert keys[n] in keys[..n + 1];
    assert forall k | k in keys[..n] :: k in keys[..n + 1];
  }

  method CompareRows(a: Row, b: Row, keys: seq<nat>) returns (less: bool, satisfied: bool)
    requires ValidKeys(a, keys) && ValidKeys(b, keys)
    ensures less == GadgetLess(a, b, keys)
    ensures satisfied <==> RowInRange(a, keys) && RowInRange(b, keys)
    ensures satisfied ==> less == RowLess(a, b, keys)
  {
    hide SmallerBit, GadgetLess, RowLess, SameKeys, RowInRange, InRange;
    var isEqual := true;
    less, satisfied := false, true;
    NoKeys(a, b);
    assert keys[..0] == [];
    for i := 0 to |keys|
      invariant less == GadgetLess(a, b, keys[..i])
      invariant isEqual == SameKeys(a, b, keys[..i])
      invariant satisfied <==> RowInRange(a, keys[..i]) && RowInRange(b, keys[..i])
    {
      OneMoreKey(a, b, keys, i);
      SameOneMore(a, b, keys, i);
      RangeOneMore(a, keys, i);
      RangeOneMore(b, keys, i);
      assert keys[i] in keys;
      satisfied := satisfied && InRange(a[keys[i]]) && InRange(b[keys[i]]);
      var aLtB := SmallerBit(a[keys[i]], b[keys[i]]);
      var aEqB := a[keys[i]] == b[keys[i]];
      var currentLt := isEqual && aLtB;
      less := less || currentLt;
      isEqual := isEqual && aEqB;
    }
    assert keys[..|keys|] == keys;
    if satisfied {
      GadgetLessIsRowLess(a, b, keys);
    }
  }

  lemma {:induction false} Trichotomy(a: Row, b: Row, keys: seq<nat>)
    ensures RowLess(a, b, keys) || SameKeys(a, b, keys) <==> !RowLess(b, a, keys)
  {
    if keys != [] {
      Trichotomy(a, b, keys[1..]);
      assert keys == [keys[0]] + keys[1..];
    }
  }

  method LessOrEqualRows(a: Row, b: Row, keys: seq<nat>) returns (le: bool, satisfied: bool)
    requires ValidKeys(a, keys) && ValidKeys(b, keys)
    ensures le == (GadgetLess(a, b, keys) || SameKeys(a, b, keys))
    ensures satisfied <==> RowInRange(a, keys) && RowInRange(b, keys)
    ensures satisfied ==> le == !RowLess(b, a, keys)
  {
    hide SmallerBit, GadgetLess, RowLess, SameKeys, RowInRange, InRange;
    var isEqual := true;
    var isLess := false;
    satisfied := true;
    NoKeys(a, b);
    assert keys[..0] == [];
    for i := 0 to |keys|
      invariant isLess == GadgetLess(a, b, keys[..i])
      invariant isEqual == SameKeys(a, b, keys[..i])
      invariant satisfied <==> RowInRange(a, keys[..i]) && RowInRange(b, keys[..i])
    {
      OneMoreKey(a, b, keys, i);
      SameOneMore(a, b, keys, i);
      RangeOneMore(a, keys, i);
      RangeOneMore(b, keys, i);
      assert keys[i] in keys;
      satisfied := satisfied && InRange(a[keys[i]]) && InRange(b[keys[i]]);
      var thisKeyLt := isEqual && SmallerBit(a[keys[i]], b[keys[i]]);
      isLess := isLess || thisKeyLt;
      isEqual := isEqual && a[keys[i]] == b[keys[i]];
    }
    assert keys[..|keys|] == keys;
    if satisfied {
      GadgetLessIsRowLess(a, b, keys);
      Trichotomy(a, b, keys);
    }
    le := isLess || isEqual;
  }

  // ------------------------------------------------------------------ one layer in place

  predicate Rectangular(rows: seq<Row>, keys: seq<nat>, width: nat) {
    && (forall k | k in keys :: k < width)
    && forall i | 0 <= i < |rows| :: |rows[i]| == width
  }

  /** Keeps two rows, or swaps them, column by column. */
  method SelectRows(keep: bool, x: Row, y: Row) returns (x': Row, y': Row)
    requires |x| == |y|
    ensures x' == (if keep then x else y) && y' == (if keep then y else x)
  {
    x', y' := [], [];
    for col := 0 to |x|
      invariant x' == (if keep then x else y)[..col]
      invariant y' == (if keep then y else x)[..col]
    {
      x' := x' + [if keep then x[col] else y[col]];
      y' := y' + [if keep then y[col] else x[col]];
    }
  }

  /** The smaller position of `i`'s pair. */
  function LowOf(i: nat, j: nat, m: nat): nat
    requires j < m && i < Pow2(m)
  {
    PartnerInRange(i, j, m);
    if Bit(i, j) then i - Pow2(j) else i
  }

  /** Pairs whose smaller position is below `i` are done. */
  ghost predicate LayerSoFar(was: seq<Row>, now: seq<Row>, m: nat, k: nat, j: nat, keys: seq<nat>, i: nat)
    requires |was| == |now| == Pow2(m) && j < k <= m
  {
    forall x | 0 <= x < |was| ::
      now[x] == if LowOf(x, j, m) < i then Net.LayerAt(was, m, k, j, x, GadgetOrder(keys)) else was[x]
  }

  ghost predicate CheckedSoFar(was: seq<Row>, m: nat, j: nat, keys: seq<nat>, i: nat, satisfied: bool)
    requires |was| == Pow2(m) && j < m
  {
    satisfied <==> forall x | 0 <= x < |was| && LowOf(x, j, m) < i :: RowInRange(was[x], keys)
  }

  /** Only `i` and its partner have `i` as the smaller position. */
  lemma WhoIsLow(i: nat, j: nat, m: nat, x: nat)
    requires j < m && i < Pow2(m) && x < Pow2(m)
    ensures LowOf(x, j, m) == i ==> !Bit(i, j) && (x == i || x == i + Pow2(j))
    ensures !Bit(i, j) ==> LowOf(i, j, m) == i && i + Pow2(j) < Pow2(m) && LowOf(i + Pow2(j), j, m) == i
  {
    hide Bit, Pow2;
    PartnerInRange(x, j, m);
    PartnerInRange(i, j, m);
  }

  lemma SkipPosition(was: seq<Row>, now: seq<Row>, m: nat, k: nat, j: nat, keys: seq<nat>, i: nat, satisfied: bool)
    requires |was| == |now| == Pow2(m) && j < k <= m && i < |was| && Bit(i, j)
    requires LayerSoFar(was, now, m, k, j, keys, i) && CheckedSoFar(was, m, j, keys, i, satisfied)
    ensures LayerSoFar(was, now, m, k, j, keys, i + 1) && CheckedSoFar(was, m, j, keys, i + 1, satisfied)
  {
    hide Bit, Pow2, Net.LayerAt, LowOf, RowInRange;
    forall x | 0 <= x < |was| ensures LowOf(x, j, m) < i <==> LowOf(x, j, m) < i + 1 {
      WhoIsLow(i, j, m, x);
    }
  }

  lemma PairDone(was: seq<Row>, now: seq<Row>, m: nat, k: nat, j: nat, keys: seq<nat>, i: nat, satisfied: bool)
    requires |was| == |now| == Pow2(m) && j < k <= m && i < |was| && !Bit(i, j)
    requires LayerSoFar(was, now, m, k, j, keys, i) && CheckedSoFar(was, m, j, keys, i, satisfied)
    ensures var (l, up, less) := (i + Pow2(j), !Bit(i, k), GadgetOrder(keys));
            && l < |was| && now[i] == was[i] && now[l] == was[l]
            && CheckedSoFar(was, m, j, keys, i + 1, satisfied && RowInRange(was[i], keys) && RowInRange(was[l], keys))
            && var swapped := now[i := Net.Front(was[i], was[l], up, less)][l := Net.Back(was[i], was[l], up, less)];
               LayerSoFar(was, swapped, m, k, j, keys, i + 1)
  {
    hide Pow2, Net.Front, Net.Back, RowInRange;
    var l := i + Pow2(j);
    WhoIsLow(i, j, m, i);
    SamePairDirection(i, j, k, m);
    PartnerInRange(i, j, m);
    hide Bit, LowOf;
    forall x | 0 <= x < |was| ensures LowOf(x, j, m) < i + 1 <==> LowOf(x, j, m) < i || x == i || x == l {
      WhoIsLow(i, j, m, x);
    }
  }

  /** Both ends of a pair have the same bit `k`. */
  lemma SamePairDirection(i: nat, j: nat, k: nat, m: nat)
    requires j < k <= m && i < Pow2(m) && !Bit(i, j)
    ensures Bit(i + Pow2(j), k) == Bit(i, k)
  {
    hide *;
    var q, r := Divide(i, 2 * Pow2(j));
    SameBlockDirection(q, r, i, j, k);
  }

  lemma Divide(i: nat, d: nat) returns (q: nat, r: nat)
    requires d > 0
    ensures i == d * q + r && r < d
  {
    q, r := i / d, i % d;
  }

  lemma SameBlockDirection(q: nat, r: nat, i: nat, j: nat, k: nat)
    requires j < k && r < 2 * Pow2(j) && i == 2 * Pow2(j) * q + r && !Bit(i, j)
    ensures Bit(i + Pow2(j), k) == Bit(i, k)
  {
    hide Bit, Pow2;
    BitsInBlock(q, j, k, r);
    BitsInBlock(q, j, k, r + Pow2(j));
  }

  lemma LayerDone(was: seq<Row>, now: seq<Row>, m: nat, k: nat, j: nat, keys: seq<nat>, satisfied: bool)
    requires |was| == |now| == Pow2(m) && j < k <= m
    requires LayerSoFar(was, now, m, k, j, keys, |was|) && CheckedSoFar(was, m, j, keys, |was|, satisfied)
    ensures now == Net.Layer(was, m, k, j, GadgetOrder(keys))
    ensures satisfied <==> AllInRange(was, keys)
  {
    forall x | 0 <= x < |was| ensures LowOf(x, j, m) < |was| {}
    hide LowOf, Net.LayerAt, RowInRange, Pow2;
  }

  /** All comparators of one layer, pair by pair, each pair in its stage's direction. */
  method LayerInPlace(current: array<Row>, m: nat, k: nat, j: nat, keys: seq<nat>, width: nat) returns (satisfied: bool)
    requires current.Length == Pow2(m) && j < k <= m && Rectangular(current[..], keys, width)
    modifies current
    ensures current[..] == Net.Layer(old(current[..]), m, k, j, GadgetOrder(keys))
    ensures satisfied <==> AllInRange(old(current[..]), keys)
  {
    hide Pow2, Bit, GadgetLess, RowInRange, LowOf, Net.LayerAt;
    ghost var was := current[..];
    satisfied := true;
    var i := 0;
    while i < current.Length
      invariant 0 <= i <= current.Length
      invariant LayerSoFar(was, current[..], m, k, j, keys, i)
      invariant CheckedSoFar(was, m, j, keys, i, satisfied)
    {
      if Bit(i, j) {
        SkipPosition(was, current[..], m, k, j, keys, i, satisfied);
      } else {
        PairDone(was, current[..], m, k, j, keys, i, satisfied);
        var l := i + Pow2(j);
        var keep, ok: bool;
        if !Bit(i, k) {
          keep, ok := CompareRows(current[i], current[l], keys);
        } else {
          keep, ok := CompareRows(current[l], current[i], keys);
        }
        satisfied := satisfied && ok;
        var rowI, rowL := SelectRows(keep, current[i], current[l]);
        current[i] := rowI;
        current[l] := rowL;
      }
      i := i + 1;
    }
    LayerDone(was, current[..], m, k, j, keys, satisfied);
  }

  // --------------------------------------------------------------------- the whole sort

  /** The least `m` with `n <= Pow2(m)`. */
  function Log2Up(n: nat): (m: nat)
    ensures n <= Pow2(m)
    ensures m > 0 ==> Pow2(m - 1) < n
  {
    if n <= 1 then 0 else 1 + Log2Up((n + 1) / 2)
  }

  function ZeroRow(width: nat): (r: Row)
    ensures |r| == width && forall i | 0 <= i < width :: r[i] == 0
  {
    if width == 0 then [] else ZeroRow(width - 1) + [0]
  }

  function ZeroRows(n: nat, width: nat): (r: seq<Row>)
    ensures |r| == n && forall i | 0 <= i < n :: r[i] == ZeroRow(width)
  {
    if n == 0 then [] else ZeroRows(n - 1, width) + [ZeroRow(width)]
  }

  /** The input filled up with zero rows to the next power of two. */
  function Padded(input: seq<Row>, width: nat): (r: seq<Row>)
    ensures |r| == Pow2(Log2Up(|input|))
  {
    input + ZeroRows(Pow2(Log2Up(|input|)) - |input|, width)
  }

  /** What the gadget outputs: the network's first rows. */
  function Sorted(input: seq<Row>, keys: seq<nat>, width: nat): (r: seq<Row>)
    ensures |r| == |input|
  {
    var m := Log2Up(|input|);
    Net.Stages(Padded(input, width), m, m, RowOrder(keys))[..|input|]
  }

  /** The same with the comparisons the gadget makes. */
  function GadgetSorted(input: seq<Row>, keys: seq<nat>, width: nat): (r: seq<Row>)
    ensures |r| == |input|
  {
    var m := Log2Up(|input|);
    Net.Stages(Padded(input, width), m, m, GadgetOrder(keys))[..|input|]
  }

  /** Whether rows stay rectangular and in range is a matter of which rows there are. */
  lemma SameRowsSameChecks(a: seq<Row>, b: seq<Row>, keys: seq<nat>, width: nat)
    requires multiset(a) == multiset(b) && Rectangular(a, keys, width)
    ensures Rectangular(b, keys, width)
    ensures AllInRange(a, keys) <==> AllInRange(b, keys)
  {
    hide RowInRange;
    forall i | 0 <= i < |b| ensures |b[i]| == width {
      assert b[i] in b;
      MultisetMember(a, b, b[i]);
    }
    if AllInRange(a, keys) {
      forall i | 0 <= i < |b| ensures RowInRange(b[i], keys) {
        assert b[i] in b;
        MultisetMember(a, b, b[i]);
      }
    }
    if AllInRange(b, keys) {
      forall i | 0 <= i < |a| ensures RowInRange(a[i], keys) {
        assert a[i] in a;
        MultisetMember(a, b, a[i]);
      }
    }
  }

  lemma NothingToSort(input: seq<Row>, keys: seq<nat>, width: nat)
    requires Pow2(Log2Up(|input|)) <= 1
    ensures Sorted(input, keys, width) == GadgetSorted(input, keys, width) == input && |input| <= 1
  {
  }

  lemma PaddedRectangular(input: seq<Row>, keys: seq<nat>, width: nat)
    requires Rectangular(input, keys, width)
    ensures Rectangular(Padded(input, width), keys, width)
  {}

  lemma PaddedInRange(input: seq<Row>, keys: seq<nat>, width: nat)
    requires Rectangular(input, keys, width)
    ensures AllInRange(Padded(input, width), keys) <==> AllInRange(input, keys)
  {
    var p := Padded(input, width);
    if AllInRange(input, keys) {
      forall i | 0 <= i < |p| ensures RowInRange(p[i], keys) {
        assert i < |input| ==> RowInRange(input[i], keys);
      }
    }
    if AllInRange(p, keys) {
      forall i | 0 <= i < |input| ensures RowInRange(input[i], keys) {
        assert RowInRange(p[i], keys);
      }
    }
  }

  /** With all keys in range, the gadget's comparisons sort as the numbers do. */
  lemma InRangeSorts(input: seq<Row>, keys: seq<nat>, width: nat)
    requires Rectangular(input, keys, width) && AllInRange(input, keys)
    ensures GadgetSorted(input, keys, width) == Sorted(input, keys, width)
  {
    hide Net.Stages, GadgetLess, RowLess, Pow2, Log2Up, Padded, RowInRange;
    PaddedInRange(input, keys, width);
    var padded := Padded(input, width);
    forall a, b | a in padded && b in padded ensures GadgetOrder(keys)(a, b) == RowOrder(keys)(a, b) {
      var i :| 0 <= i < |padded| && padded[i] == a;
      var j :| 0 <= j < |padded| && padded[j] == b;
      GadgetLessIsRowLess(a, b, keys);
    }
    Net.NetworkOfAgreeing(padded, Log2Up(|input|), GadgetOrder(keys), RowOrder(keys));
  }

  /** The sorting gadget; `satisfied` says whether its comparisons' constraints hold. */
  method Construct(input: seq<Row>, keys: seq<nat>, width: nat) returns (output: seq<Row>, satisfied: bool)
    requires Rectangular(input, keys, width)
    ensures output == GadgetSorted(input, keys, width)
    ensures satisfied <==> |input| <= 1 || AllInRange(input, keys)
    ensures satisfied ==> output == Sorted(input, keys, width)
  {
    var m := Log2Up(|input|);
    var padded := input + ZeroRows(Pow2(m) - |input|, width);
    satisfied := true;
    if Pow2(m) <= 1 {
      NothingToSort(input, keys, width);
      return input, true;
    }
    var current := new Row[|padded|](i requires 0 <= i < |padded| => padded[i]);
    assert current[..] == padded;
    PaddedRectangular(input, keys, width);
    PaddedInRange(input, keys, width);
    for k := 1 to m + 1
      invariant current[..] == Net.Stages(padded, m, k - 1, GadgetOrder(keys))
      invariant multiset(current[..]) == multiset(padded)
      invariant satisfied <==> k == 1 || AllInRange(padded, keys)
    {
      Net.NextStage(padded, m, k, GadgetOrder(keys));
      var ok := StageInPlace(current, m, k, keys, width, padded);
      satisfied := satisfied && ok;
    }
    output := current[..|input|];
    if satisfied {
      InRangeSorts(input, keys, width);
    }
  }

  /** Stage `k`: its layers from the widest to the narrowest. */
  method StageInPlace(current: array<Row>, m: nat, k: nat, keys: seq<nat>, width: nat, ghost padded: seq<Row>)
    returns (satisfied: bool)
    requires current.Length == Pow2(m) && 0 < k <= m
    requires multiset(current[..]) == multiset(padded) && Rectangular(padded, keys, width)
    modifies current
    ensures current[..] == Net.Layers(old(current[..]), m, k, k, GadgetOrder(keys))
    ensures multiset(current[..]) == multiset(padded)
    ensures satisfied <==> AllInRange(padded, keys)
  {
    hide Pow2, Net.Layer, GadgetOrder, AllInRange, Rectangular, Net.Layers;
    ghost var before, less := current[..], GadgetOrder(keys);
    satisfied := true;
    var j := k;
    while j > 0
      invariant 0 <= j <= k
      invariant Net.Layers(current[..], m, k, j, less) == Net.Layers(before, m, k, k, less)
      invariant multiset(current[..]) == multiset(padded)
      invariant satisfied <==> j == k || AllInRange(padded, keys)
    {
      SameRowsSameChecks(padded, current[..], keys, width);
      Net.NextLayer(current[..], m, k, j, less);
      Net.LayerPermutes(current[..], m, k, j - 1, less);
      j := j - 1;
      var ok := LayerInPlace(current, m, k, j, keys, width);
      satisfied := satisfied && ok;
    }
    NoMoreLayers(current[..], m, k, less);
  }

  lemma NoMoreLayers(s: seq<Row>, m: nat, k: nat, less: (Row, Row) -> bool)
    requires |s| == Pow2(m) && k <= m
    ensures Net.Layers(s, m, k, 0, less) == s
  {}

  // --------------------------------------------------------------------- what it means

  /** Whatever the number of rows, the output is in order. */
  lemma SortedIsSorted(input: seq<Row>, keys: seq<nat>, width: nat)
    ensures Net.NonDescending(Sorted(input, keys, width), RowOrder(keys))
  {
    hide Net.Stages, RowOrder, Padded;
    var m := Log2Up(|input|);
    RowOrderIsWeak(keys);
    Net.NetworkSorts(Padded(input, width), m, RowOrder(keys));
  }

  lemma {:induction false} Log2UpOfPower(m: nat)
    ensures Log2Up(Pow2(m)) == m
  {
    if m > 0 {
      Log2UpOfPower(m - 1);
      assert Pow2(m) == 2 * Pow2(m - 1) && (Pow2(m) + 1) / 2 == Pow2(m - 1);
    }
  }

  /** For a power of two many rows, the output is also a rearrangement of the input. */
  lemma PowerOfTwoIsPermutation(input: seq<Row>, keys: seq<nat>, width: nat, m: nat)
    requires |input| == Pow2(m)
    ensures multiset(Sorted(input, keys, width)) == multiset(input)
  {
    Log2UpOfPower(m);
    assert Padded(input, width) == input;
    hide Net.Stages, RowOrder, Padded, Pow2;
    RowOrderIsWeak(keys);
    Net.NetworkSorts(input, m, RowOrder(keys));
    var r := Net.Stages(input, m, m, RowOrder(keys));
    assert r[..|input|] == r;
  }

  predicate ZeroKeys(row: Row, keys: seq<nat>) {
    forall k | k in keys :: Key(row, k) == 0
  }

  predicate AllZeroKeys(rows: seq<Row>, keys: seq<nat>) {
    forall i | 0 <= i < |rows| :: ZeroKeys(rows[i], keys)
  }

  lemma {:induction false} ZeroIsLeast(row: Row, width: nat, keys: seq<nat>)
    ensures !ZeroKeys(row, keys) ==> RowLess(ZeroRow(width), row, keys)
  {
    if keys != [] {
      ZeroIsLeast(row, width, keys[1..]);
      assert keys == [keys[0]] + keys[1..];
    }
  }

  /** The rows of a padded network, kept and dropped ones. */
  ghost predicate CutOf(input: seq<Row>, all: seq<Row>, width: nat) {
    && |all| >= |input|
    && (forall row | row in input :: row in all)
    && (forall row | row in all :: row in input || row == ZeroRow(width))
    && (multiset(all[..|input|]) == multiset(input) <==> forall row | row in all[|input|..] :: row == ZeroRow(width))
  }

  lemma CutFacts(input: seq<Row>, zeros: seq<Row>, all: seq<Row>, width: nat)
    requires multiset(all) == multiset(input + zeros) && zeros == ZeroRows(|zeros|, width) && |all| == |input| + |zeros|
    ensures CutOf(input, all, width)
  {
    hide ZeroRow, ZeroRows;
    var n := |input|;
    forall row | row in input ensures row in all {
      assert row in input + zeros;
      MultisetMember(all, input + zeros, row);
    }
    forall row | row in all ensures row in input || row == ZeroRow(width) {
      MultisetMember(all, input + zeros, row);
      InZeroRows(|zeros|, width);
    }
    CutIffZero(input, zeros, all, width);
  }

  lemma InZeroRows(n: nat, width: nat)
    ensures forall row | row in ZeroRows(n, width) :: row == ZeroRow(width)
  {
    hide ZeroRow;
  }

  lemma CutIffZero(input: seq<Row>, zeros: seq<Row>, all: seq<Row>, width: nat)
    requires multiset(all) == multiset(input + zeros) && zeros == ZeroRows(|zeros|, width) && |all| == |input| + |zeros|
    ensures multiset(all[..|input|]) == multiset(input) <==> forall row | row in all[|input|..] :: row == ZeroRow(width)
  {
    hide *;
    var n := |input|;
    assert all == all[..n] + all[n..];
    Net.ConcatMultiset(all[..n], all[n..]);
    Net.ConcatMultiset(input, zeros);
    SumCancels(multiset(all[..n]), multiset(all[n..]), multiset(input), multiset(zeros));
    AreZeroRows(all[n..], width);
  }

  lemma AreZeroRows(rows: seq<Row>, width: nat)
    ensures multiset(rows) == multiset(ZeroRows(|rows|, width)) <==> forall row | row in rows :: row == ZeroRow(width)
  {
    hide ZeroRow;
    var zeros := ZeroRows(|rows|, width);
    if multiset(rows) == multiset(zeros) {
      forall row | row in rows ensures row == ZeroRow(width) {
        MultisetMember(rows, zeros, row);
      }
    }
    if forall row | row in rows :: row == ZeroRow(width) {
      assert forall i | 0 <= i < |rows| :: rows[i] in rows;
      assert rows == zeros;
    }
  }

  lemma SumCancels<T>(a: multiset<T>, b: multiset<T>, c: multiset<T>, d: multiset<T>)
    requires a + b == c + d
    ensures a == c <==> b == d
  {
    if a == c {
      assert b == (a + b) - a && d == (c + d) - c;
    }
    if b == d {
      assert a == (a + b) - b && c == (c + d) - d;
    }
  }

  /** The network's whole output on the padded input. */
  function Network(input: seq<Row>, keys: seq<nat>, width: nat): seq<Row> {
    Net.Stages(Padded(input, width), Log2Up(|input|), Log2Up(|input|), RowOrder(keys))
  }

  lemma NetworkFacts(input: seq<Row>, keys: seq<nat>, width: nat)
    ensures |Network(input, keys, width)| == |Padded(input, width)|
    ensures multiset(Network(input, keys, width)) == multiset(Padded(input, width))
    ensures Net.NonDescending(Network(input, keys, width), RowOrder(keys))
  {
    hide Net.NonDescending, RowOrder, Padded, Net.Stages, Pow2, Log2Up;
    RowOrderIsWeak(keys);
    Net.NetworkSorts(Padded(input, width), Log2Up(|input|), RowOrder(keys));
  }

  lemma KeptAndDropped(input: seq<Row>, keys: seq<nat>, width: nat)
    ensures var all := Network(input, keys, width);
            && CutOf(input, all, width) && Sorted(input, keys, width) == all[..|input|]
            && Net.NonDescending(all, RowOrder(keys))
  {
    hide *;
    NetworkFacts(input, keys, width);
    SortedIs(input, keys, width);
    CutFacts(input, ZeroRows(Pow2(Log2Up(|input|)) - |input|, width), Network(input, keys, width), width);
  }

  lemma SortedIs(input: seq<Row>, keys: seq<nat>, width: nat)
    ensures |input| <= Pow2(Log2Up(|input|))
         && Padded(input, width) == input + ZeroRows(Pow2(Log2Up(|input|)) - |input|, width)
    ensures |input| <= |Network(input, keys, width)|
         && Sorted(input, keys, width) == Network(input, keys, width)[..|input|]
  {
    hide Net.Stages, RowOrder, ZeroRows, Log2Up, Pow2;
  }

  /** The rows that are cut off when all sort keys are zero: the network then rearranges
      its rows in one fixed way, which moves the first half to the far end. */
  function Dropped(input: seq<Row>): seq<Row> {
    var m := Log2Up(|input|);
    if m == 0 then [] else Reverse(Net.TieOrder(input[..Pow2(m - 1)], m - 1))[|input| - Pow2(m - 1)..]
  }

  /** Any other number of rows is padded with zero rows and cut, which drops the largest
      rows: the output is a rearrangement of the input exactly when all sort keys are zero
      and the rows then dropped are zero rows themselves. */
  lemma TruncationLosesRows(input: seq<Row>, keys: seq<nat>, width: nat)
    requires |input| < Pow2(Log2Up(|input|))
    ensures multiset(Sorted(input, keys, width)) == multiset(input)
       <==> AllZeroKeys(input, keys) && forall row | row in Dropped(input) :: row == ZeroRow(width)
  {
    hide *;
    var all := Network(input, keys, width);
    FewerThanAll(input, keys, width);
    KeptAndDropped(input, keys, width);
    CutMeans(input, all, width);
    if forall row | row in all[|input|..] :: row == ZeroRow(width) {
      assert all[|input|..][|all| - 1 - |input|] == all[|all| - 1];
      assert all[|all| - 1] in all[|input|..];
      NothingAboveZero(input, all, keys, width);
    }
    if input == [] {
      NothingIn(keys);
    } else if AllZeroKeys(input, keys) {
      DroppedAreCut(input, keys, width);
    }
  }

  lemma CutMeans(input: seq<Row>, all: seq<Row>, width: nat)
    requires CutOf(input, all, width)
    ensures forall row | row in input :: row in all
    ensures input == [] ==> forall row | row in all[|input|..] :: row == ZeroRow(width)
    ensures multiset(all[..|input|]) == multiset(input) <==> forall row | row in all[|input|..] :: row == ZeroRow(width)
  {
    hide ZeroRow;
  }

  lemma NothingIn(keys: seq<nat>)
    ensures AllZeroKeys([], keys) && Dropped([]) == []
  {}

  lemma FewerThanAll(input: seq<Row>, keys: seq<nat>, width: nat)
    ensures |Network(input, keys, width)| == Pow2(Log2Up(|input|))
  {
    hide Net.Stages;
  }

  /** If the last of the sorted rows is a zero row, no row has a non-zero key. */
  lemma NothingAboveZero(input: seq<Row>, all: seq<Row>, keys: seq<nat>, width: nat)
    requires all != [] && all[|all| - 1] == ZeroRow(width) && Net.NonDescending(all, RowOrder(keys))
    requires forall row | row in input :: row in all
    ensures AllZeroKeys(input, keys)
  {
    hide ZeroKeys;
    forall i | 0 <= i < |input| ensures ZeroKeys(input[i], keys) {
      assert input[i] in input;
      var j :| 0 <= j < |all| && all[j] == input[i];
      ZeroIsLeast(input[i], width, keys);
      ZeroHasZeroKeys(width, keys);
      hide RowLess;
      assert j < |all| - 1 ==> !RowOrder(keys)(all[|all| - 1], all[j]);
    }
  }

  lemma ZeroHasZeroKeys(width: nat, keys: seq<nat>)
    ensures ZeroKeys(ZeroRow(width), keys)
  {}

  lemma {:induction false} ZeroKeysTie(a: Row, b: Row, keys: seq<nat>)
    requires ZeroKeys(a, keys) && ZeroKeys(b, keys)
    ensures !RowLess(a, b, keys)
  {
    if keys != [] {
      assert keys[0] in keys;
      ZeroKeysTie(a, b, keys[1..]);
    }
  }

  lemma PaddedTied(input: seq<Row>, keys: seq<nat>, width: nat)
    requires AllZeroKeys(input, keys)
    ensures Net.AllTied(Padded(input, width), RowOrder(keys))
  {
    hide RowLess, ZeroKeys;
    var padded := Padded(input, width);
    forall a | a in padded ensures ZeroKeys(a, keys) {
      ZeroHasZeroKeys(width, keys);
    }
    forall a, b | a in padded && b in padded ensures !RowOrder(keys)(a, b) {
      ZeroKeysTie(a, b, keys);
    }
  }

  lemma DroppedAreCut(input: seq<Row>, keys: seq<nat>, width: nat)
    requires input != [] && |input| < Pow2(Log2Up(|input|)) && AllZeroKeys(input, keys)
    ensures |input| <= |Network(input, keys, width)| && Network(input, keys, width)[|input|..] == Dropped(input)
  {
    hide *;
    var m := Log2Up(|input|);
    HalfIsFull(input, width);
    PaddedTied(input, keys, width);
    FewerThanAll(input, keys, width);
    NetworkIs(input, keys, width);
    Net.NetworkOfTies(Padded(input, width), m, RowOrder(keys));
    FarEnd(input, Padded(input, width), m);
    DroppedIs(input);
  }

  lemma NetworkIs(input: seq<Row>, keys: seq<nat>, width: nat)
    ensures |Padded(input, width)| == Pow2(Log2Up(|input|))
    ensures Network(input, keys, width)
         == Net.Stages(Padded(input, width), Log2Up(|input|), Log2Up(|input|), RowOrder(keys))
  {
    hide Net.Stages, Padded, RowOrder;
  }

  /** More than half of the padded rows are input rows. */
  lemma HalfIsFull(input: seq<Row>, width: nat)
    requires input != [] && |input| < Pow2(Log2Up(|input|))
    ensures var m := Log2Up(|input|);
            m > 0 && Pow2(m - 1) < |input| && Padded(input, width)[..Pow2(m - 1)] == input[..Pow2(m - 1)]
  {
    hide ZeroRows, Log2Up;
  }

  lemma DroppedIs(input: seq<Row>)
    requires Log2Up(|input|) > 0
    ensures var m := Log2Up(|input|);
            Dropped(input) == Reverse(Net.TieOrder(input[..Pow2(m - 1)], m - 1))[|input| - Pow2(m - 1)..]
  {
    hide Net.TieOrder, Reverse, Pow2;
  }

  lemma FarEnd(input: seq<Row>, padded: seq<Row>, m: nat)
    requires m > 0 && |padded| == Pow2(m) && Pow2(m - 1) < |input| < Pow2(m)
         && padded[..Pow2(m - 1)] == input[..Pow2(m - 1)]
    ensures Net.TieOrder(padded, m)[|input|..]
         == Reverse(Net.TieOrder(input[..Pow2(m - 1)], m - 1))[|input| - Pow2(m - 1)..]
  {
    var h := Pow2(m - 1);
    assert Pow2(m) == 2 * h;
    var low, high := Net.TieOrder(padded[..h], m - 1), Net.TieOrder(padded[h..], m - 1);
    assert Net.TieOrder(padded, m) == Reverse(low + high);
    hide Net.TieOrder, Reverse, Pow2;
    EndOfReverse(low, high);
    assert Reverse(low + high)[|input|..] == Reverse(low + high)[h..][|input| - h..];
  }

  lemma EndOfReverse<T>(a: seq<T>, b: seq<T>)
    ensures Reverse(a + b)[|b|..] == Reverse(a)
  {
    hide Reverse;
  }

  // ------------------------------------------------------------------- the sorted check

  /** The checking gadget. `None` on an empty table, where `n - 1` underflows. */
  method CheckSorted(values: seq<Row>, keys: seq<nat>, width: nat) returns (satisfied: Option<bool>)
    requires Rectangular(values, keys, width)
    ensures satisfied.None? <==> values == []
    ensures satisfied.Some? ==>
              (satisfied.value
               <==> Net.NonDescending(values, RowOrder(keys)) && (|values| <= 1 || AllInRange(values, keys)))
  {
    if values == [] {
      return None;
    }
    var ok := true;
    for i := 0 to |values| - 1
      invariant ok <==> Stepwise(values, keys, i) && (i == 0 || AllInRange(values[..i + 1], keys))
    {
      var le, inRange := LessOrEqualRows(values[i], values[i + 1], keys);
      StepwiseNext(values, keys, i);
      ok := ok && inRange && le;
    }
    StepwiseIsSorted(values, keys);
    assert values[..|values|] == values;
    satisfied := Some(ok);
  }

  /** The first `n` neighbouring pairs are in order. */
  predicate Stepwise(values: seq<Row>, keys: seq<nat>, n: nat)
    requires n < |values|
  {
    forall i | 0 <= i < n :: !RowLess(values[i + 1], values[i], keys)
  }

  lemma StepwiseNext(values: seq<Row>, keys: seq<nat>, n: nat)
    requires n + 1 < |values|
    ensures Stepwise(values, keys, n + 1) <==> Stepwise(values, keys, n) && !RowLess(values[n + 1], values[n], keys)
    ensures AllInRange(values[..n + 2], keys)
       <==> AllInRange(values[..n + 1], keys) && RowInRange(values[n], keys) && RowInRange(values[n + 1], keys)
    ensures n == 0 ==>
              (AllInRange(values[..n + 2], keys) <==> RowInRange(values[n], keys) && RowInRange(values[n + 1], keys))
  {
    hide RowLess, RowInRange;
    var a, b := values[..n + 1], values[..n + 2];
    assert b == a + [values[n + 1]] && a[n] == values[n];
    assert forall i | 0 <= i < |a| :: b[i] == a[i];
    if AllInRange(b, keys) {
      assert RowInRange(b[n], keys) && RowInRange(b[n + 1], keys);
    }
  }

  /** Neighbours in order means all pairs are. */
  lemma StepwiseIsSorted(values: seq<Row>, keys: seq<nat>)
    requires values != []
    ensures Stepwise(values, keys, |values| - 1) <==> Net.NonDescending(values, RowOrder(keys))
  {
    hide RowLess;
    if Stepwise(values, keys, |values| - 1) {
      forall i, j | 0 <= i < j < |values| ensures !RowOrder(keys)(values[j], values[i]) {
        Reach(values, keys, i, j);
      }
    }
    if Net.NonDescending(values, RowOrder(keys)) {
      forall i | 0 <= i < |values| - 1 ensures !RowLess(values[i + 1], values[i], keys) {
        assert !RowOrder(keys)(values[i + 1], values[i]);
      }
    }
  }

  lemma {:induction false} Reach(values: seq<Row>, keys: seq<nat>, i: nat, j: nat)
    requires i < j < |values| && Stepwise(values, keys, |values| - 1)
    ensures !RowLess(values[j], values[i], keys)
    decreases j
  {
    hide RowLess;
    assert !RowLess(values[j - 1 + 1], values[j - 1], keys);
    if i < j - 1 {
      Reach(values, keys, i, j - 1);
      RowLessFacts(values[i], values[j - 1], values[j], keys);
    }
  }

  /** Sorting then checking: accepted exactly when the sort keys are in the comparison range
      (and there is something to check). */
  method SortAndCheck(input: seq<Row>, keys: seq<nat>, width: nat) returns (output: seq<Row>, accepted: bool)
    requires Rectangular(input, keys, width) && input != []
    ensures accepted <==> |input| <= 1 || AllInRange(input, keys)
    ensures accepted ==> output == Sorted(input, keys, width) && Net.NonDescending(output, RowOrder(keys))
  {
    hide Net.NonDescending, RowOrder, AllInRange, Sorted, Rectangular;
    var satisfied: bool;
    output, satisfied := Construct(input, keys, width);
    SortedIsSorted(input, keys, width);
    OutputRows(input, keys, width);
    var checked := CheckSorted(output, keys, width);
    accepted := satisfied && checked.value;
  }

  /** Output rows are input rows or padding. */
  lemma OutputRows(input: seq<Row>, keys: seq<nat>, width: nat)
    requires Rectangular(input, keys, width)
    ensures Rectangular(GadgetSorted(input, keys, width), keys, width)
    ensures AllInRange(input, keys) ==> AllInRange(GadgetSorted(input, keys, width), keys)
  {
    hide Net.Stages, GadgetLess, Padded, Pow2, Log2Up, RowInRange;
    var padded, m := Padded(input, width), Log2Up(|input|);
    PaddedRectangular(input, keys, width);
    PaddedInRange(input, keys, width);
    Net.StagesPermute(padded, m, GadgetOrder(keys));
    SameRowsSameChecks(padded, Net.Stages(padded, m, m, GadgetOrder(keys)), keys, width);
  }
}
