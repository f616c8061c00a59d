/** Single bits of natural numbers: testing them, flipping them, and where they sit inside
    aligned blocks. */
module BitArithmetic {
  import opened Bits

  lemma PowerPositive(k: nat)
    requires k > 0
    ensures Pow2(k) == Pow2(k - 1) + Pow2(k - 1)
  {}

  /** Is the bit of weight `h` set in `i`? */
  predicate HasBit(i: nat, h: nat)
    requires h > 0
  {
    (i / h) % 2 == 1
  }

  function Bit(i: nat, j: nat): bool { HasBit(i, Pow2(j)) }

  lemma {:induction false} NotAbove(d: nat, q: nat, q': nat)
    ensures q < q' ==> d * q' >= d * q + d
    decreases q'
  {
    if q < q' {
      NotAbove(d, q, q' - 1);
      assert d * q' == d * (q' - 1) + d;
    }
  }

  lemma DivisionIs(x: nat, d: nat, q: nat, r: nat)
    requires 0 <= r < d && x == d * q + r
    ensures x / d == q
  {
    var q' := x / d;
    assert d * q + r == d * q' + x % d;
    NotAbove(d, q, q');
    NotAbove(d, q', q);
  }

  lemma LowBit(q: nat, h: nat, r: nat)
    requires r < 2 * h
    ensures HasBit(2 * h * q + r, h) <==> r >= h
  {
    var i := 2 * h * q + r;
    if r < h {
      assert i == h * (2 * q) + r;
      DivisionIs(i, h, 2 * q, r);
    } else {
      assert i == h * (2 * q + 1) + (r - h);
      DivisionIs(i, h, 2 * q + 1, r - h);
    }
  }

  lemma HighBit(q: nat, d: nat, c: nat, r: nat)
    requires r < d && c > 0
    ensures d * c > 0 && (d * q + r) / (d * c) == q / c == (d * q) / (d * c)
  {
    var t, u := q / c, q % c;
    assert q == c * t + u;
    MulThree(d, c, t, u);
    NotAbove(d, u, c);
    DivisionIs(d * q + r, d * c, t, d * u + r);
    DivisionIs(d * q, d * c, t, d * u);
  }

  lemma MulThree(d: nat, c: nat, t: nat, u: nat)
    ensures d * (c * t + u) == (d * c) * t + d * u
  {}

  /** Bits of a position inside block `q` of size `2h`, `h` being `Pow2(j)`. */
  lemma BitsInBlock(q: nat, j: nat, k: nat, r: nat)
    requires j < k && r < 2 * Pow2(j)
    ensures Bit(2 * Pow2(j) * q + r, j) <==> r >= Pow2(j)
    ensures Bit(2 * Pow2(j) * q + r, k) <==> Bit(2 * Pow2(j) * q, k)
  {
    LowBit(q, Pow2(j), r);
    var c := Pow2(k - (j + 1));
    PowerSplits(j, k);
    hide Pow2;
    HighBit(q, 2 * Pow2(j), c, r);
  }

  lemma PowerSplits(j: nat, k: nat)
    requires j < k
    ensures Pow2(k) == 2 * Pow2(j) * Pow2(k - (j + 1))
  {
    Pow2Add(j + 1, k - (j + 1));
    assert Pow2(j + 1) == 2 * Pow2(j);
  }

  lemma FlipDown(i: nat, h: nat)
    requires h > 0 && HasBit(i, h)
    ensures i >= h && !HasBit(i - h, h)
  {
    var q, r := i / h, i % h;
    assert i == h * q + r;
    assert h * q == h + h * (q - 1);
    DivisionIs(i - h, h, q - 1, r);
  }

  lemma QuotientBelow(i: nat, h: nat, n: nat, q: nat, r: nat)
    requires r < h && i == h * q + r && i < h * n
    ensures q < n
  {
    NotAbove(h, n, q);
  }

  lemma FlipUp(i: nat, h: nat, c: nat)
    requires h > 0 && !HasBit(i, h) && i < 2 * h * c
    ensures i + h < 2 * h * c && HasBit(i + h, h)
  {
    var q, r, n := i / h, i % h, 2 * c;
    assert i == h * q + r && q % 2 == 0;
    hide HasBit;
    assert 2 * h * c == h * n;
    QuotientBelow(i, h, n, q, r);
    assert q + 1 < n;
    NotAbove(h, q + 1, n);
    NextMultiple(i, h, q, r);
  }

  lemma NextMultiple(i: nat, h: nat, q: nat, r: nat)
    requires r < h && i == h * q + r && q % 2 == 0
    ensures i + h == h * (q + 1) + r && HasBit(i + h, h)
  {
    assert h * (q + 1) == h * q + h;
    DivisionIs(i + h, h, q + 1, r);
  }

  /** Where `i` and `i` with bit `j` flipped lie, in an array of `Pow2(m)`. */
  lemma PartnerInRange(i: nat, j: nat, m: nat)
    requires j < m && i < Pow2(m)
    ensures Bit(i, j) ==> i >= Pow2(j) && !Bit(i - Pow2(j), j)
    ensures !Bit(i, j) ==> i + Pow2(j) < Pow2(m) && Bit(i + Pow2(j), j)
  {
    PowerSplits(j, m);
    hide Pow2, HasBit;
    if Bit(i, j) {
      FlipDown(i, Pow2(j));
    } else {
      FlipUp(i, Pow2(j), Pow2(m - (j + 1)));
    }
  }
}
