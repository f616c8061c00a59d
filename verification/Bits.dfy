/** Bytes, little-endian numbers and their bits, and the `split` helper that cuts a vector
    into equal pieces. */
module Bits {
  import opened Sequences

  type Byte = x: int | 0 <= x < 256

  function Pow2(n: nat): (r: nat)
    ensures r > 0
  {
    if n == 0 then 1 else 2 * Pow2(n - 1)
  }

  /** The lowest `n` bits of `x`, least significant first. */
  function LeBits(x: nat, n: nat): (r: seq<bool>)
    ensures |r| == n
  {
    if n == 0 then [] else [x % 2 == 1] + LeBits(x / 2, n - 1)
  }

  /** The number whose bits are `bs`, least significant first. */
  function FromBits(bs: seq<bool>): (r: nat)
    ensures r < Pow2(|bs|)
  {
    if bs == [] then 0 else (if bs[0] then 1 else 0) + 2 * FromBits(bs[1..])
  }

  function LeValue(bytes: seq<Byte>): nat {
    if bytes == [] then 0 else bytes[0] + 256 * LeValue(bytes[1..])
  }

  /** The bits of a byte string, each byte least significant bit first. */
  function ByteBits(bytes: seq<Byte>): (r: seq<bool>)
    ensures |r| == 8 * |bytes|
  {
    if bytes == [] then [] else LeBits(bytes[0], 8) + ByteBits(bytes[1..])
  }

  lemma {:induction false} BitsRoundTrip(bs: seq<bool>)
    ensures LeBits(FromBits(bs), |bs|) == bs
  {
    if bs != [] {
      BitsRoundTrip(bs[1..]);
      assert bs == [bs[0]] + bs[1..];
    }
  }

  lemma {:induction false} NumberRoundTrip(x: nat, n: nat)
    requires x < Pow2(n)
    ensures FromBits(LeBits(x, n)) == x
  {
    if n > 0 {
      NumberRoundTrip(x / 2, n - 1);
    }
  }

  /** Peeling `k` low bits off a number built from a low part and a high part. */
  lemma {:induction false} LeBitsConcat(lo: nat, hi: nat, k: nat, n: nat)
    requires lo < Pow2(k)
    ensures LeBits(lo + Pow2(k) * hi, k + n) == LeBits(lo, k) + LeBits(hi, n)
  {
    if k == 0 {
      assert lo + Pow2(k) * hi == hi;
    } else {
      var x := lo + Pow2(k) * hi;
      assert Pow2(k) * hi == 2 * (Pow2(k - 1) * hi);
      assert x % 2 == lo % 2 && x / 2 == lo / 2 + Pow2(k - 1) * hi;
      LeBitsConcat(lo / 2, hi, k - 1, n);
    }
  }

  /** Reading a byte string as a number and taking its bits is taking the bytes' bits. */
  lemma {:induction false} LeValueBits(bytes: seq<Byte>)
    ensures LeBits(LeValue(bytes), 8 * |bytes|) == ByteBits(bytes)
  {
    if bytes != [] {
      LeValueBits(bytes[1..]);
      assert Pow2(8) == 256;
      LeBitsConcat(bytes[0], LeValue(bytes[1..]), 8, 8 * |bytes[1..]|);
    }
  }

  lemma {:induction false} LeValueBound(bytes: seq<Byte>)
    ensures LeValue(bytes) < Pow2(8 * |bytes|)
  {
    if bytes != [] {
      LeValueBound(bytes[1..]);
      Pow2Add(8, 8 * |bytes[1..]|);
      assert Pow2(8) == 256;
    }
  }

  /** Byte strings of one length are told apart by their numbers. */
  lemma {:induction false} LeValueInjective(a: seq<Byte>, b: seq<Byte>)
    requires |a| == |b| && LeValue(a) == LeValue(b)
    ensures a == b
  {
    if a != [] {
      LeValueInjective(a[1..], b[1..]);
      assert a == [a[0]] + a[1..] && b == [b[0]] + b[1..];
    }
  }

  lemma {:induction false} Pow2Add(a: nat, b: nat)
    ensures Pow2(a + b) == Pow2(a) * Pow2(b)
  {
    if a > 0 {
      Pow2Add(a - 1, b);
    }
  }

  lemma {:induction false} ByteBitsSlice(bytes: seq<Byte>, i: nat, j: nat)
    requires i <= j <= |bytes|
    ensures ByteBits(bytes[i..j]) == ByteBits(bytes)[8 * i..8 * j]
    decreases j
  {
    if i > 0 {
      ByteBitsSlice(bytes[1..], i - 1, j - 1);
      assert bytes[1..][i - 1..j - 1] == bytes[i..j];
      assert ByteBits(bytes)[8 * i..8 * j] == ByteBits(bytes[1..])[8 * (i - 1)..8 * (j - 1)];
    } else if j > 0 {
      ByteBitsSlice(bytes[1..], 0, j - 1);
      assert bytes[0..j] == [bytes[0]] + bytes[1..][0..j - 1];
      assert bytes[0..j][1..] == bytes[1..][0..j - 1];
      assert ByteBits(bytes)[0..8 * j] == LeBits(bytes[0], 8) + ByteBits(bytes[1..])[0..8 * (j - 1)];
    }
  }

  // ----------------------------------------------------------------------- split

  predicate ValidSplitFactor(factor: nat) { factor == 2 || factor == 4 || factor == 8 || factor == 16 }

  /** `k` rounds of cutting every piece at `|v| / 2`, then `|v| / 4`, and so on. */
  function Halve<T>(pieces: seq<seq<T>>, cut: nat): (r: seq<seq<T>>)
    ensures |r| == 2 * |pieces|
  {
    if pieces == [] then []
    else
      var n := |pieces| - 1;
      var at := if cut <= |pieces[n]| then cut else |pieces[n]|;
      Halve(pieces[..n], cut) + [pieces[n][..at], pieces[n][at..]]
  }

  method HalveAll<T>(res: seq<seq<T>>, length: nat) returns (temp: seq<seq<T>>)
    requires PiecesSized(res, length, false)
    ensures temp == Halve(res, length)
  {
    temp := [];
    for i := 0 to |res|
      invariant temp == Halve(res[..i], length)
    {
      assert res[..i + 1][..i] == res[..i];
      temp := temp + [res[i][..length], res[i][length..]];
    }
    assert res[..|res|] == res;
  }

  /** Cuts `v` into `factor` pieces by repeated halving. */
  method Split<T>(v: seq<T>, factor: nat) returns (r: Option<seq<seq<T>>>)
    ensures r.Some? <==> ValidSplitFactor(factor)
    ensures r.Some? ==> |r.value| == factor && Flatten(r.value) == v
    ensures r.Some? && |v| % factor == 0 ==>
              forall i | 0 <= i < factor :: |r.value[i]| == |v| / factor
  {
    if !ValidSplitFactor(factor) {
      return None;
    }
    var length: nat := |v|;
    var left := factor;
    var res := [v];
    FlattenOne(v);
    ghost var even := |v| % factor == 0;
    ghost var q := |v| / factor;
    ScaledStart(|v|, factor);
    while left != 1
      invariant Scaled(left, |res|, factor)
      invariant even ==> Scaled(left, q, length)
      invariant Flatten(res) == v && PiecesSized(res, length, even)
      decreases left
    {
      ScaledHalf(left, |res|, factor);
      ScaledHalfRight(left, q, length);
      HalveFlattens(res, length / 2);
      HalveSizes(res, length / 2, even);
      res := HalveAll(res, length / 2);
      length := length / 2;
      left := left / 2;
    }
    r := Some(res);
  }

  predicate PiecesSized<T>(pieces: seq<seq<T>>, length: nat, even: bool) {
    forall i | 0 <= i < |pieces| :: |pieces[i]| >= length && (even ==> |pieces[i]| == length)
  }

  lemma ScaledStart(n: nat, factor: nat)
    requires ValidSplitFactor(factor)
    ensures Scaled(factor, 1, factor)
    ensures n % factor == 0 ==> Scaled(factor, n / factor, n)
  {}

  lemma ScaledHalf(left: nat, x: nat, y: nat)
    requires left != 1 && Scaled(left, x, y)
    ensures Scaled(left / 2, 2 * x, y) && left / 2 < left
  {}

  lemma ScaledHalfRight(left: nat, x: nat, y: nat)
    requires left != 1
    ensures Scaled(left, x, y) ==> Scaled(left / 2, x, y / 2) && y % 2 == 0
  {}

  /** `left * x == y` for the powers of two a split goes through. */
  predicate Scaled(left: nat, x: nat, y: nat) {
    || (left == 1 && x == y)
    || (left == 2 && 2 * x == y)
    || (left == 4 && 4 * x == y)
    || (left == 8 && 8 * x == y)
    || (left == 16 && 16 * x == y)
  }

  lemma FlattenOne<T>(v: seq<T>)
    ensures Flatten([v]) == v
  {
    assert [v][..0] == [];
  }

  lemma {:induction false} HalveFlattens<T>(pieces: seq<seq<T>>, cut: nat)
    ensures Flatten(Halve(pieces, cut)) == Flatten(pieces)
  {
    if pieces != [] {
      var n := |pieces| - 1;
      HalveFlattens(pieces[..n], cut);
      var at := if cut <= |pieces[n]| then cut else |pieces[n]|;
      FlattenSnocTwo(Halve(pieces[..n], cut), pieces[n][..at], pieces[n][at..], pieces[n]);
    }
  }

  lemma FlattenSnocTwo<T>(ss: seq<seq<T>>, a: seq<T>, b: seq<T>, c: seq<T>)
    requires a + b == c
    ensures Flatten(ss + [a, b]) == Flatten(ss) + c
  {
    var tt := ss + [a, b];
    assert tt[..|tt| - 1] == ss + [a];
    FlattenSnoc(ss, a);
    assert Flatten(ss) + a + b == Flatten(ss) + (a + b);
  }

  lemma {:induction false} HalveSizes<T>(pieces: seq<seq<T>>, cut: nat, even: bool)
    requires PiecesSized(pieces, 2 * cut, even)
    ensures PiecesSized(Halve(pieces, cut), cut, even)
  {
    if pieces != [] {
      HalveSizes(pieces[..|pieces| - 1], cut, even);
    }
  }

  lemma Distribute(n: nat, m: nat)
    ensures n * (m + 1) == n * m + n
  {}

  lemma {:induction false} EqualPiecesLength<T>(pieces: seq<seq<T>>, n: nat)
    requires PiecesSized(pieces, n, true)
    ensures |Flatten(pieces)| == n * |pieces|
  {
    if pieces != [] {
      var m := |pieces| - 1;
      EqualPiecesLength(pieces[..m], n);
      Distribute(n, m);
    }
  }

  /** Equal pieces of a flattened whole are its consecutive slices. */
  lemma EqualPieces<T>(pieces: seq<seq<T>>, n: nat, i: nat)
    requires i < |pieces| && PiecesSized(pieces, n, true)
    ensures 0 <= n * i <= n * i + n <= |Flatten(pieces)|
    ensures pieces[i] == Flatten(pieces)[n * i..n * i + n]
  {
    EqualPiecesLength(pieces[..i], n);
    FlattenSlice(pieces, i);
  }
}
