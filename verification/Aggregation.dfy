/** Aggregating subcircuit proofs, in the exponent: twisting the per-proof equations, the
    cross terms, and the one inner product they reduce to. */
module Aggregation {
  import opened Field
  import opened Sequences
  import opened CpGroth16
  import Polynomial

  function FieldPower(s: F, n: nat): F {
    if n == 0 then 1 else Mul(FieldPower(s, n - 1), s)
  }

  /** `1, s, s^2, ...`; never empty, whatever `num` is. */
  method StructuredScalarPower(num: nat, s: F) returns (powers: seq<F>)
    ensures |powers| == if num == 0 then 1 else num
    ensures forall i | 0 <= i < |powers| :: powers[i] == FieldPower(s, i)
  {
    powers := [1];
    var i := 1;
    while i < num
      invariant |powers| == i
      invariant i == 1 || i <= num
      invariant forall k | 0 <= k < i :: powers[k] == FieldPower(s, k)
    {
      powers := powers + [Mul(powers[i - 1], s)];
      i := i + 1;
    }
  }

  function Powers(s: F, n: nat): (r: seq<F>)
    ensures |r| == n && forall i | 0 <= i < n :: r[i] == FieldPower(s, i)
  {
    if n == 0 then [] else Powers(s, n - 1) + [FieldPower(s, n - 1)]
  }

  /** Element by element scalar multiplication. */
  function ScalarPairing(gp: seq<Exponent>, scalars: seq<int>): (r: seq<Exponent>)
    requires |gp| == |scalars|
    ensures |r| == |gp| && forall i | 0 <= i < |r| :: r[i] == gp[i] * scalars[i]
  {
    if gp == [] then [] else ScalarPairing(gp[..|gp| - 1], scalars[..|gp| - 1]) + [gp[|gp| - 1] * scalars[|gp| - 1]]
  }

  /** `x0 + x1 * c1 + x2 * c2 + x3 * c3`, element by element. */
  function Combine(x0: seq<Exponent>, x1: seq<Exponent>, x2: seq<Exponent>, x3: seq<Exponent>, c1: int, c2: int,
                   c3: int): (r: seq<Exponent>)
    requires |x0| == |x1| == |x2| == |x3|
    ensures |r| == |x0| && forall i | 0 <= i < |r| :: r[i] == x0[i] + x1[i] * c1 + x2[i] * c2 + x3[i] * c3
  {
    if x0 == [] then []
    else
      var n := |x0| - 1;
      Combine(x0[..n], x1[..n], x2[..n], x3[..n], c1, c2, c3) + [x0[n] + x1[n] * c1 + x2[n] * c2 + x3[n] * c3]
  }

  // ------------------------------------------------------------------ inner products

  /** An inner product is linear in its second argument. */
  lemma {:induction false} DotCombine(y: seq<int>, x0: seq<int>, x1: seq<int>, x2: seq<int>, x3: seq<int>, c1: int,
                                      c2: int, c3: int)
    requires |y| == |x0| == |x1| == |x2| == |x3|
    ensures Dot(y, Combine(x0, x1, x2, x3, c1, c2, c3))
         == Dot(y, x0) + c1 * Dot(y, x1) + c2 * Dot(y, x2) + c3 * Dot(y, x3)
  {
    if y != [] {
      var n := |y| - 1;
      DotCombine(y[..n], x0[..n], x1[..n], x2[..n], x3[..n], c1, c2, c3);
      Distribute(y[n], x0[n], x1[n], x2[n], x3[n], c1, c2, c3);
      Collect(c1, Dot(y[..n], x1[..n]), y[n] * x1[n]);
      Collect(c2, Dot(y[..n], x2[..n]), y[n] * x2[n]);
      Collect(c3, Dot(y[..n], x3[..n]), y[n] * x3[n]);
    }
  }

  lemma Distribute(y: int, x0: int, x1: int, x2: int, x3: int, c1: int, c2: int, c3: int)
    ensures y * (x0 + x1 * c1 + x2 * c2 + x3 * c3) == y * x0 + c1 * (y * x1) + c2 * (y * x2) + c3 * (y * x3)
  {
    assert y * (x1 * c1) == c1 * (y * x1);
    assert y * (x2 * c2) == c2 * (y * x2);
    assert y * (x3 * c3) == c3 * (y * x3);
    assert y * (x0 + x1 * c1 + x2 * c2 + x3 * c3) == y * x0 + y * (x1 * c1) + y * (x2 * c2) + y * (x3 * c3);
  }

  lemma Collect(c: int, d: int, z: int)
    ensures c * (d + z) == c * d + c * z
  {}

  lemma {:induction false} DotCommutes(x: seq<int>, y: seq<int>)
    requires |x| == |y|
    ensures Dot(x, y) == Dot(y, x)
  {
    if x != [] {
      DotCommutes(x[..|x| - 1], y[..|y| - 1]);
    }
  }

  lemma PairingStep(x: seq<int>, w: seq<int>, n: nat)
    requires |x| == |w| == n + 1
    ensures ScalarPairing(x, w) == ScalarPairing(x[..n], w[..n]) + [x[n] * w[n]]
  {}

  lemma LastTerm(xs: seq<int>, x: int, w: seq<int>, n: nat)
    requires |xs| == n && |w| == n + 1
    ensures Dot(xs + [x], w) == Dot(xs, w[..n]) + x * w[n]
  {
    assert (xs + [x])[..n] == xs;
  }

  lemma Rotate(x: int, w: int, y: int)
    ensures (x * w) * y == (x * y) * w
  {}

  /** Scaling one side of an inner product element by element is scaling the other. */
  lemma {:induction false} DotScalars(x: seq<int>, w: seq<int>, y: seq<int>)
    requires |x| == |w| == |y|
    ensures Dot(ScalarPairing(x, w), y) == Dot(ScalarPairing(x, y), w)
    decreases |x|
  {
    hide *;
    if x == [] {
      NoTerms(x, w, y);
    } else {
      var n := |x| - 1;
      DotScalars(x[..n], w[..n], y[..n]);
      PairingStep(x, w, n);
      PairingStep(x, y, n);
      LastTerm(ScalarPairing(x[..n], w[..n]), x[n] * w[n], y, n);
      LastTerm(ScalarPairing(x[..n], y[..n]), x[n] * y[n], w, n);
      Rotate(x[n], w[n], y[n]);
    }
  }

  lemma NoTerms(x: seq<int>, w: seq<int>, y: seq<int>)
    requires x == w == y == []
    ensures Dot(ScalarPairing(x, w), y) == Dot(ScalarPairing(x, y), w)
  {}

  // ------------------------------------------------------------- the twisted equations

  /** The vectors the aggregator works on, one entry per proof. */
  datatype Batch = Batch(
    a: seq<Exponent>, b: seq<Exponent>, c: seq<Exponent>, d: seq<Exponent>, prepared: seq<Exponent>,
    alpha: seq<Exponent>, beta: seq<Exponent>, h: seq<Exponent>, delta0: seq<Exponent>, delta1: seq<Exponent>)

  predicate SameLength(v: Batch) {
    |v.a| == |v.b| == |v.c| == |v.d| == |v.prepared| == |v.alpha| == |v.beta| == |v.h| == |v.delta0| == |v.delta1|
  }

  /** By how much the pairing equation of proof `i` misses. */
  function Defect(v: Batch, i: nat): int
    requires SameLength(v) && i < |v.a|
  {
    v.a[i] * v.b[i] - (v.alpha[i] * v.beta[i] + v.prepared[i] * v.h[i] + v.d[i] * v.delta0[i] + v.c[i] * v.delta1[i])
  }

  predicate ProofHolds(v: Batch, i: nat)
    requires SameLength(v) && i < |v.a|
  {
    Cong(v.a[i] * v.b[i], v.alpha[i] * v.beta[i] + v.prepared[i] * v.h[i] + v.d[i] * v.delta0[i] + v.c[i] * v.delta1[i])
  }

  /** The equation over the twisted left-hand vectors, as the cross terms' diagonal. */
  predicate DiagonalHolds(v: Batch, twist: F)
    requires SameLength(v)
  {
    var w := Powers(twist, |v.a|);
    Cong(Dot(ScalarPairing(v.a, w), v.b),
         Dot(ScalarPairing(v.alpha, w), v.beta) + Dot(ScalarPairing(v.prepared, w), v.h)
           + Dot(ScalarPairing(v.d, w), v.delta0) + Dot(ScalarPairing(v.c, w), v.delta1))
  }

  function Defects(v: Batch, n: nat): (r: seq<F>)
    requires SameLength(v) && n <= |v.a|
    ensures |r| == n && forall i | 0 <= i < n :: r[i] == Red(Defect(v, i))
  {
    if n == 0 then [] else Defects(v, n - 1) + [Red(Defect(v, n - 1))]
  }

  /** The first `n` entries of every vector. */
  function Front(v: Batch, n: nat): (r: Batch)
    requires SameLength(v) && n <= |v.a|
    ensures SameLength(r) && |r.a| == n
  {
    Batch(v.a[..n], v.b[..n], v.c[..n], v.d[..n], v.prepared[..n], v.alpha[..n], v.beta[..n], v.h[..n],
          v.delta0[..n], v.delta1[..n])
  }

  /** What the twisted equation misses by. */
  function TwistedDefect(v: Batch, w: seq<int>): int
    requires SameLength(v) && |w| == |v.a|
  {
    Dot(ScalarPairing(v.a, w), v.b)
    - (Dot(ScalarPairing(v.alpha, w), v.beta) + Dot(ScalarPairing(v.prepared, w), v.h)
       + Dot(ScalarPairing(v.d, w), v.delta0) + Dot(ScalarPairing(v.c, w), v.delta1))
  }

  /** Twisting is linear: the whole misses by the twisted sum of the parts. */
  lemma {:induction false} TwistedDefectSum(v: Batch, w: seq<F>)
    requires SameLength(v) && |w| == |v.a|
    ensures Cong(TwistedDefect(v, w), Dot(Defects(v, |w|), w))
    decreases |w|
  {
    hide *;
    if w == [] {
      NoDefects(v, w);
    } else {
      var n := |w| - 1;
      TwistedDefectSum(Front(v, n), w[..n]);
      DefectsFront(v, n, n);
      LastDefect(v, w, n);
      CongRed(Defect(v, n));
      CongMul(Red(Defect(v, n)), Defect(v, n), w[n], w[n]) by { CongSelf(w[n]); }
      CongSwap(Red(Defect(v, n)) * w[n], Defect(v, n) * w[n]);
      CongAdd(TwistedDefect(Front(v, n), w[..n]), Dot(Defects(v, n), w[..n]), Defect(v, n) * w[n],
              Red(Defect(v, n)) * w[n]);
    }
  }

  lemma NoDefects(v: Batch, w: seq<F>)
    requires SameLength(v) && |w| == |v.a| == 0
    ensures Cong(TwistedDefect(v, w), Dot(Defects(v, |w|), w))
  {}

  lemma {:induction false} DefectsFront(v: Batch, n: nat, k: nat)
    requires SameLength(v) && k <= n <= |v.a|
    ensures Defects(Front(v, n), k) == Defects(v, k)
    decreases k
  {
    if k > 0 {
      DefectsFront(v, n, k - 1);
    }
  }

  lemma LastDefect(v: Batch, w: seq<F>, n: nat)
    requires SameLength(v) && |w| == |v.a| == n + 1
    ensures TwistedDefect(v, w) == TwistedDefect(Front(v, n), w[..n]) + Defect(v, n) * w[n]
    ensures Dot(Defects(v, |w|), w) == Dot(Defects(v, n), w[..n]) + Red(Defect(v, n)) * w[n]
  {
    hide Red, Dot, ScalarPairing, Defect;
    LastTwisted(v.a, w, v.b, n);
    LastTwisted(v.alpha, w, v.beta, n);
    LastTwisted(v.prepared, w, v.h, n);
    LastTwisted(v.d, w, v.delta0, n);
    LastTwisted(v.c, w, v.delta1, n);
    LastTerm(Defects(v, n), Red(Defect(v, n)), w, n);
    DefectTimes(v, n, w[n]);
  }

  lemma DefectTimes(v: Batch, i: nat, w: int)
    requires SameLength(v) && i < |v.a|
    ensures Defect(v, i) * w == (v.a[i] * v.b[i]) * w
      - ((v.alpha[i] * v.beta[i]) * w + (v.prepared[i] * v.h[i]) * w + (v.d[i] * v.delta0[i]) * w
         + (v.c[i] * v.delta1[i]) * w)
  {
    FiveTerms(v.a[i] * v.b[i], v.alpha[i] * v.beta[i], v.prepared[i] * v.h[i], v.d[i] * v.delta0[i],
              v.c[i] * v.delta1[i], w);
  }

  lemma FiveTerms(p: int, q: int, r: int, s: int, t: int, w: int)
    ensures (p - (q + r + s + t)) * w == p * w - (q * w + r * w + s * w + t * w)
  {}

  lemma LastTwisted(x: seq<int>, w: seq<int>, y: seq<int>, n: nat)
    requires |x| == |w| == |y| == n + 1
    ensures Dot(ScalarPairing(x, w), y) == Dot(ScalarPairing(x[..n], w[..n]), y[..n]) + (x[n] * y[n]) * w[n]
  {
    hide *;
    PairingStep(x, w, n);
    LastTerm(ScalarPairing(x[..n], w[..n]), x[n] * w[n], y, n);
    Rotate(x[n], w[n], y[n]);
  }

  // ------------------------------------------------------------------- both directions

  lemma {:induction false} DotIsEval(es: seq<F>, r: F, k: nat)
    ensures Cong(Dot(es, Shifted(r, k, |es|)), FieldPower(r, k) * Polynomial.Eval(es, r))
    decreases |es|
  {
    hide *;
    if es == [] {
      NothingToEval(es, r, k);
    } else {
      var w := Shifted(r, k, |es|);
      DotIsEval(es[1..], r, k + 1);
      FrontTerm(es, w);
      ShiftedTail(r, k, |es|);
      PowerStep(r, k);
      EvalUnfolds(es, r);
      EvalStep(es[0], FieldPower(r, k), FieldPower(r, k + 1), r, Polynomial.Eval(es[1..], r), Dot(es[1..], w[1..]));
    }
  }

  lemma NothingToEval(es: seq<F>, r: F, k: nat)
    requires es == []
    ensures Cong(Dot(es, Shifted(r, k, |es|)), FieldPower(r, k) * Polynomial.Eval(es, r))
  {}

  lemma EvalUnfolds(es: seq<F>, r: F)
    requires es != []
    ensures Polynomial.Eval(es, r) == Add(es[0], Mul(r, Polynomial.Eval(es[1..], r)))
  {}

  /** `n` successive powers from the `k`-th on. */
  function Shifted(r: F, k: nat, n: nat): (w: seq<F>)
    ensures |w| == n && forall i | 0 <= i < n :: w[i] == FieldPower(r, k + i)
  {
    if n == 0 then [] else Shifted(r, k, n - 1) + [FieldPower(r, k + n - 1)]
  }

  lemma ShiftedTail(r: F, k: nat, n: nat)
    requires n > 0
    ensures Shifted(r, k, n)[1..] == Shifted(r, k + 1, n - 1) && Shifted(r, k, n)[0] == FieldPower(r, k)
  {
    hide FieldPower;
    var a, b := Shifted(r, k, n)[1..], Shifted(r, k + 1, n - 1);
    forall i | 0 <= i < n - 1 ensures a[i] == b[i] {
      assert a[i] == Shifted(r, k, n)[i + 1];
      assert k + (i + 1) == (k + 1) + i;
    }
  }

  lemma FrontTerm(x: seq<int>, y: seq<int>)
    requires |x| == |y| > 0
    ensures Dot(x, y) == x[0] * y[0] + Dot(x[1..], y[1..])
  {
    assert x == [x[0]] + x[1..] && y == [y[0]] + y[1..];
    DotAppend([x[0]], [y[0]], x[1..], y[1..]);
    DotOne(x[0], y[0]);
  }

  lemma PowerStep(r: F, k: nat)
    ensures Cong(FieldPower(r, k + 1), FieldPower(r, k) * r)
  {
    CongRed(FieldPower(r, k) * r);
  }

  /** One Horner step against one more power. */
  lemma EvalStep(e: F, p: int, q: int, r: F, v: F, d: int)
    requires Cong(q, p * r) && Cong(d, q * v)
    ensures Cong(e * p + d, p * Add(e, Mul(r, v)))
  {
    hide Cong, Add, Mul;
    LiftMul(r, r, v, v);
    LiftAdd(e, e, Mul(r, v), r * v);
    HornerSplit(p, e, r, v);
    var horner := Add(e, Mul(r, v));
    CongMul(p, p, horner, e + r * v) by { CongSelf(p); }
    CongMul(q, p * r, v, v) by { CongSelf(v); }
    Chain(d, q * v, (p * r) * v);
    CongAdd(e * p, e * p, d, (p * r) * v) by { CongSelf(e * p); }
    CongSwap(p * horner, p * (e + r * v));
    Chain(e * p + d, p * (e + r * v), p * horner);
  }

  lemma HornerSplit(p: int, e: int, r: int, v: int)
    ensures p * (e + r * v) == e * p + (p * r) * v
  {}

  lemma CongSelf(x: int)
    ensures Cong(x, x)
  {}

  lemma Chain(x: int, y: int, z: int)
    requires Cong(x, y) && Cong(y, z)
    ensures Cong(x, z)
  {}

  lemma NonZeroPart(x: F)
    ensures Cong(x, 0) <==> x == 0
  {
    DivisionUnique(x, 0, x);
    DivisionUnique(0, 0, 0);
  }

  lemma ProofHoldsIff(v: Batch, i: nat)
    requires SameLength(v) && i < |v.a|
    ensures ProofHolds(v, i) <==> Red(Defect(v, i)) == 0
  {
    var x, y := v.a[i] * v.b[i], v.alpha[i] * v.beta[i] + v.prepared[i] * v.h[i] + v.d[i] * v.delta0[i]
         + v.c[i] * v.delta1[i];
    DifferenceVanishes(x, y);
  }

  lemma DifferenceVanishes(x: int, y: int)
    ensures Cong(x, y) <==> Red(x - y) == 0
  {
    CongRed(x - y);
    DivisionUnique(0, 0, 0);
    if Cong(x, y) {
      var k := MultipleOfCong(x, y);
      CongOfMultiple(x - y, 0, k);
    }
    if Red(x - y) == 0 {
      var k := MultipleOfCong(x - y, 0);
      CongOfMultiple(x, y, k);
    }
  }

  /** For a two-stage proof, the equation aggregated here is the one its verifier checks. */
  lemma VerifierEquation(pk: ProvingKey, proof: Proof, publicInputs: seq<F>)
    requires |proof.ds| == 1 && |pk.deltasH| == 2 && PreparedInputs(pk, publicInputs).Some?
    ensures Verify(pk, proof, publicInputs)
         == Some(Cong(proof.a * proof.b, pk.alphaG * pk.betaH + PreparedInputs(pk, publicInputs).value * pk.gammaH
                                         + proof.ds[0] * pk.deltasH[0] + proof.c * pk.deltasH[1]))
  {
    hide Dot, Scale, Cong;
    var ic := PreparedInputs(pk, publicInputs).value;
    PairingSum(proof.a, proof.b, ic, pk.gammaH, proof.ds, proof.c, pk.deltasH);
    assert pk.deltasH[..1] == [pk.deltasH[0]] && proof.ds == [proof.ds[0]];
    DotOne(proof.ds[0], pk.deltasH[0]);
    MoveOver(proof.a * proof.b, pk.alphaG * pk.betaH, ic * pk.gammaH + proof.ds[0] * pk.deltasH[0]
             + proof.c * pk.deltasH[1]);
  }

  lemma MoveOver(x: int, y: int, z: int)
    ensures Cong(x - z, y) <==> Cong(x, y + z)
  {
    DifferenceVanishes(x - z, y);
    DifferenceVanishes(x, y + z);
  }

  /** The twisted diagonal equation is a polynomial in the twist, whose coefficients are the
      proofs' defects, evaluated at zero. */
  lemma DiagonalIsEval(v: Batch, twist: F)
    requires SameLength(v)
    ensures DiagonalHolds(v, twist) <==> Polynomial.Eval(Defects(v, |v.a|), twist) == 0
  {
    hide *;
    var n := |v.a|;
    var w := Powers(twist, n);
    PowersAreShifted(twist, n);
    TwistedDefectSum(v, w);
    DotIsEval(Defects(v, n), twist, 0);
    DiagonalDifference(v, twist);
    var e := Polynomial.Eval(Defects(v, n), twist);
    ZerothPower(twist, e);
    SameVanishing(TwistedDefect(v, w), Dot(Defects(v, n), w), e);
  }

  lemma ZerothPower(r: F, e: int)
    ensures FieldPower(r, 0) * e == e
  {}

  lemma DiagonalDifference(v: Batch, twist: F)
    requires SameLength(v)
    ensures DiagonalHolds(v, twist) <==> Red(TwistedDefect(v, Powers(twist, |v.a|))) == 0
  {
    hide Dot, ScalarPairing, Red, Cong;
    var w := Powers(twist, |v.a|);
    DifferenceVanishes(Dot(ScalarPairing(v.a, w), v.b),
      Dot(ScalarPairing(v.alpha, w), v.beta) + Dot(ScalarPairing(v.prepared, w), v.h)
        + Dot(ScalarPairing(v.d, w), v.delta0) + Dot(ScalarPairing(v.c, w), v.delta1));
  }

  lemma SameVanishing(x: int, y: int, e: F)
    requires Cong(x, y) && Cong(y, e)
    ensures Red(x) == 0 <==> e == 0
  {
    Chain(x, y, e);
    NonZeroPart(e);
    CongRed(x);
    DivisionUnique(e, 0, e);
  }

  lemma PowersAreShifted(r: F, n: nat)
    ensures Powers(r, n) == Shifted(r, 0, n)
  {
    hide FieldPower;
  }

  /** If every per-proof equation holds, the twisted diagonal equation holds for every twist. */
  lemma TwistComplete(v: Batch, twist: F)
    requires SameLength(v) && forall i | 0 <= i < |v.a| :: ProofHolds(v, i)
    ensures DiagonalHolds(v, twist)
  {
    hide ProofHolds, DiagonalHolds, Defect;
    DiagonalIsEval(v, twist);
    var es := Defects(v, |v.a|);
    forall i | 0 <= i < |es| ensures es[i] == 0 {
      ProofHoldsIff(v, i);
    }
    EvalOfZeros(es, twist);
  }

  lemma {:induction false} EvalOfZeros(es: seq<F>, r: F)
    requires forall i | 0 <= i < |es| :: es[i] == 0
    ensures Polynomial.Eval(es, r) == 0
  {
    if es != [] {
      EvalOfZeros(es[1..], r);
      DivisionUnique(0, 0, 0);
    }
  }

  /** If some per-proof equation fails, fewer twists than proofs satisfy the diagonal one. */
  lemma TwistSound(v: Batch, i: nat, twists: set<F>)
    requires SameLength(v) && i < |v.a| && !ProofHolds(v, i)
    requires forall t | t in twists :: DiagonalHolds(v, t)
    ensures |twists| < |v.a|
  {
    hide ProofHolds, DiagonalHolds, Defect;
    var es := Defects(v, |v.a|);
    ProofHoldsIff(v, i);
    assert es[i] != 0;
    forall t | t in twists ensures Polynomial.Eval(es, t) == 0 {
      DiagonalIsEval(v, t);
    }
    Polynomial.RootBound(es, twists);
  }

  // ------------------------------------------------------------------- the one product

  /** All sixteen pairings of a twisted left-hand vector with a right-hand one. */
  function Cross(v: Batch, w: seq<int>, i: nat, j: nat): int
    requires SameLength(v) && |w| == |v.a| && i < 4 && j < 4
  {
    var left := if i == 0 then v.a else if i == 1 then v.prepared else if i == 2 then v.d else v.c;
    var right := if j == 0 then v.b else if j == 1 then v.h else if j == 2 then v.delta0 else v.delta1;
    Dot(ScalarPairing(left, w), right)
  }

  /** The equation that is checked is about the four pairings on the diagonal. */
  lemma DiagonalIsCross(v: Batch, twist: F)
    requires SameLength(v)
    ensures var w := Powers(twist, |v.a|);
            DiagonalHolds(v, twist)
            <==> Cong(Cross(v, w, 0, 0), Dot(ScalarPairing(v.alpha, w), v.beta)
                                         + Cross(v, w, 1, 1) + Cross(v, w, 2, 2) + Cross(v, w, 3, 3))
  {
    hide Dot, ScalarPairing, Powers, Cong;
  }

  /** `A + S*s + D*s^2 + C*s^3` and `B + H*t + delta0*t^2 + delta1*t^3`. */
  function LeftVector(v: Batch, s: F): seq<Exponent>
    requires SameLength(v)
  {
    Combine(v.a, v.prepared, v.d, v.c, s, Mul(s, s), Mul(Mul(s, s), s))
  }

  function RightVector(v: Batch, t: F): seq<Exponent>
    requires SameLength(v)
  {
    Combine(v.b, v.h, v.delta0, v.delta1, t, Mul(t, t), Mul(Mul(t, t), t))
  }

  /** `c` with the powers of `s`. */
  function WithPowers(c0: int, c1: int, c2: int, c3: int, s: F): int {
    c0 + s * c1 + Mul(s, s) * c2 + Mul(Mul(s, s), s) * c3
  }

  function CrossRow(v: Batch, w: seq<int>, i: nat, t: F): int
    requires SameLength(v) && |w| == |v.a| && i < 4
  {
    WithPowers(Cross(v, w, i, 0), Cross(v, w, i, 1), Cross(v, w, i, 2), Cross(v, w, i, 3), t)
  }

  lemma {:induction false} PairingOfCombine(x0: seq<int>, x1: seq<int>, x2: seq<int>, x3: seq<int>, c1: int, c2: int,
                                            c3: int, w: seq<int>)
    requires |x0| == |x1| == |x2| == |x3| == |w|
    ensures ScalarPairing(Combine(x0, x1, x2, x3, c1, c2, c3), w)
         == Combine(ScalarPairing(x0, w), ScalarPairing(x1, w), ScalarPairing(x2, w), ScalarPairing(x3, w), c1, c2, c3)
  {
    hide *;
    var l, r := ScalarPairing(Combine(x0, x1, x2, x3, c1, c2, c3), w),
                Combine(ScalarPairing(x0, w), ScalarPairing(x1, w), ScalarPairing(x2, w), ScalarPairing(x3, w), c1,
                        c2, c3);
    forall i | 0 <= i < |w| ensures l[i] == r[i] {
      ScaleCombined(x0[i], x1[i], x2[i], x3[i], c1, c2, c3, w[i]);
    }
  }

  lemma ScaleCombined(x0: int, x1: int, x2: int, x3: int, c1: int, c2: int, c3: int, w: int)
    ensures (x0 + x1 * c1 + x2 * c2 + x3 * c3) * w == x0 * w + (x1 * w) * c1 + (x2 * w) * c2 + (x3 * w) * c3
  {
    Distribute(w, x0, x1, x2, x3, c1, c2, c3);
    assert w * x1 == x1 * w && w * x2 == x2 * w && w * x3 == x3 * w;
  }

  /** The twisted inner product of the combined vectors is the sum of all cross terms, each
      with its powers of `s` and `t`. */
  lemma CombinedProduct(v: Batch, w: seq<int>, s: F, t: F)
    requires SameLength(v) && |w| == |v.a|
    ensures Dot(ScalarPairing(LeftVector(v, s), w), RightVector(v, t))
         == WithPowers(CrossRow(v, w, 0, t), CrossRow(v, w, 1, t), CrossRow(v, w, 2, t), CrossRow(v, w, 3, t), s)
  {
    hide Dot, ScalarPairing, Combine, Mul;
    var s2, s3, t2, t3 := Mul(s, s), Mul(Mul(s, s), s), Mul(t, t), Mul(Mul(t, t), t);
    var right := RightVector(v, t);
    PairingOfCombine(v.a, v.prepared, v.d, v.c, s, s2, s3, w);
    var x0, x1, x2, x3 := ScalarPairing(v.a, w), ScalarPairing(v.prepared, w), ScalarPairing(v.d, w),
         ScalarPairing(v.c, w);
    DotCommutes(Combine(x0, x1, x2, x3, s, s2, s3), right);
    DotCombine(right, x0, x1, x2, x3, s, s2, s3);
    RowOf(v, w, 0, t, x0);
    RowOf(v, w, 1, t, x1);
    RowOf(v, w, 2, t, x2);
    RowOf(v, w, 3, t, x3);
  }

  lemma RowOf(v: Batch, w: seq<int>, i: nat, t: F, x: seq<int>)
    requires SameLength(v) && |w| == |v.a| && i < 4
    requires x == ScalarPairing(if i == 0 then v.a else if i == 1 then v.prepared else if i == 2 then v.d else v.c, w)
    ensures Dot(RightVector(v, t), x) == CrossRow(v, w, i, t)
  {
    hide Dot, ScalarPairing, Combine, Mul;
    DotCommutes(RightVector(v, t), x);
    DotCombine(x, v.b, v.h, v.delta0, v.delta1, t, Mul(t, t), Mul(Mul(t, t), t));
  }
}
