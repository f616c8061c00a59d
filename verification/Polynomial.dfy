/** Polynomials over the field as coefficient lists, lowest degree first. The running
    evaluation of a trace is the value at one point of the monic polynomial whose roots are
    the encoded entries; this module shows how much that polynomial, and its value at
    enough points, says about the trace. */
module Polynomial {
  import opened Field
  import opened Sequences
  import opened Transcript

  function Eval(c: seq<F>, x: F): F {
    if c == [] then 0 else Add(c[0], Mul(x, Eval(c[1..], x)))
  }

  function Coef(c: seq<F>, i: int): F {
    if 0 <= i < |c| then c[i] else 0
  }

  /** `carry + (X - e) * c`. */
  function Shift(c: seq<F>, e: F, carry: F): (r: seq<F>)
    ensures |r| == |c| + 1
  {
    if c == [] then [carry] else [Sub(carry, Mul(e, c[0]))] + Shift(c[1..], e, c[0])
  }

  function TimesLinear(c: seq<F>, e: F): (r: seq<F>)
    ensures |r| == |c| + 1
  {
    Shift(c, e, 0)
  }

  /** The product of `X - e` over the elements of `es`. */
  function RootPoly(es: seq<F>): (r: seq<F>)
    ensures |r| == |es| + 1
  {
    if es == [] then [1] else TimesLinear(RootPoly(es[..|es| - 1]), es[|es| - 1])
  }

  function LinFactor(x: F): F -> F { (e: F) => Sub(x, e) }

  // ------------------------------------------------------------ multiplication laws

  lemma {:induction false} ShiftCoef(c: seq<F>, e: F, carry: F, i: nat)
    requires i <= |c|
    ensures Shift(c, e, carry)[i] == Sub(if i == 0 then carry else c[i - 1], Mul(e, Coef(c, i)))
  {
    if c == [] {
      SubMulZero(carry, e);
    } else if i > 0 {
      ShiftCoef(c[1..], e, c[0], i - 1);
    }
  }

  lemma SubMulZero(a: F, e: F)
    ensures Mul(e, 0) == 0 && Mul(0, e) == 0 && Sub(a, Mul(e, 0)) == a && Add(a, 0) == a && Add(0, a) == a
  {
    DivisionUnique(0, 0, 0);
    DivisionUnique(a, 0, a);
  }

  lemma SubCancel(a: F, b: F, s: F)
    requires Sub(a, s) == Sub(b, s)
    ensures a == b
  {
    CongRed(a - s);
    CongRed(b - s);
    CongAdd(a - s, b - s, s, s);
    CongIsEqual(a, b);
  }

  lemma HornerStep(carry: F, e: F, c0: F, x: F, v: F)
    ensures Add(Sub(carry, Mul(e, c0)), Mul(x, Add(c0, Mul(Sub(x, e), v))))
         == Add(carry, Mul(Sub(x, e), Add(c0, Mul(x, v))))
  {
    LiftMul(e, e, c0, c0);
    LiftSub(carry, carry, Mul(e, c0), e * c0);
    LiftSub(x, x, e, e);
    LiftMul(Sub(x, e), x - e, v, v);
    LiftAdd(c0, c0, Mul(Sub(x, e), v), (x - e) * v);
    LiftMul(x, x, Add(c0, Mul(Sub(x, e), v)), c0 + (x - e) * v);
    LiftAdd(Sub(carry, Mul(e, c0)), carry - e * c0,
            Mul(x, Add(c0, Mul(Sub(x, e), v))), x * (c0 + (x - e) * v));
    LiftMul(x, x, v, v);
    LiftAdd(c0, c0, Mul(x, v), x * v);
    LiftMul(Sub(x, e), x - e, Add(c0, Mul(x, v)), c0 + x * v);
    LiftAdd(carry, carry, Mul(Sub(x, e), Add(c0, Mul(x, v))), (x - e) * (c0 + x * v));
    HornerIdentity(carry, e, c0, x, v);
    CongIsEqual(Add(Sub(carry, Mul(e, c0)), Mul(x, Add(c0, Mul(Sub(x, e), v)))),
                Add(carry, Mul(Sub(x, e), Add(c0, Mul(x, v)))));
  }

  lemma HornerIdentity(k: int, e: int, c: int, x: int, v: int)
    ensures (k - e * c) + x * (c + (x - e) * v) == k + (x - e) * (c + x * v)
  {
    var w := (x - e) * v;
    assert (x - e) * (c + x * v) == x * c - e * c + (x - e) * (x * v);
    assert (x - e) * (x * v) == x * w;
    assert x * (c + w) == x * c + x * w;
  }

  lemma {:induction false} EvalShift(c: seq<F>, e: F, carry: F, x: F)
    ensures Eval(Shift(c, e, carry), x) == Add(carry, Mul(Sub(x, e), Eval(c, x)))
  {
    if c == [] {
      SubMulZero(carry, x);
      SubMulZero(carry, Sub(x, e));
      assert Shift(c, e, carry)[1..] == [];
    } else {
      EvalShift(c[1..], e, c[0], x);
      assert Shift(c, e, carry)[1..] == Shift(c[1..], e, c[0]);
      HornerStep(carry, e, c[0], x, Eval(c[1..], x));
    }
  }

  lemma EvalTimesLinear(c: seq<F>, e: F, x: F)
    ensures Eval(TimesLinear(c, e), x) == Mul(Sub(x, e), Eval(c, x))
  {
    EvalShift(c, e, 0, x);
    SubMulZero(Mul(Sub(x, e), Eval(c, x)), 0);
  }

  /** The running evaluation is the value of the root polynomial. */
  lemma {:induction false} EvalRootPoly(es: seq<F>, x: F)
    ensures Eval(RootPoly(es), x) == RunEval(1, es, LinFactor(x))
  {
    if es == [] {
      SubMulZero(1, x);
      assert [1][1..] == [];
    } else {
      var n := |es| - 1;
      EvalRootPoly(es[..n], x);
      EvalTimesLinear(RootPoly(es[..n]), es[n], x);
      MulComm(Sub(x, es[n]), Eval(RootPoly(es[..n]), x));
    }
  }

  lemma {:induction false} TimesLinearInjective(c: seq<F>, d: seq<F>, e: F, m: nat)
    requires |c| == |d| && TimesLinear(c, e) == TimesLinear(d, e) && m <= |c|
    ensures c[m..] == d[m..]
    decreases |c| - m
  {
    if m < |c| {
      TimesLinearInjective(c, d, e, m + 1);
      ShiftCoef(c, e, 0, m + 1);
      ShiftCoef(d, e, 0, m + 1);
      assert m + 1 < |c| ==> c[m + 1..][0] == d[m + 1..][0];
      assert Coef(c, m + 1) == Coef(d, m + 1);
      SubCancel(c[m], d[m], Mul(e, Coef(c, m + 1)));
      assert c[m..] == [c[m]] + c[m + 1..];
      assert d[m..] == [d[m]] + d[m + 1..];
    }
  }

  lemma CrossCoef(p: F, q: F, r: F, d: F, e: F)
    ensures Sub(Sub(p, Mul(d, q)), Mul(e, Sub(q, Mul(d, r))))
         == Sub(Sub(p, Mul(e, q)), Mul(d, Sub(q, Mul(e, r))))
  {
    CrossCoefLift(p, q, r, d, e);
    CrossCoefLift(p, q, r, e, d);
    CrossIdentity(p, q, r, d, e);
    CongIsEqual(Sub(Sub(p, Mul(d, q)), Mul(e, Sub(q, Mul(d, r)))),
                Sub(Sub(p, Mul(e, q)), Mul(d, Sub(q, Mul(e, r)))));
  }

  lemma CrossIdentity(p: int, q: int, r: int, d: int, e: int)
    ensures (p - d * q) - e * (q - d * r) == (p - e * q) - d * (q - e * r)
  {
    assert e * (q - d * r) == e * q - e * (d * r);
    assert d * (q - e * r) == d * q - d * (e * r);
    assert e * (d * r) == d * (e * r);
  }

  lemma CrossCoefLift(p: F, q: F, r: F, d: F, e: F)
    ensures Cong(Sub(Sub(p, Mul(d, q)), Mul(e, Sub(q, Mul(d, r)))), (p - d * q) - e * (q - d * r))
  {
    LiftMul(d, d, q, q);
    LiftSub(p, p, Mul(d, q), d * q);
    LiftMul(d, d, r, r);
    LiftSub(q, q, Mul(d, r), d * r);
    LiftMul(e, e, Sub(q, Mul(d, r)), q - d * r);
    LiftSub(Sub(p, Mul(d, q)), p - d * q, Mul(e, Sub(q, Mul(d, r))), e * (q - d * r));
  }

  lemma TimesLinearCoef(c: seq<F>, e: F, i: int)
    ensures Coef(TimesLinear(c, e), i) == Sub(Coef(c, i - 1), Mul(e, Coef(c, i)))
  {
    SubMulZero(0, e);
    if 0 <= i <= |c| {
      ShiftCoef(c, e, 0, i);
    }
  }

  /** Linear factors commute. */
  lemma TimesLinearCommutes(c: seq<F>, d: F, e: F)
    ensures TimesLinear(TimesLinear(c, d), e) == TimesLinear(TimesLinear(c, e), d)
  {
    var de, ed := TimesLinear(TimesLinear(c, d), e), TimesLinear(TimesLinear(c, e), d);
    forall i | 0 <= i < |de| ensures de[i] == ed[i] {
      TimesLinearCoef(TimesLinear(c, d), e, i);
      TimesLinearCoef(TimesLinear(c, e), d, i);
      TimesLinearCoef(c, d, i - 1);
      TimesLinearCoef(c, d, i);
      TimesLinearCoef(c, e, i - 1);
      TimesLinearCoef(c, e, i);
      CrossCoef(Coef(c, i - 2), Coef(c, i - 1), Coef(c, i), d, e);
      assert de[i] == Coef(de, i) && ed[i] == Coef(ed, i);
    }
  }

  lemma {:induction false} RootPolyMoveLast(es: seq<F>, j: nat)
    requires j < |es|
    ensures RootPoly(es) == TimesLinear(RootPoly(es[..j] + es[j + 1..]), es[j])
  {
    var n := |es| - 1;
    var rest := es[..j] + es[j + 1..];
    if j == n {
      assert rest == es[..n];
    } else {
      RootPolyMoveLast(es[..n], j);
      assert rest[..|rest| - 1] == es[..n][..j] + es[..n][j + 1..];
      assert rest[|rest| - 1] == es[n];
      TimesLinearCommutes(RootPoly(rest[..|rest| - 1]), es[j], es[n]);
    }
  }

  // ---------------------------------------------- the polynomial determines the trace

  /** Two lists have the same root polynomial exactly when they are rearrangements of each
      other. */
  lemma {:induction false} RootPolyDeterminesRoots(a: seq<F>, b: seq<F>)
    ensures RootPoly(a) == RootPoly(b) <==> multiset(a) == multiset(b)
  {
    if multiset(a) == multiset(b) {
      SameRootsSamePoly(a, b);
    }
    if RootPoly(a) == RootPoly(b) {
      SamePolySameRoots(a, b);
    }
  }

  lemma {:induction false} SameRootsSamePoly(a: seq<F>, b: seq<F>)
    requires multiset(a) == multiset(b)
    ensures RootPoly(a) == RootPoly(b)
  {
    MultisetLength(a, b);
    if a != [] {
      var n := |a| - 1;
      MultisetMember(a, b, a[n]);
      var j :| 0 <= j < |b| && b[j] == a[n];
      MultisetRemoveAt(b, j);
      assert a == a[..n] + [a[n]];
      SameRootsSamePoly(a[..n], b[..j] + b[j + 1..]);
      RootPolyMoveLast(b, j);
    }
  }

  /** A root of one polynomial is a root of an equal one. */
  lemma SharedRoot(a: seq<F>, b: seq<F>) returns (j: nat)
    requires a != [] && RootPoly(a) == RootPoly(b)
    ensures j < |b| && b[j] == a[|a| - 1]
  {
    var e := a[|a| - 1];
    var front := RootPoly(a[..|a| - 1]);
    EvalTimesLinear(front, e, e);
    SubZero(e, e);
    SubMulZero(0, Eval(front, e));
    EvalRootPoly(b, e);
    RunEvalZero(1, b, LinFactor(e));
    j :| 0 <= j < |b| && LinFactor(e)(b[j]) == 0;
    SubZero(e, b[j]);
  }

  lemma {:induction false} SamePolySameRoots(a: seq<F>, b: seq<F>)
    requires RootPoly(a) == RootPoly(b)
    ensures multiset(a) == multiset(b)
  {
    assert |RootPoly(a)| == |a| + 1 && |RootPoly(b)| == |b| + 1;
    if a != [] {
      var n := |a| - 1;
      var j := SharedRoot(a, b);
      var b' := b[..j] + b[j + 1..];
      RootPolyMoveLast(b, j);
      TimesLinearInjective(RootPoly(a[..n]), RootPoly(b'), a[n], 0);
      SamePolySameRoots(a[..n], b');
      MultisetRestoreAt(a, b, j);
    } else {
      assert b == [];
    }
  }

  // ----------------------------------------------------------------- counting roots

  ghost predicate NonZero(c: seq<F>) { exists i :: 0 <= i < |c| && c[i] != 0 }

  function Quotient(c: seq<F>, r: F): seq<F>
    requires c != []
    decreases c
  {
    if |c| == 1 then [] else [Eval(c[1..], r)] + Quotient(c[1..], r)
  }

  lemma {:induction false} QuotientTimesLinear(c: seq<F>, r: F)
    requires c != []
    ensures |Quotient(c, r)| == |c| - 1
    ensures Shift(Quotient(c, r), r, Eval(c, r)) == c
    decreases |c|
  {
    var v := Eval(c[1..], r);
    AddSubCancel(c[0], Mul(r, v));
    if |c| == 1 {
      SubMulZero(c[0], r);
      assert c[1..] == [];
    } else {
      QuotientTimesLinear(c[1..], r);
      ShiftCons(v, Quotient(c[1..], r), r, Eval(c, r));
      assert c == [c[0]] + c[1..];
    }
  }

  lemma ShiftCons(v: F, q: seq<F>, e: F, carry: F)
    ensures Shift([v] + q, e, carry) == [Sub(carry, Mul(e, v))] + Shift(q, e, v)
  {
    assert ([v] + q)[1..] == q;
  }

  lemma AddSubCancel(a: F, b: F)
    ensures Sub(Add(a, b), b) == a
  {
    LiftAdd(a, a, b, b);
    LiftSub(Add(a, b), a + b, b, b);
    CongIsEqual(Sub(Add(a, b), b), a);
  }

  lemma {:induction false} ShiftOfZeros(c: seq<F>, e: F, i: nat)
    requires !NonZero(c) && i <= |c|
    ensures TimesLinear(c, e)[i] == 0
  {
    ShiftCoef(c, e, 0, i);
    SubMulZero(0, e);
  }

  /** A non-zero polynomial has fewer roots than coefficients. */
  lemma {:induction false} RootBound(c: seq<F>, roots: set<F>)
    requires NonZero(c) && forall r | r in roots :: Eval(c, r) == 0
    ensures |roots| < |c|
    decreases |c|
  {
    if roots != {} {
      var r :| r in roots;
      var q := Quotient(c, r);
      QuotientTimesLinear(c, r);
      assert TimesLinear(q, r) == c;
      if !NonZero(q) {
        var i :| 0 <= i < |c| && c[i] != 0;
        ShiftOfZeros(q, r, i);
        assert false;
      }
      forall s | s in roots - {r} ensures Eval(q, s) == 0 {
        EvalTimesLinear(q, r, s);
        NoZeroDivisors(Sub(s, r), Eval(q, s));
        SubZero(s, r);
      }
      RootBound(q, roots - {r});
    }
  }

  function Diff(c: seq<F>, d: seq<F>): (r: seq<F>)
    requires |c| == |d|
    ensures |r| == |c| && forall i | 0 <= i < |c| :: r[i] == Sub(c[i], d[i])
  {
    if c == [] then [] else [Sub(c[0], d[0])] + Diff(c[1..], d[1..])
  }

  lemma DiffIdentity(a: int, b: int, x: int, v: int, w: int)
    ensures (a - b) + x * (v - w) == (a + x * v) - (b + x * w)
  {}

  lemma DiffStep(a: F, b: F, x: F, v: F, w: F)
    ensures Add(Sub(a, b), Mul(x, Sub(v, w))) == Sub(Add(a, Mul(x, v)), Add(b, Mul(x, w)))
  {
    LiftSub(a, a, b, b);
    LiftSub(v, v, w, w);
    LiftMul(x, x, Sub(v, w), v - w);
    LiftAdd(Sub(a, b), a - b, Mul(x, Sub(v, w)), x * (v - w));
    LiftMul(x, x, v, v);
    LiftMul(x, x, w, w);
    LiftAdd(a, a, Mul(x, v), x * v);
    LiftAdd(b, b, Mul(x, w), x * w);
    LiftSub(Add(a, Mul(x, v)), a + x * v, Add(b, Mul(x, w)), b + x * w);
    DiffIdentity(a, b, x, v, w);
    CongIsEqual(Add(Sub(a, b), Mul(x, Sub(v, w))), Sub(Add(a, Mul(x, v)), Add(b, Mul(x, w))));
  }

  lemma {:induction false} EvalDiff(c: seq<F>, d: seq<F>, x: F)
    requires |c| == |d|
    ensures Eval(Diff(c, d), x) == Sub(Eval(c, x), Eval(d, x))
  {
    if c == [] {
      SubZero(0, 0);
    } else {
      EvalDiff(c[1..], d[1..], x);
      assert Diff(c, d)[1..] == Diff(c[1..], d[1..]);
      DiffStep(c[0], d[0], x, Eval(c[1..], x), Eval(d[1..], x));
    }
  }

  lemma {:induction false} EvalDropZero(c: seq<F>, x: F)
    requires c != [] && c[|c| - 1] == 0
    ensures Eval(c, x) == Eval(c[..|c| - 1], x)
  {
    SubMulZero(0, x);
    if |c| > 1 {
      EvalDropZero(c[1..], x);
      assert c[1..][..|c| - 2] == c[..|c| - 1][1..];
    } else {
      assert c[1..] == [] && c[..0] == [];
    }
  }

  lemma {:induction false} RootPolyMonic(es: seq<F>)
    ensures RootPoly(es)[|es|] == 1
  {
    if es != [] {
      var n := |es| - 1;
      RootPolyMonic(es[..n]);
      ShiftCoef(RootPoly(es[..n]), es[n], 0, n + 1);
      SubMulZero(1, es[n]);
    }
  }

  /** The difference of two root polynomials of one degree, without its vanishing top
      coefficient. */
  function LowDiff(a: seq<F>, b: seq<F>): (r: seq<F>)
    requires |a| == |b|
    ensures |r| == |a|
  {
    Diff(RootPoly(a), RootPoly(b))[..|a|]
  }

  lemma LowDiffVanishes(a: seq<F>, b: seq<F>, x: F)
    requires |a| == |b| && RunEval(1, a, LinFactor(x)) == RunEval(1, b, LinFactor(x))
    ensures Eval(LowDiff(a, b), x) == 0
  {
    var c, d := RootPoly(a), RootPoly(b);
    RootPolyMonic(a);
    RootPolyMonic(b);
    SubZero(1, 1);
    EvalRootPoly(a, x);
    EvalRootPoly(b, x);
    EvalDiff(c, d, x);
    SubZero(Eval(c, x), Eval(d, x));
    EvalDropZero(Diff(c, d), x);
  }

  lemma LowDiffNonZero(a: seq<F>, b: seq<F>)
    requires |a| == |b| && multiset(a) != multiset(b)
    ensures NonZero(LowDiff(a, b))
  {
    var c, d := RootPoly(a), RootPoly(b);
    RootPolyDeterminesRoots(a, b);
    RootPolyMonic(a);
    RootPolyMonic(b);
    var i :| 0 <= i < |c| && c[i] != d[i];
    SubZero(c[i], d[i]);
    assert LowDiff(a, b)[i] != 0;
  }

  /** Two traces of the same length that are not rearrangements of each other have equal
      running evaluations at fewer points than they have entries. */
  lemma AgreementBound(a: seq<F>, b: seq<F>, points: set<F>)
    requires |a| == |b| && multiset(a) != multiset(b)
    requires forall x | x in points :: RunEval(1, a, LinFactor(x)) == RunEval(1, b, LinFactor(x))
    ensures |points| < |a|
  {
    LowDiffNonZero(a, b);
    forall x | x in points ensures Eval(LowDiff(a, b), x) == 0 {
      LowDiffVanishes(a, b, x);
    }
    RootBound(LowDiff(a, b), points);
  }
}
