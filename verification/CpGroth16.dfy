/** Commit-and-prove Groth16 in the exponent: a group element is the exponent of its
    generator, two exponents denote one element when they are congruent modulo the group
    order, and a pairing multiplies exponents. */
module CpGroth16 {
  import opened Field
  import opened Sequences
  import opened MultiStage

  type Exponent = int

  // ------------------------------------------------------------------ inner products

  /** A multi-scalar multiplication. */
  function Dot(xs: seq<int>, ys: seq<int>): int
    requires |xs| == |ys|
  {
    if xs == [] then 0 else Dot(xs[..|xs| - 1], ys[..|ys| - 1]) + xs[|xs| - 1] * ys[|ys| - 1]
  }

  function Scale(k: int, xs: seq<int>): (r: seq<int>)
    ensures |r| == |xs|
  {
    if xs == [] then [] else Scale(k, xs[..|xs| - 1]) + [k * xs[|xs| - 1]]
  }

  lemma {:induction false} DotScale(k: int, xs: seq<int>, ys: seq<int>)
    requires |xs| == |ys|
    ensures Dot(Scale(k, xs), ys) == k * Dot(xs, ys)
  {
    if xs != [] {
      var n := |xs| - 1;
      DotScale(k, xs[..n], ys[..n]);
      Associate(k, xs[n], ys[n], Dot(xs[..n], ys[..n]));
    }
  }

  lemma Associate(k: int, x: int, y: int, d: int)
    ensures k * d + (k * x) * y == k * (d + x * y)
  {}

  lemma {:induction false} DotAppend(xs: seq<int>, ys: seq<int>, us: seq<int>, vs: seq<int>)
    requires |xs| == |ys| && |us| == |vs|
    ensures Dot(xs + us, ys + vs) == Dot(xs, ys) + Dot(us, vs)
  {
    if us == [] {
      assert xs + us == xs && ys + vs == ys;
    } else {
      var n := |us| - 1;
      DotAppend(xs, ys, us[..n], vs[..n]);
      assert (xs + us)[..|xs + us| - 1] == xs + us[..n] && (ys + vs)[..|ys + vs| - 1] == ys + vs[..n];
    }
  }

  // --------------------------------------------------------------------------- the keys

  datatype Trapdoor = Trapdoor(alpha: F, beta: F, gamma: F, deltas: seq<F>)

  /** The QAP evaluated at the trapdoor point, and the H-query before division by the last
      delta. */
  datatype Qap = Qap(a: seq<F>, b: seq<F>, c: seq<F>, h: seq<F>)

  predicate ValidQap(q: Qap, numVariables: nat) {
    |q.a| == |q.b| == |q.c| == numVariables
  }

  /** `beta * a + alpha * b + c`, variable by variable. */
  function Combined(t: Trapdoor, q: Qap, n: nat): (r: seq<int>)
    requires ValidQap(q, |q.a|) && n <= |q.a|
    ensures |r| == n
  {
    if n == 0 then [] else Combined(t, q, n - 1) + [t.beta * q.a[n - 1] + t.alpha * q.b[n - 1] + q.c[n - 1]]
  }

  datatype ProvingKey = ProvingKey(
    alphaG: Exponent, betaG: Exponent, betaH: Exponent, gammaH: Exponent,
    deltasG: seq<Exponent>, deltasH: seq<Exponent>,
    aG: seq<Exponent>, bG: seq<Exponent>, bH: seq<Exponent>, hG: seq<Exponent>,
    gammaAbcG: seq<Exponent>, deltasAbcG: seq<seq<Exponent>>)

  predicate Invertible(t: Trapdoor) {
    t.deltas != [] && t.gamma != 0 && forall i | 0 <= i < |t.deltas| :: t.deltas[i] != 0
  }

  /** The committer key of each stage: its variables' combined scalars over its delta. */
  ghost function StageKeys(t: Trapdoor, combined: seq<int>, numInstance: nat, ranges: seq<Range>,
                           n: nat): (r: seq<seq<Exponent>>)
    requires Invertible(t) && n <= |ranges| == |t.deltas|
    requires forall i | 0 <= i < |ranges| ::
              ranges[i].start <= ranges[i].end && numInstance + ranges[i].end <= |combined|
    ensures |r| == n
    ensures forall i | 0 <= i < n ::
              r[i] == Scale(Inv(t.deltas[i]), combined[numInstance + ranges[i].start..numInstance + ranges[i].end])
  {
    if n == 0 then []
    else
      var key := Scale(Inv(t.deltas[n - 1]),
                       combined[numInstance + ranges[n - 1].start..numInstance + ranges[n - 1].end]);
      StageKeys(t, combined, numInstance, ranges, n - 1) + [key]
  }

  /** `None` for a zero gamma or delta, or no stage at all. */
  ghost function GenerateParameters(t: Trapdoor, q: Qap, setup: seq<Stage>): Option<ProvingKey>
    requires |t.deltas| == |setup|
    requires ValidQap(q, |RunStages(setup).inputs| + |RunStages(setup).witnesses|)
  {
    if !Invertible(t) then None
    else
      var s := RunStages(setup);
      StageRangesPartition(setup);
      var combined := Combined(t, q, |q.a|);
      Some(ProvingKey(
        t.alpha, t.beta, t.beta, t.gamma, t.deltas, t.deltas, q.a, q.b, q.b,
        Scale(Inv(t.deltas[|t.deltas| - 1]), q.h),
        Scale(Inv(t.gamma), combined[..|s.inputs|]),
        StageKeys(t, combined, |s.inputs|, s.ranges, |setup|)))
  }

  // ------------------------------------------------------------- committing and proving

  function LastDelta(pk: ProvingKey): Exponent
    requires pk.deltasG != []
  {
    pk.deltasG[|pk.deltasG| - 1]
  }

  function Commitment(pk: ProvingKey, stage: nat, current: seq<F>, randomness: F): Exponent
    requires pk.deltasG != [] && stage < |pk.deltasAbcG| && |current| == |pk.deltasAbcG[stage]|
  {
    Dot(pk.deltasAbcG[stage], current) + LastDelta(pk) * randomness
  }

  /** Every stage commitment is hiding: with a non-zero delta, any other witness of the stage
      has the same commitment under some randomness, ... */
  lemma CommitmentHides(pk: ProvingKey, stage: nat, current: seq<F>, other: seq<F>, randomness: F) returns (r: F)
    requires pk.deltasG != [] && stage < |pk.deltasAbcG| && |current| == |other| == |pk.deltasAbcG[stage]|
    requires Red(LastDelta(pk)) != 0
    ensures Cong(Commitment(pk, stage, other, r), Commitment(pk, stage, current, randomness))
  {
    hide Dot, LastDelta;
    var delta, x := LastDelta(pk), Dot(pk.deltasAbcG[stage], other);
    var t := Commitment(pk, stage, current, randomness) - x;
    r := Mul(Inv(Red(delta)), Red(t));
    MulAssoc(Red(delta), Inv(Red(delta)), Red(t));
    MulOne(Red(t));
    CongRed(delta);
    LiftMul(Red(delta), delta, r, r);
    CongRed(t);
    CongAdd(x, x, delta * r, t);
  }

  /** ... and only under that one. */
  lemma CommitmentFixesRandomness(pk: ProvingKey, stage: nat, current: seq<F>, r: F, s: F)
    requires pk.deltasG != [] && stage < |pk.deltasAbcG| && |current| == |pk.deltasAbcG[stage]|
    requires Red(LastDelta(pk)) != 0
    requires Cong(Commitment(pk, stage, current, r), Commitment(pk, stage, current, s))
    ensures r == s
  {
    hide Dot, LastDelta;
    var delta, x := LastDelta(pk), Dot(pk.deltasAbcG[stage], current);
    CongAdd(x + delta * r, x + delta * s, x, x);
    CongAdd(delta * r, delta * s, delta * s, delta * s);
    assert delta * r - delta * s == delta * (r - s);
    CongRed(delta);
    LiftSub(r, r, s, s);
    LiftMul(Red(delta), delta, Sub(r, s), r - s);
    CongIsEqual(Mul(Red(delta), Sub(r, s)), 0);
    NoZeroDivisors(Red(delta), Sub(r, s));
    SubZero(r, s);
  }

  function CalculateCoeff(initial: Exponent, query: seq<Exponent>, vkParam: Exponent, assignment: seq<F>): Exponent
    requires |query| == |assignment| + 1
  {
    initial + query[0] + Dot(query[1..], assignment) + vkParam
  }

  datatype Proof = Proof(a: Exponent, b: Exponent, c: Exponent, ds: seq<Exponent>)

  /** The key's queries fit an assignment. */
  predicate KeyShape(pk: ProvingKey, full: seq<F>, h: seq<F>) {
    && pk.deltasG != [] && pk.deltasH != [] && pk.deltasAbcG != []
    && |pk.aG| == |pk.bG| == |pk.bH| == |full| > 0
    && |pk.hG| == |h|
  }

  /** So does its last committer key. */
  predicate FitsKey(pk: ProvingKey, full: seq<F>, current: seq<F>, h: seq<F>) {
    KeyShape(pk, full, h) && |pk.deltasAbcG[|pk.deltasAbcG| - 1]| == |current|
  }

  /** The last stage's part of C; a committer key of another length silently contributes
      nothing. */
  function LastStageSumOrZero(pk: ProvingKey, current: seq<F>): Exponent
    requires pk.deltasAbcG != []
  {
    var key := pk.deltasAbcG[|pk.deltasAbcG| - 1];
    if |key| == |current| then Dot(key, current) else 0
  }

  /** The three proof elements for the full assignment `full`, whose last stage is
      `current`. The G1 copy of B is skipped when `r` is zero. */
  method ProveLastStage(pk: ProvingKey, full: seq<F>, current: seq<F>, h: seq<F>, r: F, s: F) returns (proof: Proof)
    requires KeyShape(pk, full, h)
    ensures proof == LastStageProof(pk, full, current, h, r, s)
  {
    var assignment := full[1..];
    var rDeltaG := LastDelta(pk) * r;
    var aG := CalculateCoeff(rDeltaG, pk.aG, pk.alphaG, assignment);
    var bG := 0;
    if r != 0 {
      var sG := LastDelta(pk) * s;
      bG := CalculateCoeff(sG, pk.bG, pk.betaG, assignment);
    }
    var sH := pk.deltasH[|pk.deltasH| - 1] * s;
    var bH := CalculateCoeff(sH, pk.bH, pk.betaH, assignment);
    var lAuxAcc := LastStageSumOrZero(pk, current);
    var hAcc := Dot(pk.hG, h);
    var cG := aG * s;
    cG := cG + bG * r;
    cG := cG - LastDelta(pk) * (r * s);
    cG := cG + lAuxAcc;
    cG := cG + hAcc;
    proof := Proof(aG, bH, cG, []);
  }

  function LastStageProof(pk: ProvingKey, full: seq<F>, current: seq<F>, h: seq<F>, r: F, s: F): Proof
    requires KeyShape(pk, full, h)
  {
    var a := CalculateCoeff(LastDelta(pk) * r, pk.aG, pk.alphaG, full[1..]);
    var b1 := if r == 0 then 0 else CalculateCoeff(LastDelta(pk) * s, pk.bG, pk.betaG, full[1..]);
    var b := CalculateCoeff(pk.deltasH[|pk.deltasH| - 1] * s, pk.bH, pk.betaH, full[1..]);
    var c := a * s + b1 * r - LastDelta(pk) * (r * s) + LastStageSumOrZero(pk, current) + Dot(pk.hG, h);
    Proof(a, b, c, [])
  }

  /** With a last committer key of the wrong length the proof is made as if the last stage had
      allocated nothing. */
  lemma WrongKeyIgnored(pk: ProvingKey, full: seq<F>, current: seq<F>, h: seq<F>, r: F, s: F)
    requires KeyShape(pk, full, h) && |pk.deltasAbcG[|pk.deltasAbcG| - 1]| != |current|
    ensures LastStageProof(pk, full, current, h, r, s) == LastStageProof(pk, full, [], h, r, s)
  {
    hide CalculateCoeff, LastDelta;
  }

  /** The commitments of all stages but the last. */
  function Commitments(pk: ProvingKey, stages: seq<Stage>, randomness: seq<F>): (r: seq<Exponent>)
    requires pk.deltasG != [] && |randomness| <= |stages| && |stages| <= |pk.deltasAbcG|
    requires forall i | 0 <= i < |stages| :: |stages[i].witnesses| == |pk.deltasAbcG[i]|
    ensures |r| == |randomness|
  {
    if randomness == [] then []
    else
      var n := |randomness| - 1;
      Commitments(pk, stages, randomness[..n]) + [Commitment(pk, n, stages[n].witnesses, randomness[n])]
  }

  class CommitmentBuilder {
    const cs: MultiStageConstraintSystem
    var curStage: nat
    const pk: ProvingKey

    /** Everything committed so far, as stages; the key has room for them. */
    ghost predicate Ran(stages: seq<Stage>)
      reads this, cs
    {
      && cs.State() == RunStages(stages) && curStage == |stages| && pk.deltasG != []
    }

    constructor (pk: ProvingKey)
      requires pk.deltasG != []
      ensures this.pk == pk && fresh(cs) && Ran([])
    {
      this.pk := pk;
      curStage := 0;
      cs := new MultiStageConstraintSystem();
    }

    /** `None` when the committer key has no such stage or the lengths differ, where the
        source panics. */
    method Commit(st: Stage, randomness: F, ghost before: seq<Stage>) returns (comm: Option<Exponent>)
      requires Ran(before)
      modifies this, cs
      ensures comm.Some? <==> |before| < |pk.deltasAbcG| && |st.witnesses| == |pk.deltasAbcG[|before|]|
      ensures comm.Some? ==> Ran(before + [st]) && comm.value == Commitment(pk, |before|, st.witnesses, randomness)
    {
      cs.SynthesizeWith(st);
      assert (before + [st])[..|before|] == before;
      var current := cs.CurrentStageWitnessAssignment(before + [st]);
      if curStage >= |pk.deltasAbcG| || |current| != |pk.deltasAbcG[curStage]| {
        return None;
      }
      comm := Some(Dot(pk.deltasAbcG[curStage], current) + LastDelta(pk) * randomness);
      curStage := curStage + 1;
    }

    /** The last stage is synthesized inside the proof; the commitments' randomness is then
        taken back out of C. */
    method Prove(last: Stage, comms: seq<Exponent>, commRands: seq<F>, h: seq<F>, r: F, s: F, ghost before: seq<Stage>)
      returns (proof: Proof)
      requires Ran(before) && |pk.deltasG| == |commRands| + 1
      requires var state := RunStages(before + [last]); KeyShape(pk, state.inputs + state.witnesses, h)
      modifies cs
      ensures proof == BuilderProof(pk, before + [last], comms, commRands, h, r, s)
    {
      cs.SynthesizeWith(last);
      assert (before + [last])[..|before|] == before;
      var current := cs.CurrentStageWitnessAssignment(before + [last]);
      var core := ProveLastStage(pk, cs.instanceAssignment + cs.witnessAssignment, current, h, r, s);
      var kappasEtas := Dot(pk.deltasG[..|commRands|], commRands);
      proof := Proof(core.a, core.b, core.c - kappasEtas, comms);
    }
  }

  function BuilderProof(pk: ProvingKey, stages: seq<Stage>, comms: seq<Exponent>, commRands: seq<F>, h: seq<F>, r: F,
                        s: F): Proof
    requires stages != [] && |pk.deltasG| == |commRands| + 1
    requires var state := RunStages(stages); KeyShape(pk, state.inputs + state.witnesses, h)
  {
    var state := RunStages(stages);
    var core := LastStageProof(pk, state.inputs + state.witnesses, stages[|stages| - 1].witnesses, h, r, s);
    Proof(core.a, core.b, core.c - Dot(pk.deltasG[..|commRands|], commRands), comms)
  }

  // ---------------------------------------------------------------------- verification

  /** `None` for a wrong number of public inputs. */
  method PrepareInputs(pk: ProvingKey, publicInputs: seq<F>) returns (r: Option<Exponent>)
    ensures r == PreparedInputs(pk, publicInputs)
    ensures r.None? <==> |publicInputs| + 1 != |pk.gammaAbcG|
  {
    if |publicInputs| + 1 != |pk.gammaAbcG| {
      return None;
    }
    var gIc := pk.gammaAbcG[0];
    var bases := pk.gammaAbcG[1..];
    for i := 0 to |publicInputs|
      invariant gIc == pk.gammaAbcG[0] + Dot(bases[..i], publicInputs[..i])
    {
      assert bases[..i + 1][..i] == bases[..i] && publicInputs[..i + 1][..i] == publicInputs[..i];
      gIc := gIc + bases[i] * publicInputs[i];
    }
    assert bases[..|publicInputs|] == bases && publicInputs[..|publicInputs|] == publicInputs;
    r := Some(gIc);
  }

  function PreparedInputs(pk: ProvingKey, publicInputs: seq<F>): Option<Exponent> {
    if |publicInputs| + 1 != |pk.gammaAbcG| then None
    else Some(pk.gammaAbcG[0] + Dot(pk.gammaAbcG[1..], publicInputs))
  }

  /** The product of pairings, in the exponent: A with B, the inputs with minus gamma, the
      commitments and C with minus the deltas, against `alpha * beta`. `None` for a wrong
      number of inputs, or of commitments, which leaves the pairing lists uneven. */
  function Verify(pk: ProvingKey, proof: Proof, publicInputs: seq<F>): Option<bool> {
    var prepared := PreparedInputs(pk, publicInputs);
    if prepared.None? || |proof.ds| + 1 != |pk.deltasH| then None
    else
      var lhs := [proof.a] + [prepared.value] + proof.ds + [proof.c];
      var rhs := [proof.b] + [-pk.gammaH] + Scale(-1, pk.deltasH);
      Some(Cong(Dot(lhs, rhs), pk.alphaG * pk.betaH))
  }

  // ---------------------------------------------------------------------- completeness

  lemma {:induction false} CombinedDot(t: Trapdoor, q: Qap, z: seq<F>, n: nat)
    requires ValidQap(q, |z|) && n <= |z|
    ensures Dot(Combined(t, q, n), z[..n])
         == t.beta * Dot(q.a[..n], z[..n]) + t.alpha * Dot(q.b[..n], z[..n]) + Dot(q.c[..n], z[..n])
  {
    if n > 0 {
      var m := n - 1;
      CombinedDot(t, q, z, m);
      assert z[..n][..m] == z[..m] && q.a[..n][..m] == q.a[..m] && q.b[..n][..m] == q.b[..m]
           && q.c[..n][..m] == q.c[..m];
      OneVariable(t.alpha, t.beta, q.a[m], q.b[m], q.c[m], z[m], Dot(q.a[..m], z[..m]), Dot(q.b[..m], z[..m]),
                  Dot(q.c[..m], z[..m]));
    }
  }

  lemma OneVariable(alpha: int, beta: int, a: int, b: int, c: int, z: int, x: int, y: int, w: int)
    ensures beta * x + alpha * y + w + (beta * a + alpha * b + c) * z
         == beta * (x + a * z) + alpha * (y + b * z) + (w + c * z)
  {
    assert (beta * a + alpha * b + c) * z == beta * (a * z) + alpha * (b * z) + c * z;
  }

  /** Multiplying a key divided by `d` back by `d`. */
  lemma KeyTimesDelta(d: F, keys: seq<int>, w: seq<F>)
    requires d != 0 && |keys| == |w|
    ensures Cong(d * Dot(Scale(Inv(d), keys), w), Dot(keys, w))
  {
    hide Dot, Scale, Cong;
    DotScale(Inv(d), keys, w);
    TimesInverse(d, Dot(keys, w));
  }

  lemma TimesInverse(d: F, x: int)
    requires d != 0
    ensures Cong(d * (Inv(d) * x), x)
  {
    CongRed(d * Inv(d));
    assert Mul(d, Inv(d)) == 1;
    hide Mul;
    UnitTimes(d, Inv(d), x);
  }

  lemma UnitTimes(d: int, i: int, x: int)
    requires Cong(1, d * i)
    ensures Cong(d * (i * x), x)
  {
    assert d * (i * x) == (d * i) * x;
    hide Cong;
    CongMul(1, d * i, x, x);
    CongSwap(x, d * (i * x));
  }

  lemma CongSwap(x: int, y: int)
    ensures Cong(x, y) <==> Cong(y, x)
  {}

  /** A query's coefficient is the whole assignment's inner product, as the first variable is
      the constant one. */
  lemma CoefficientIsDot(initial: int, query: seq<int>, vkParam: int, full: seq<F>)
    requires |query| == |full| > 0 && full[0] == 1
    ensures CalculateCoeff(initial, query, vkParam, full[1..]) == initial + Dot(query, full) + vkParam
  {
    assert query == [query[0]] + query[1..] && full == [full[0]] + full[1..];
    DotAppend([query[0]], [full[0]], query[1..], full[1..]);
    assert Dot([query[0]], [full[0]]) == query[0] by { assert [query[0]][..0] == []; }
  }

  /** How the blinding terms of A, B and C cancel. */
  lemma BlindingCancels(x: int, y: int, r: int, s: int, d: int)
    ensures (x + d * r) * (y + d * s) - d * ((x + d * r) * s + (y + d * s) * r - d * (r * s)) == x * y
  {
    var p, q := d * r, d * s;
    assert (x + p) * (y + q) == x * y + x * q + p * y + p * q;
    assert d * ((x + p) * s) == (x + p) * q == x * q + p * q;
    assert d * ((y + q) * r) == (y + q) * p == p * y + p * q;
    assert d * (d * (r * s)) == p * q;
  }

  /** Each stage's committer key fits the variables the stage allocates. */
  ghost predicate KeysFit(pk: ProvingKey, stages: seq<Stage>) {
    && |stages| == |pk.deltasAbcG| == |pk.deltasG| > 0
    && forall i | 0 <= i < |stages| :: |stages[i].witnesses| == |pk.deltasAbcG[i]|
  }

  /** What the stages' keys and the witness contribute, stage by stage. */
  ghost function StageSum(pk: ProvingKey, stages: seq<Stage>, n: nat): int
    requires KeysFit(pk, stages) && n <= |stages|
  {
    if n == 0 then 0
    else StageSum(pk, stages, n - 1) + pk.deltasG[n - 1] * Dot(pk.deltasAbcG[n - 1], stages[n - 1].witnesses)
  }

  /** The commitments paired with their deltas: the stages' own part, and the randomness. */
  lemma {:induction false} CommitmentsPaired(pk: ProvingKey, stages: seq<Stage>, kappas: seq<F>)
    requires KeysFit(pk, stages) && |kappas| <= |stages|
    ensures var n := |kappas|;
            Dot(Commitments(pk, stages, kappas), pk.deltasG[..n])
            == StageSum(pk, stages, n) + LastDelta(pk) * Dot(pk.deltasG[..n], kappas)
  {
    var n := |kappas|;
    if n > 0 {
      var m := n - 1;
      CommitmentsPaired(pk, stages, kappas[..m]);
      assert pk.deltasG[..n][..m] == pk.deltasG[..m];
      OneCommitment(Dot(pk.deltasAbcG[m], stages[m].witnesses), LastDelta(pk), kappas[m], pk.deltasG[m],
                    Dot(pk.deltasG[..m], kappas[..m]));
    }
  }

  lemma OneCommitment(own: int, last: int, kappa: int, delta: int, sum: int)
    ensures (own + last * kappa) * delta + last * sum == delta * own + last * (sum + delta * kappa)
  {
    assert (last * kappa) * delta == last * (delta * kappa);
  }

  /** Where the first `n` stages end. */
  function Reach(ranges: seq<Range>, n: nat): nat
    requires n <= |ranges|
  {
    if n == 0 then 0 else ranges[n - 1].end
  }

  /** The key's committer part was made for these stages, from these combined scalars. */
  ghost predicate MadeFor(t: Trapdoor, pk: ProvingKey, combined: seq<int>, k: nat, s: SystemState, stages: seq<Stage>) {
    && KeysFit(pk, stages) && Invertible(t) && pk.deltasG == t.deltas
    && s == RunStages(stages) && |combined| == k + |s.witnesses|
    && Partition(s.ranges, |s.witnesses|)
    && forall i | 0 <= i < |stages| :: RangeOf(s, i) == stages[i].witnesses && KeyOfStage(t, pk, combined, k, s, i)
  }

  ghost predicate KeyOfStage(t: Trapdoor, pk: ProvingKey, combined: seq<int>, k: nat, s: SystemState, i: nat)
    requires i < |s.ranges| && i < |t.deltas| && i < |pk.deltasAbcG| && t.deltas[i] != 0
    requires s.ranges[i].start <= s.ranges[i].end && k + s.ranges[i].end <= |combined|
  {
    pk.deltasAbcG[i] == Scale(Inv(t.deltas[i]), combined[k + s.ranges[i].start..k + s.ranges[i].end])
  }

  /** The stages' contributions add up to one inner product over the whole witness: the
      ranges partition it, and every delta cancels against its inverse. */
  lemma {:induction false} StagesCover(t: Trapdoor, pk: ProvingKey, combined: seq<int>, k: nat, s: SystemState,
                                       stages: seq<Stage>, n: nat)
    requires MadeFor(t, pk, combined, k, s, stages) && n <= |stages|
    requires KeysFit(pk, stages) && |s.ranges| == |t.deltas| == |stages| && k <= |combined|
    ensures var to := Reach(s.ranges, n);
            to <= |s.witnesses| && Cong(StageSum(pk, stages, n), Dot(combined[k..k + to], s.witnesses[..to]))
  {
    hide *;
    if n == 0 {
      NothingReached(pk, combined, k, s, stages);
    } else {
      StagesCover(t, pk, combined, k, s, stages, n - 1);
      NextStage(t, pk, combined, k, s, stages, n);
      OneStageCovers(t.deltas[n - 1], combined, s.witnesses, k, Reach(s.ranges, n - 1), Reach(s.ranges, n),
                     StageSum(pk, stages, n - 1));
    }
  }

  lemma NothingReached(pk: ProvingKey, combined: seq<int>, k: nat, s: SystemState, stages: seq<Stage>)
    requires KeysFit(pk, stages) && k <= |combined|
    ensures Reach(s.ranges, 0) == 0 <= |s.witnesses|
    ensures Cong(StageSum(pk, stages, 0), Dot(combined[k..k + 0], s.witnesses[..0]))
  {}

  lemma NextStage(t: Trapdoor, pk: ProvingKey, combined: seq<int>, k: nat, s: SystemState, stages: seq<Stage>, n: nat)
    requires MadeFor(t, pk, combined, k, s, stages) && 0 < n <= |stages|
    ensures var (from, to) := (Reach(s.ranges, n - 1), Reach(s.ranges, n));
            && from <= to <= |s.witnesses| && t.deltas[n - 1] != 0 && |combined| == k + |s.witnesses|
            && StageSum(pk, stages, n)
               == StageSum(pk, stages, n - 1)
                    + t.deltas[n - 1] * Dot(Scale(Inv(t.deltas[n - 1]), combined[k + from..k + to]),
                                            s.witnesses[from..to])
  {
    hide Dot, Scale, RunStages;
    assert n >= 2 ==> s.ranges[n - 2].end == s.ranges[n - 2 + 1].start;
    assert RangeOf(s, n - 1) == stages[n - 1].witnesses && KeyOfStage(t, pk, combined, k, s, n - 1);
  }

  lemma OneStageCovers(d: F, combined: seq<int>, w: seq<F>, k: nat, from: nat, to: nat, sum: int)
    requires d != 0 && |combined| == k + |w| && from <= to <= |w|
    requires Cong(sum, Dot(combined[k..k + from], w[..from]))
    ensures Cong(sum + d * Dot(Scale(Inv(d), combined[k + from..k + to]), w[from..to]),
                 Dot(combined[k..k + to], w[..to]))
  {
    hide Dot, Scale, Cong;
    var keys, own := combined[k + from..k + to], w[from..to];
    KeyTimesDelta(d, keys, own);
    DotAppend(combined[k..k + from], w[..from], keys, own);
    assert combined[k..k + from] + keys == combined[k..k + to];
    assert w[..from] + own == w[..to];
    CongAdd(sum, Dot(combined[k..k + from], w[..from]), d * Dot(Scale(Inv(d), keys), own), Dot(keys, own));
  }

  /** The assignment satisfies the QAP: `A * B == C + H`. */
  predicate QapHolds(q: Qap, full: seq<F>, h: seq<F>)
    requires ValidQap(q, |full|) && |q.h| == |h|
  {
    Cong(Dot(q.a, full) * Dot(q.b, full), Dot(q.c, full) + Dot(q.h, h))
  }

  lemma {:induction false} DotScaleRight(k: int, xs: seq<int>, ys: seq<int>)
    requires |xs| == |ys|
    ensures Dot(xs, Scale(k, ys)) == k * Dot(xs, ys)
  {
    if xs != [] {
      var n := |xs| - 1;
      DotScaleRight(k, xs[..n], ys[..n]);
      assert k * Dot(xs[..n], ys[..n]) + xs[n] * (k * ys[n]) == k * (Dot(xs[..n], ys[..n]) + xs[n] * ys[n]);
    }
  }

  lemma DotOne(x: int, y: int)
    ensures Dot([x], [y]) == x * y
  {
    assert [x][..0] == [] && [y][..0] == [];
  }

  /** The pairing product, summand by summand. */
  lemma PairingSum(a: int, b: int, ic: int, gamma: int, ds: seq<int>, c: int, deltas: seq<int>)
    requires |ds| + 1 == |deltas|
    ensures |[a] + [ic] + ds + [c]| == |[b] + [-gamma] + Scale(-1, deltas)|
    ensures var m := |ds|;
            Dot([a] + [ic] + ds + [c], [b] + [-gamma] + Scale(-1, deltas))
            == a * b - ic * gamma - Dot(ds, deltas[..m]) - c * deltas[m]
  {
    hide Dot, Scale;
    var m := |ds|;
    assert [a] + [ic] + ds + [c] == [a] + ([ic] + (ds + [c]));
    assert [b] + [-gamma] + Scale(-1, deltas) == [b] + ([-gamma] + Scale(-1, deltas));
    DotAppend([a], [b], [ic] + (ds + [c]), [-gamma] + Scale(-1, deltas));
    DotAppend([ic], [-gamma], ds + [c], Scale(-1, deltas));
    DotScaleRight(-1, ds + [c], deltas);
    assert deltas == deltas[..m] + [deltas[m]];
    DotAppend(ds, deltas[..m], [c], [deltas[m]]);
    DotOne(a, b);
    DotOne(ic, -gamma);
    DotOne(c, deltas[m]);
  }

  /** The keys of the setup's own stages. */
  lemma GeneratedKeys(t: Trapdoor, q: Qap, setup: seq<Stage>)
    requires |t.deltas| == |setup| && Invertible(t)
    requires ValidQap(q, |RunStages(setup).inputs| + |RunStages(setup).witnesses|)
    ensures GenerateParameters(t, q, setup).Some?
    ensures var (pk, s, combined) := (GenerateParameters(t, q, setup).value, RunStages(setup), Combined(t, q, |q.a|));
            && pk.deltasG == t.deltas && |pk.deltasAbcG| == |setup| == |s.ranges|
            && Partition(s.ranges, |s.witnesses|)
            && |combined| == |s.inputs| + |s.witnesses|
            && forall i | 0 <= i < |setup| ::
                 && s.ranges[i].start <= s.ranges[i].end <= |s.witnesses|
                 && KeyOfStage(t, pk, combined, |s.inputs|, s, i)
  {
    hide Scale, Combined, RunStages, Inv;
    StageRangesPartition(setup);
  }

  /** What generation puts in the key for stages of the setup's sizes. */
  lemma KeyFacts(t: Trapdoor, q: Qap, setup: seq<Stage>, stages: seq<Stage>)
    requires SameSizes(setup, stages) && |t.deltas| == |setup| && Invertible(t)
    requires ValidQap(q, |RunStages(stages).inputs| + |RunStages(stages).witnesses|)
    ensures ValidQap(q, |RunStages(setup).inputs| + |RunStages(setup).witnesses|)
    ensures GenerateParameters(t, q, setup).Some?
    ensures var pk := GenerateParameters(t, q, setup).value;
            var s := RunStages(stages);
            && MadeFor(t, pk, Combined(t, q, |q.a|), |s.inputs|, s, stages)
            && KeysFit(pk, stages) && |s.ranges| == |t.deltas| == |stages|
  {
    hide Scale, Combined, RunStages, Dot, StageKeys, Inv, GenerateParameters;
    SameSizesSameRanges(setup, stages);
    GeneratedKeys(t, q, setup);
    StageRangesPartition(stages);
    var s := RunStages(stages);
    forall i | 0 <= i < |stages|
      ensures |stages[i].witnesses| == s.ranges[i].end - s.ranges[i].start
    {
      assert RangeOf(s, i) == stages[i].witnesses;
    }
  }

  /** The verifier's input element, times gamma. */
  lemma InputsTimesGamma(gamma: F, combined: seq<int>, inputs: seq<F>)
    requires gamma != 0 && |inputs| == |combined| > 0 && inputs[0] == 1
    ensures |Scale(Inv(gamma), combined)| == |inputs[1..]| + 1
    ensures var key := Scale(Inv(gamma), combined);
            Cong((key[0] + Dot(key[1..], inputs[1..])) * gamma, Dot(combined, inputs))
  {
    hide Dot, Scale, Cong;
    var key := Scale(Inv(gamma), combined);
    CoefficientIsDot(0, key, 0, inputs);
    KeyTimesDelta(gamma, combined, inputs);
    assert gamma * Dot(key, inputs) == Dot(key, inputs) * gamma;
  }

  /** The whole assignment against the combined scalars, split at the instance variables. */
  lemma CombinedSplits(t: Trapdoor, q: Qap, inputs: seq<F>, w: seq<F>)
    requires ValidQap(q, |inputs + w|)
    ensures var (combined, k) := (Combined(t, q, |q.a|), |inputs|);
            Dot(combined[..k], inputs) + Dot(combined[k..k + |w|], w)
            == t.beta * Dot(q.a, inputs + w) + t.alpha * Dot(q.b, inputs + w) + Dot(q.c, inputs + w)
  {
    hide Dot, Combined;
    var combined, k, full := Combined(t, q, |q.a|), |inputs|, inputs + w;
    CombinedDot(t, q, full, |full|);
    assert full[..|full|] == full && q.a[..|full|] == q.a && q.b[..|full|] == q.b && q.c[..|full|] == q.c;
    DotAppend(combined[..k], inputs, combined[k..k + |w|], w);
    assert combined[..k] + combined[k..k + |w|] == combined;
  }

  /** The left-hand side of the verification equation: A times B, less the inputs, the
      commitments (the stages' own sum and their randomness) and C. */
  function Total(al: int, be: int, za: int, zb: int, icGamma: int, sum: int, own: int, kd: int, r: int, s: int,
                 d: int, ha: int): int {
    var a, b := d * r + za + al, d * s + zb + be;
    var c := a * s + b * r - d * (r * s) + own + ha - kd;
    a * b - icGamma - (sum + d * kd) - c * d
  }

  /** The verification equation, with everything but the QAP cancelled. */
  lemma EquationReduces(al: int, be: int, za: int, zb: int, zc: int, hh: int, inputs: int, witnesses: int,
                        icGamma: int, sum: int, own: int, kd: int, r: int, s: int, d: int, ha: int)
    requires inputs + witnesses == be * za + al * zb + zc
    requires Cong(icGamma, inputs) && Cong(sum + d * own, witnesses) && Cong(d * ha, hh)
    ensures Cong(Total(al, be, za, zb, icGamma, sum, own, kd, r, s, d, ha), al * be) <==> Cong(za * zb, zc + hh)
  {
    var a, b := d * r + za + al, d * s + zb + be;
    var c := a * s + b * r - d * (r * s) + own + ha - kd;
    var total := a * b - icGamma - (sum + d * kd) - c * d;
    BlindingCancels(al + za, be + zb, r, s, d);
    assert c * d == d * (a * s + b * r - d * (r * s)) + d * own + d * ha - d * kd;
    assert total == (al + za) * (be + zb) - icGamma - (sum + d * own) - d * ha;
    assert (al + za) * (be + zb) == al * be + (be * za + al * zb) + za * zb;
    hide Cong;
    CongAdd(icGamma, inputs, sum + d * own, witnesses);
    CongAdd(icGamma + (sum + d * own), inputs + witnesses, d * ha, hh);
    var spent, due := icGamma + (sum + d * own) + d * ha, inputs + witnesses + hh;
    ShiftCong(total + spent, spent, due, al * be, za * zb, zc + hh);
  }

  lemma ShiftCong(x: int, spent: int, due: int, y: int, u: int, v: int)
    requires Cong(spent, due) && x - due == y + (u - v)
    ensures Cong(x - spent, y) <==> Cong(u, v)
  {
    var k := MultipleOfCong(spent, due);
    assert x - spent == y + (u - v) + (-k) * P by { assert (-k) * P == -(k * P); }
    if Cong(u, v) {
      var j := MultipleOfCong(u, v);
      assert x - spent == y + (j - k) * P by { assert (j - k) * P == j * P + (-k) * P; }
      CongOfMultiple(x - spent, y, j - k);
    }
    if Cong(x - spent, y) {
      var j := MultipleOfCong(x - spent, y);
      assert u == v + (j + k) * P by { assert (j + k) * P == j * P - (-k) * P; }
      CongOfMultiple(u, v, j + k);
    }
  }

  /** The blinded coefficients and the C element of a proof, written with inner products. */
  lemma ProofElements(pk: ProvingKey, full: seq<F>, current: seq<F>, h: seq<F>, r: F, s: F)
    requires FitsKey(pk, full, current, h) && full[0] == 1
    requires pk.bG == pk.bH && pk.betaG == pk.betaH && pk.deltasG == pk.deltasH
    ensures var proof := LastStageProof(pk, full, current, h, r, s);
            var d := LastDelta(pk);
            && proof.a == d * r + Dot(pk.aG, full) + pk.alphaG
            && proof.b == d * s + Dot(pk.bH, full) + pk.betaH
            && proof.c == proof.a * s + proof.b * r - d * (r * s)
                          + Dot(pk.deltasAbcG[|pk.deltasAbcG| - 1], current) + Dot(pk.hG, h)
  {
    hide Dot, CalculateCoeff;
    var d := LastDelta(pk);
    CoefficientIsDot(d * r, pk.aG, pk.alphaG, full);
    CoefficientIsDot(d * s, pk.bH, pk.betaH, full);
    var b := CalculateCoeff(d * s, pk.bH, pk.betaH, full[1..]);
    assert (if r == 0 then 0 else b) * r == b * r;
  }

  /** The honest proof of a run: commitments to every stage but the last, then the proof. */
  function HonestProof(pk: ProvingKey, stages: seq<Stage>, kappas: seq<F>, h: seq<F>, r: F, s: F): Proof
    requires stages != [] && |pk.deltasG| == |kappas| + 1 == |stages| == |pk.deltasAbcG|
    requires forall i | 0 <= i < |stages| :: |stages[i].witnesses| == |pk.deltasAbcG[i]|
    requires var state := RunStages(stages);
             FitsKey(pk, state.inputs + state.witnesses, stages[|stages| - 1].witnesses, h)
  {
    BuilderProof(pk, stages, Commitments(pk, stages, kappas), kappas, h, r, s)
  }

  /** A whole run of the builder: commit stage by stage, then prove. */
  method CommitAndProve(pk: ProvingKey, stages: seq<Stage>, rands: seq<F>, h: seq<F>, r: F, s: F) returns (proof: Proof)
    requires KeysFit(pk, stages) && |rands| + 1 == |stages|
    requires FitsKey(pk, RunStages(stages).inputs + RunStages(stages).witnesses, stages[|stages| - 1].witnesses, h)
    ensures proof == HonestProof(pk, stages, rands, h, r, s)
  {
    hide Dot, RunStages;
    var builder := new CommitmentBuilder(pk);
    var comms := [];
    var i := 0;
    assert stages[..0] == [];
    while i < |rands|
      invariant 0 <= i <= |rands|
      invariant builder.pk == pk && builder.Ran(stages[..i]) && fresh(builder) && fresh(builder.cs)
      invariant comms == Commitments(pk, stages, rands[..i])
    {
      assert stages[..i + 1] == stages[..i] + [stages[i]] && rands[..i + 1][..i] == rands[..i];
      var comm := builder.Commit(stages[i], rands[i], stages[..i]);
      comms := comms + [comm.value];
      i := i + 1;
    }
    assert rands[..i] == rands && stages[..i] + [stages[i]] == stages;
    proof := builder.Prove(stages[i], comms, rands, h, r, s, stages[..i]);
  }

  lemma KeyFields(t: Trapdoor, q: Qap, setup: seq<Stage>)
    requires |t.deltas| == |setup| && Invertible(t)
    requires ValidQap(q, |RunStages(setup).inputs| + |RunStages(setup).witnesses|)
    ensures GenerateParameters(t, q, setup).Some?
    ensures var pk := GenerateParameters(t, q, setup).value;
            && pk.alphaG == t.alpha && pk.betaG == pk.betaH == t.beta && pk.gammaH == t.gamma
            && pk.deltasG == pk.deltasH == t.deltas && pk.aG == q.a && pk.bG == pk.bH == q.b
            && pk.hG == Scale(Inv(t.deltas[|t.deltas| - 1]), q.h)
            && pk.gammaAbcG == Scale(Inv(t.gamma), Combined(t, q, |q.a|)[..|RunStages(setup).inputs|])
  {
    hide Scale, Combined, RunStages, StageKeys;
    StageRangesPartition(setup);
  }

  /** The last stage's part of the stage sum. */
  lemma LastStageSum(pk: ProvingKey, stages: seq<Stage>, n: nat)
    requires KeysFit(pk, stages) && n + 1 == |stages|
    ensures StageSum(pk, stages, n + 1)
         == StageSum(pk, stages, n) + LastDelta(pk) * Dot(pk.deltasAbcG[n], stages[n].witnesses)
  {
    hide Dot;
  }

  /** A key generated for these stages, with what the proof needs of it. */
  ghost predicate KeyFor(t: Trapdoor, q: Qap, pk: ProvingKey, stages: seq<Stage>, h: seq<F>) {
    var state := RunStages(stages);
    && Invertible(t) && ValidQap(q, |state.inputs + state.witnesses|) && |q.h| == |h|
    && pk.alphaG == t.alpha && pk.betaG == pk.betaH == t.beta && pk.gammaH == t.gamma
    && pk.deltasG == pk.deltasH == t.deltas && pk.aG == q.a && pk.bG == pk.bH == q.b
    && pk.hG == Scale(Inv(t.deltas[|t.deltas| - 1]), q.h)
    && pk.gammaAbcG == Scale(Inv(t.gamma), Combined(t, q, |q.a|)[..|state.inputs|])
    && MadeFor(t, pk, Combined(t, q, |q.a|), |state.inputs|, state, stages)
    && KeysFit(pk, stages) && |state.ranges| == |t.deltas| == |stages|
    && FitsKey(pk, state.inputs + state.witnesses, stages[|stages| - 1].witnesses, h)
  }

  lemma OneIsFirst(stages: seq<Stage>)
    ensures RunStages(stages).inputs != [] && RunStages(stages).inputs[0] == 1
  {}

  lemma KeyIsFor(t: Trapdoor, q: Qap, pk: ProvingKey, stages: seq<Stage>, h: seq<F>)
    requires Invertible(t) && ValidQap(q, |RunStages(stages).inputs + RunStages(stages).witnesses|) && |q.h| == |h|
    requires pk.alphaG == t.alpha && pk.betaG == pk.betaH == t.beta && pk.gammaH == t.gamma
    requires pk.deltasG == pk.deltasH == t.deltas && pk.aG == q.a && pk.bG == pk.bH == q.b
    requires pk.hG == Scale(Inv(t.deltas[|t.deltas| - 1]), q.h)
    requires pk.gammaAbcG == Scale(Inv(t.gamma), Combined(t, q, |q.a|)[..|RunStages(stages).inputs|])
    requires MadeFor(t, pk, Combined(t, q, |q.a|), |RunStages(stages).inputs|, RunStages(stages), stages)
    requires KeysFit(pk, stages) && |RunStages(stages).ranges| == |t.deltas| == |stages|
    ensures KeyFor(t, q, pk, stages, h)
    ensures FitsKey(pk, RunStages(stages).inputs + RunStages(stages).witnesses, stages[|stages| - 1].witnesses, h)
  {
    hide Scale, Combined, RunStages, MadeFor;
  }

  /** The left-hand side of the verification equation for an honest proof. */
  ghost function HonestTotal(pk: ProvingKey, stages: seq<Stage>, full: seq<F>, inputs: seq<F>, kappas: seq<F>,
                             h: seq<F>, r: F, s: F): int
    requires KeysFit(pk, stages) && |kappas| + 1 == |stages| && |pk.gammaAbcG| == |inputs| > 0
    requires FitsKey(pk, full, stages[|stages| - 1].witnesses, h)
  {
    var m := |kappas|;
    Total(pk.alphaG, pk.betaH, Dot(pk.aG, full), Dot(pk.bH, full),
          (pk.gammaAbcG[0] + Dot(pk.gammaAbcG[1..], inputs[1..])) * pk.gammaH, StageSum(pk, stages, m),
          Dot(pk.deltasAbcG[m], stages[m].witnesses), Dot(pk.deltasG[..m], kappas), r, s, LastDelta(pk), Dot(pk.hG, h))
  }

  lemma HonestVerification(pk: ProvingKey, stages: seq<Stage>, kappas: seq<F>, h: seq<F>, r: F, s: F)
    requires KeysFit(pk, stages) && |kappas| + 1 == |stages| && |pk.gammaAbcG| == |RunStages(stages).inputs|
    requires FitsKey(pk, RunStages(stages).inputs + RunStages(stages).witnesses, stages[|stages| - 1].witnesses, h)
    requires pk.bG == pk.bH && pk.betaG == pk.betaH && pk.deltasG == pk.deltasH
    ensures var state := RunStages(stages);
            Verify(pk, HonestProof(pk, stages, kappas, h, r, s), state.inputs[1..])
            == Some(Cong(HonestTotal(pk, stages, state.inputs + state.witnesses, state.inputs, kappas, h, r, s),
                         pk.alphaG * pk.betaH))
  {
    hide Dot, Scale, Cong, RunStages, Commitments, StageSum, LastStageProof, CalculateCoeff, Total;
    var state := RunStages(stages);
    var full, m := state.inputs + state.witnesses, |kappas|;
    var ds := Commitments(pk, stages, kappas);
    var proof := HonestProof(pk, stages, kappas, h, r, s);
    var ic := pk.gammaAbcG[0] + Dot(pk.gammaAbcG[1..], state.inputs[1..]);
    ProofElements(pk, full, stages[m].witnesses, h, r, s);
    PairingSum(proof.a, proof.b, ic, pk.gammaH, ds, proof.c, pk.deltasH);
    CommitmentsPaired(pk, stages, kappas);
    TotalIs(pk.alphaG, pk.betaH, Dot(pk.aG, full), Dot(pk.bH, full), ic * pk.gammaH, StageSum(pk, stages, m),
            Dot(pk.deltasAbcG[m], stages[m].witnesses), Dot(pk.deltasG[..m], kappas), r, s, LastDelta(pk),
                 Dot(pk.hG, h),
            proof.a, proof.b, proof.c);
  }

  lemma TotalIs(al: int, be: int, za: int, zb: int, icGamma: int, sum: int, own: int, kd: int, r: int, s: int,
                d: int, ha: int,
                a: int, b: int, c: int)
    requires a == d * r + za + al && b == d * s + zb + be
    requires c == a * s + b * r - d * (r * s) + own + ha - kd
    ensures Total(al, be, za, zb, icGamma, sum, own, kd, r, s, d, ha) == a * b - icGamma - (sum + d * kd) - c * d
  {}

  /** All stages together contribute the whole witness. */
  lemma WitnessContribution(t: Trapdoor, q: Qap, pk: ProvingKey, stages: seq<Stage>, h: seq<F>, m: nat)
    requires KeyFor(t, q, pk, stages, h) && KeysFit(pk, stages) && m + 1 == |stages|
    ensures var state := RunStages(stages);
            var (combined, k, w) := (Combined(t, q, |q.a|), |state.inputs|, state.witnesses);
            && k + |w| <= |combined|
            && Cong(StageSum(pk, stages, m) + LastDelta(pk) * Dot(pk.deltasAbcG[m], stages[m].witnesses),
                    Dot(combined[k..k + |w|], w))
  {
    hide Dot, Scale, Cong, RunStages, Combined, StageSum, MadeFor, Partition, Reach;
    var state := RunStages(stages);
    LastStageSum(pk, stages, m);
    StagesCover(t, pk, Combined(t, q, |q.a|), |state.inputs|, state, stages, |stages|);
    ReachAll(stages);
  }

  lemma ReachAll(stages: seq<Stage>)
    requires stages != []
    ensures var s := RunStages(stages);
            Reach(s.ranges, |stages|) == |s.witnesses| && s.witnesses[..|s.witnesses|] == s.witnesses
  {
    hide RunStages;
    StageRangesPartition(stages);
  }

  lemma HonestEquation(t: Trapdoor, q: Qap, pk: ProvingKey, stages: seq<Stage>, kappas: seq<F>, h: seq<F>, r: F, s: F)
    requires KeyFor(t, q, pk, stages, h) && KeysFit(pk, stages) && |kappas| + 1 == |stages|
    requires FitsKey(pk, RunStages(stages).inputs + RunStages(stages).witnesses, stages[|stages| - 1].witnesses, h)
    requires ValidQap(q, |RunStages(stages).inputs + RunStages(stages).witnesses|) && |q.h| == |h|
    ensures Verify(pk, HonestProof(pk, stages, kappas, h, r, s), RunStages(stages).inputs[1..])
         == Some(QapHolds(q, RunStages(stages).inputs + RunStages(stages).witnesses, h))
  {
    hide Dot, Scale, Cong, RunStages, Combined, StageSum, MadeFor, HonestProof, Verify, Total;
    var state := RunStages(stages);
    var inputs, w := state.inputs, state.witnesses;
    var full, k, m := inputs + w, |inputs|, |kappas|;
    var combined := Combined(t, q, |q.a|);
    HonestVerification(pk, stages, kappas, h, r, s);
    WitnessContribution(t, q, pk, stages, h, m);
    InputsTimesGamma(t.gamma, combined[..k], inputs);
    KeyTimesDelta(t.deltas[m], q.h, h);
    CombinedSplits(t, q, inputs, w);
    EquationReduces(t.alpha, t.beta, Dot(q.a, full), Dot(q.b, full), Dot(q.c, full), Dot(q.h, h),
                    Dot(combined[..k], inputs), Dot(combined[k..k + |w|], w),
                    (pk.gammaAbcG[0] + Dot(pk.gammaAbcG[1..], inputs[1..])) * pk.gammaH, StageSum(pk, stages, m),
                    Dot(pk.deltasAbcG[m], stages[m].witnesses), Dot(pk.deltasG[..m], kappas), r, s, LastDelta(pk),
                         Dot(pk.hG, h));
  }

  /** Completeness of commit-and-prove, and its converse: for any number of stages, any
      blinding and any commitment randomness, the honest commitments and proof pass the
      verifier's pairing equation exactly when the assignment satisfies the QAP. */
  lemma HonestProofVerifies(t: Trapdoor, q: Qap, setup: seq<Stage>, stages: seq<Stage>, kappas: seq<F>, h: seq<F>,
                            r: F, s: F)
    requires SameSizes(setup, stages) && |t.deltas| == |setup| == |kappas| + 1 && Invertible(t)
    requires ValidQap(q, |RunStages(stages).inputs + RunStages(stages).witnesses|) && |q.h| == |h|
    ensures ValidQap(q, |RunStages(setup).inputs| + |RunStages(setup).witnesses|)
    ensures GenerateParameters(t, q, setup).Some?
    ensures var pk := GenerateParameters(t, q, setup).value;
            var state := RunStages(stages);
            && KeysFit(pk, stages) && FitsKey(pk, state.inputs + state.witnesses, stages[|stages| - 1].witnesses, h)
            && Verify(pk, HonestProof(pk, stages, kappas, h, r, s), state.inputs[1..])
               == Some(QapHolds(q, state.inputs + state.witnesses, h))
  {
    hide *;
    KeyFacts(t, q, setup, stages);
    KeyFields(t, q, setup);
    SameSizesSameRanges(setup, stages);
    OneIsFirst(stages);
    var pk := GenerateParameters(t, q, setup).value;
    KeyIsFor(t, q, pk, stages, h);
    HonestEquation(t, q, pk, stages, kappas, h, r, s);
  }
}
