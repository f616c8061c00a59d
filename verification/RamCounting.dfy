/** How many challenges let a bad RAM trace pass. Nothing is assumed about the two traces but
    that they were fixed before the challenges were drawn. */
module RamCounting {
  import opened Field
  import opened Sequences
  import opened Bits
  import opened Uint32
  import opened Transcript
  import opened PortalProgram
  import opened Coordinator
  import opened Subcircuit
  import opened RamPortal
  import opened RamCompleteness
  import opened RamSoundness
  import RomSoundness
  import RamChain
  import Polynomial

  /** The challenges an entry is packed with: address, time and read flag. */
  type Triple = (F, F, F)

  function Challenges(x: Triple, trChal: F): RamChallenges {
    RamChallenges(x.0, x.1, x.2, trChal)
  }

  /** An entry packed into one field element; the trace challenge plays no part in it. */
  function Packed(x: Triple, e: RamEntryVar): F { RamEncode(Challenges(x, 0), e) }

  function Time(e: RamEntryVar): F { Red(FromBits(e.i)) }

  function Flag(e: RamEntryVar): F { if e.read then 1 else 0 }

  lemma PackedIs(x: Triple, e: RamEntryVar)
    ensures Packed(x, e) == Add(Add(Add(e.val, Mul(x.0, e.addr)), Mul(x.1, Time(e))), Mul(x.2, Flag(e)))
  {
    hide Add, Mul, Red, FromBits;
  }

  function Packer(x: Triple): RamEntryVar -> F {
    (e: RamEntryVar) => Packed(x, e)
  }

  lemma {:induction false} PackedEval(es: seq<RamEntryVar>, x: Triple, trChal: F)
    ensures RunEval(1, es, RamFactor(Challenges(x, trChal)))
         == RunEval(1, Map(Packer(x), es), Polynomial.LinFactor(trChal))
  {
    if es != [] {
      var n := |es| - 1;
      PackedEval(es[..n], x, trChal);
      assert Map(Packer(x), es)[..n] == Map(Packer(x), es[..n]);
      FactorIsPacked(x, trChal, es[n]);
      hide RamFactor, Polynomial.LinFactor, Packed, Mul, Sub;
    }
  }

  lemma FactorIsPacked(x: Triple, trChal: F, e: RamEntryVar)
    ensures RamFactor(Challenges(x, trChal))(e) == Polynomial.LinFactor(trChal)(Packed(x, e))
  {
    hide Add, Mul, Sub, Red, FromBits;
  }

  // ---------------------------------------------------------------- one challenge at a time

  lemma AddSwap(a: F, b: F, c: F)
    ensures Add(Add(a, b), c) == Add(Add(a, c), b)
  {
    LiftAdd(a, a, b, b);
    LiftAdd(Add(a, b), a + b, c, c);
    LiftAdd(a, a, c, c);
    LiftAdd(Add(a, c), a + c, b, b);
    RamChain.SameClass(Add(Add(a, b), c), Add(Add(a, c), b), a + b + c);
  }

  /** With two of the challenges fixed, the packing is the two-part one in the third. */
  lemma PackedByAddress(x: Triple, e: RamEntryVar)
    ensures Packed(x, e) == RomEncode(x.0, RomEntryVar(e.addr, Add(Add(e.val, Mul(x.1, Time(e))), Mul(x.2, Flag(e)))))
  {
    hide Add, Mul, Time, Flag, Packed;
    PackedIs(x, e);
    AddSwap(e.val, Mul(x.0, e.addr), Mul(x.1, Time(e)));
    AddSwap(Add(e.val, Mul(x.1, Time(e))), Mul(x.0, e.addr), Mul(x.2, Flag(e)));
  }

  lemma PackedByTime(x: Triple, e: RamEntryVar)
    ensures Packed(x, e) == RomEncode(x.1, RomEntryVar(Time(e), Add(Add(e.val, Mul(x.0, e.addr)), Mul(x.2, Flag(e)))))
  {
    hide Add, Mul, Time, Flag, Packed;
    PackedIs(x, e);
    AddSwap(Add(e.val, Mul(x.0, e.addr)), Mul(x.1, Time(e)), Mul(x.2, Flag(e)));
  }

  lemma PackedByFlag(x: Triple, e: RamEntryVar)
    ensures Packed(x, e) == RomEncode(x.2, RomEntryVar(Flag(e), Add(Add(e.val, Mul(x.0, e.addr)), Mul(x.1, Time(e)))))
  {
    hide Add, Mul, Time, Flag, Packed;
    PackedIs(x, e);
  }

  predicate CollidesWith(d: RamEntryVar, e: RamEntryVar, x: Triple) {
    d != e && Packed(x, d) == Packed(x, e)
  }

  /** Two challenges determine the third, if the entries collide and differ in its part. */
  lemma AddressDetermined(d: RamEntryVar, e: RamEntryVar, x: Triple, y: Triple)
    requires d.addr != e.addr && CollidesWith(d, e, x) && CollidesWith(d, e, y) && x.1 == y.1 && x.2 == y.2
    ensures x == y
  {
    hide Packed, RomEncode, Add, Mul, Time, Flag;
    PackedByAddress(x, d);
    PackedByAddress(x, e);
    PackedByAddress(y, d);
    PackedByAddress(y, e);
    RomSoundness.EncodingCollidesOnce(
      RomEntryVar(d.addr, Add(Add(d.val, Mul(x.1, Time(d))), Mul(x.2, Flag(d)))),
      RomEntryVar(e.addr, Add(Add(e.val, Mul(x.1, Time(e))), Mul(x.2, Flag(e)))), x.0, y.0);
  }

  lemma TimeDetermined(d: RamEntryVar, e: RamEntryVar, x: Triple, y: Triple)
    requires Time(d) != Time(e) && CollidesWith(d, e, x) && CollidesWith(d, e, y) && x.0 == y.0 && x.2 == y.2
    ensures x == y
  {
    hide Packed, RomEncode, Add, Mul, Time, Flag;
    PackedByTime(x, d);
    PackedByTime(x, e);
    PackedByTime(y, d);
    PackedByTime(y, e);
    RomSoundness.EncodingCollidesOnce(
      RomEntryVar(Time(d), Add(Add(d.val, Mul(x.0, d.addr)), Mul(x.2, Flag(d)))),
      RomEntryVar(Time(e), Add(Add(e.val, Mul(x.0, e.addr)), Mul(x.2, Flag(e)))), x.1, y.1);
  }

  lemma FlagDetermined(d: RamEntryVar, e: RamEntryVar, x: Triple, y: Triple)
    requires Flag(d) != Flag(e) && CollidesWith(d, e, x) && CollidesWith(d, e, y) && x.0 == y.0 && x.1 == y.1
    ensures x == y
  {
    hide Packed, RomEncode, Add, Mul, Time, Flag;
    PackedByFlag(x, d);
    PackedByFlag(x, e);
    PackedByFlag(y, d);
    PackedByFlag(y, e);
    RomSoundness.EncodingCollidesOnce(
      RomEntryVar(Flag(d), Add(Add(d.val, Mul(x.0, d.addr)), Mul(x.1, Time(d)))),
      RomEntryVar(Flag(e), Add(Add(e.val, Mul(x.0, e.addr)), Mul(x.1, Time(e)))), x.2, y.2);
  }

  lemma AddCancels(a: F, b: F, k: F)
    requires Add(a, k) == Add(b, k)
    ensures a == b
  {
    LiftAdd(a, a, k, k);
    LiftAdd(b, b, k, k);
    CongAdd(a + k, b + k, k, k);
    CongIsEqual(a, b);
  }

  lemma OnlyValuesDiffer(d: RamEntryVar, e: RamEntryVar, x: Triple)
    requires d.addr == e.addr && Time(d) == Time(e) && Flag(d) == Flag(e) && Packed(x, d) == Packed(x, e)
    ensures d.val == e.val
  {
    hide Add, Mul, Time, Flag, Packed;
    PackedIs(x, d);
    PackedIs(x, e);
    AddCancels(Add(Add(d.val, Mul(x.0, d.addr)), Mul(x.1, Time(d))),
               Add(Add(e.val, Mul(x.0, e.addr)), Mul(x.1, Time(e))),
               Mul(x.2, Flag(d)));
    AddCancels(Add(d.val, Mul(x.0, d.addr)), Add(e.val, Mul(x.0, e.addr)), Mul(x.1, Time(d)));
    AddCancels(d.val, e.val, Mul(x.0, d.addr));
  }

  /** In a field that holds all stamps, different stamps are different elements. */
  lemma TimeTellsStamps(d: RamEntryVar, e: RamEntryVar)
    requires U32_LIMIT <= P && Time(d) == Time(e)
    ensures d.i == e.i
  {
    ClockInRange(d);
    ClockInRange(e);
    DivisionUnique(FromBits(d.i), 0, FromBits(d.i));
    DivisionUnique(FromBits(e.i), 0, FromBits(e.i));
    ValueDetermines(d.i, e.i);
  }

  // ------------------------------------------------------------------------ counting

  /** A set whose members are told apart by a number below `n` has at most `n` members. */
  lemma {:induction false} CodesBound<T>(s: set<T>, code: T -> int, n: nat)
    requires forall t | t in s :: 0 <= code(t) < n
    requires forall t, u | t in s && u in s && code(t) == code(u) :: t == u
    ensures |s| <= n
  {
    if n == 0 {
      assert s == {};
    } else if t :| t in s && code(t) == n - 1 {
      forall u | u in s - {t} ensures code(u) < n - 1 {
        assert code(u) == code(t) ==> u == t;
      }
      CodesBound(s - {t}, code, n - 1);
      assert |s - {t}| == |s| - 1;
    } else {
      CodesBound(s, code, n - 1);
    }
  }

  /** How many pairs of field elements there are. */
  function Pairs(): nat { P * P }

  /** Two field elements as one number. */
  function PairCode(a: F, b: F): int { a * P + b }

  lemma PairCodeInRange(a: F, b: F)
    ensures 0 <= PairCode(a, b) < Pairs()
  {
    var k := P - 1 - a;
    MultipleBounds(k, P);
    MultipleBounds(a, P);
    assert (k + a + 1) * P == k * P + a * P + P;
  }

  lemma PairCodeIsInjective(a: F, b: F, c: F, d: F)
    requires PairCode(a, b) == PairCode(c, d)
    ensures a == c && b == d
  {
    hide Pairs;
    DivisionUnique(PairCode(a, b), a, b);
    DivisionUnique(PairCode(c, d), c, d);
  }

  /** Two different entries are packed alike under at most P^2 of the P^3 triples. */
  lemma PairCollisions(d: RamEntryVar, e: RamEntryVar, s: set<Triple>)
    requires U32_LIMIT <= P && d != e
    requires forall x | x in s :: CollidesWith(d, e, x)
    ensures |s| <= Pairs()
  {
    hide CollidesWith, Time, Flag, PairCode;
    if d.addr != e.addr {
      ByAddress(d, e, s);
    } else if Time(d) != Time(e) {
      ByTime(d, e, s);
    } else if Flag(d) != Flag(e) {
      ByFlag(d, e, s);
    } else {
      NoCollision(d, e, s);
    }
  }

  lemma ByAddress(d: RamEntryVar, e: RamEntryVar, s: set<Triple>)
    requires d.addr != e.addr && forall x | x in s :: CollidesWith(d, e, x)
    ensures |s| <= Pairs()
  {
    hide CollidesWith, PairCode, Pairs;
    var code := (x: Triple) => PairCode(x.1, x.2);
    forall x, y | x in s && y in s ensures 0 <= code(x) < Pairs() && (code(x) == code(y) ==> x == y) {
      PairCodeInRange(x.1, x.2);
      if code(x) == code(y) {
        PairCodeIsInjective(x.1, x.2, y.1, y.2);
        AddressDetermined(d, e, x, y);
      }
    }
    CodesBound(s, code, Pairs());
  }

  lemma ByTime(d: RamEntryVar, e: RamEntryVar, s: set<Triple>)
    requires Time(d) != Time(e) && forall x | x in s :: CollidesWith(d, e, x)
    ensures |s| <= Pairs()
  {
    hide CollidesWith, PairCode, Pairs, Time;
    var code := (x: Triple) => PairCode(x.0, x.2);
    forall x, y | x in s && y in s ensures 0 <= code(x) < Pairs() && (code(x) == code(y) ==> x == y) {
      PairCodeInRange(x.0, x.2);
      if code(x) == code(y) {
        PairCodeIsInjective(x.0, x.2, y.0, y.2);
        TimeDetermined(d, e, x, y);
      }
    }
    CodesBound(s, code, Pairs());
  }

  lemma ByFlag(d: RamEntryVar, e: RamEntryVar, s: set<Triple>)
    requires Flag(d) != Flag(e) && forall x | x in s :: CollidesWith(d, e, x)
    ensures |s| <= Pairs()
  {
    hide CollidesWith, PairCode, Pairs, Flag;
    var code := (x: Triple) => PairCode(x.0, x.1);
    forall x, y | x in s && y in s ensures 0 <= code(x) < Pairs() && (code(x) == code(y) ==> x == y) {
      PairCodeInRange(x.0, x.1);
      if code(x) == code(y) {
        PairCodeIsInjective(x.0, x.1, y.0, y.1);
        FlagDetermined(d, e, x, y);
      }
    }
    CodesBound(s, code, Pairs());
  }

  lemma NoCollision(d: RamEntryVar, e: RamEntryVar, s: set<Triple>)
    requires U32_LIMIT <= P && d != e && d.addr == e.addr && Time(d) == Time(e) && Flag(d) == Flag(e)
    requires forall x | x in s :: CollidesWith(d, e, x)
    ensures s == {}
  {
    hide Packed, Time;
    TimeTellsStamps(d, e);
    forall x | x in s ensures false {
      OnlyValuesDiffer(d, e, x);
    }
  }

  ghost predicate Collides(b: seq<RamEntryVar>, e: RamEntryVar, x: Triple) {
    exists d :: d in b && CollidesWith(d, e, x)
  }

  lemma OneMore(n: nat, q: nat, here: nat, rest: nat)
    requires here <= q && rest <= n * q
    ensures here + rest <= (n + 1) * q
  {
    assert (n + 1) * q == n * q + q;
  }

  lemma SplitSize<T>(s: set<T>, part: set<T>)
    requires part <= s
    ensures |s| == |part| + |s - part|
  {
    assert s == part + (s - part);
  }

  lemma {:induction false} CollisionsBounded(b: seq<RamEntryVar>, e: RamEntryVar, bad: set<Triple>)
    requires U32_LIMIT <= P && forall x | x in bad :: Collides(b, e, x)
    ensures |bad| <= |b| * Pairs()
  {
    hide CollidesWith, Pairs;
    if b == [] {
      assert bad == {};
    } else {
      var n := |b| - 1;
      assert b == b[..n] + [b[n]];
      var here := set x | x in bad && CollidesWith(b[n], e, x);
      var rest := bad - here;
      forall x | x in rest ensures Collides(b[..n], e, x) {
        assert Collides(b, e, x);
        var d :| d in b && CollidesWith(d, e, x);
        assert d in b[..n];
      }
      CollisionsBounded(b[..n], e, rest);
      HereBounded(b[n], e, here);
      SplitSize(bad, here);
      OneMore(n, Pairs(), |here|, |rest|);
    }
  }

  lemma HereBounded(d: RamEntryVar, e: RamEntryVar, here: set<Triple>)
    requires U32_LIMIT <= P && forall x | x in here :: CollidesWith(d, e, x)
    ensures |here| <= Pairs()
  {
    if x :| x in here {
      assert CollidesWith(d, e, x);
      hide CollidesWith;
      PairCollisions(d, e, here);
    }
  }

  /** The triples under which two traces are packed alike. */
  ghost function BadTriples(a: seq<RamEntryVar>, b: seq<RamEntryVar>): set<Triple> {
    set x: F, y: F, z: F | 0 <= x < P && 0 <= y < P && 0 <= z < P
      && multiset(Map(Packer((x, y, z)), a)) == multiset(Map(Packer((x, y, z)), b)) :: (x, y, z)
  }

  lemma CollidingEntry(a: seq<RamEntryVar>, b: seq<RamEntryVar>, e: RamEntryVar, x: Triple)
    requires multiset(a)[e] > multiset(b)[e]
    requires multiset(Map(Packer(x), a)) == multiset(Map(Packer(x), b))
    ensures Collides(b, e, x)
  {
    hide Packed;
    var f := Packer(x);
    RomSoundness.MapCount(f, a, e);
    RomSoundness.MapCount(f, b, e);
    var d :| d in b && f(d) == f(e) && d != e;
    assert CollidesWith(d, e, x);
  }

  /** There are at most P^2 of them for every entry. */
  lemma BadTriplesBound(a: seq<RamEntryVar>, b: seq<RamEntryVar>)
    requires U32_LIMIT <= P && |a| == |b| && multiset(a) != multiset(b)
    ensures |BadTriples(a, b)| <= |b| * Pairs()
  {
    hide Collides, Packer;
    var e := RomSoundness.MoreFrequent(a, b);
    var bad := BadTriples(a, b);
    forall x | x in bad ensures Collides(b, e, x) {
      assert multiset(Map(Packer(x), a)) == multiset(Map(Packer(x), b));
      CollidingEntry(a, b, e, x);
    }
    CollisionsBounded(b, e, bad);
  }

  // -------------------------------------------------------------------- soundness error

  /** Some leaves satisfy the chain under these challenges. */
  ghost predicate Satisfiable(c: RamChallenges, progs: seq<seq<PortalOp>>,
                              times: seq<seq<RamEntryVar>>, addrs: seq<seq<RamEntryVar>>)
    requires Consumes(progs, times, addrs)
  {
    exists leaves :: ChainSatisfied(RamMemory(c), progs, times, addrs, leaves)
  }

  lemma SatisfiableMeans(x: Triple, trChal: F, progs: seq<seq<PortalOp>>,
                         times: seq<seq<RamEntryVar>>, addrs: seq<seq<RamEntryVar>>)
    requires progs != [] && Consumes(progs, times, addrs)
    requires Satisfiable(Challenges(x, trChal), progs, times, addrs)
    ensures RunEval(1, Map(Packer(x), Flatten(times)), Polynomial.LinFactor(trChal))
         == RunEval(1, Map(Packer(x), Flatten(addrs)), Polynomial.LinFactor(trChal))
  {
    hide RamMemory, RamFactor, RunEval, Flatten, Packer, Polynomial.LinFactor, ChainSatisfied;
    var c := Challenges(x, trChal);
    var leaves :| ChainSatisfied(RamMemory(c), progs, times, addrs, leaves);
    RomSoundness.ChainEvals(RamMemory(c), progs, times, addrs, leaves, |progs|);
    RomSoundness.LinkedLeaf(RamMemory(c), progs, times, addrs, leaves, |progs| - 1);
    assert times[..|progs|] == times && addrs[..|progs|] == addrs;
    FactorOfMemory(c);
    PackedEval(Flatten(times), x, trChal);
    PackedEval(Flatten(addrs), x, trChal);
  }

  lemma FactorOfMemory(c: RamChallenges)
    ensures RamMemory(c).factor == RamFactor(c)
  {}

  /** The triples that may hide an inconsistent run. */
  ghost function ExcludedTriples(a: seq<RamEntryVar>, b: seq<RamEntryVar>): set<Triple> {
    if multiset(a) == multiset(b) then {} else BadTriples(a, b)
  }

  /** Stamps that follow the execution, boundary windows that hold and a sorted trace that
      starts with a write: what the soundness of the chain asks of the traces. */
  ghost predicate Checkable(times: seq<seq<RamEntryVar>>, addrs: seq<seq<RamEntryVar>>) {
    && StampsIncrease(Flatten(times))
    && StartsWithWrite(Flatten(addrs))
    && forall i | 0 <= i < |addrs| :: BoundaryOk(addrs, i)
  }

  /** Traces fixed before the challenges are drawn: if the run is not consistent, then outside
      at most `n` times P^2 of the P^3 entry challenges, fewer than `n` values of the trace
      challenge leave the chain satisfiable at all, `n` being the length of the trace. No
      rearrangement is assumed. */
  lemma RamSoundnessError(progs: seq<seq<PortalOp>>, times: seq<seq<RamEntryVar>>, addrs: seq<seq<RamEntryVar>>,
                          x: Triple, points: set<F>)
    requires progs != [] && Consumes(progs, times, addrs) && |Flatten(times)| <= P && U32_LIMIT <= P
    requires Checkable(times, addrs) && !Consistent(Flatten(times))
    ensures |ExcludedTriples(Flatten(times), Flatten(addrs))| <= |Flatten(times)| * Pairs()
    ensures x !in ExcludedTriples(Flatten(times), Flatten(addrs))
            && (forall t | t in points :: Satisfiable(Challenges(x, t), progs, times, addrs))
            ==> |points| < |Flatten(times)|
  {
    hide Consistent, BadTriples, Satisfiable, Checkable, Flatten, Packer;
    SameShapeLength(times, addrs);
    var a, b := Flatten(times), Flatten(addrs);
    if multiset(a) != multiset(b) {
      BadTriplesBound(a, b);
    }
    NonEmpty(a);
    if x !in ExcludedTriples(a, b) && forall t | t in points :: Satisfiable(Challenges(x, t), progs, times, addrs) {
      if multiset(a) == multiset(b) {
        forall t | t in points ensures false {
          NotSatisfiable(Challenges(x, t), progs, times, addrs);
        }
      } else {
        NotBad(a, b, x);
        forall t | t in points
          ensures RunEval(1, Map(Packer(x), a), Polynomial.LinFactor(t))
               == RunEval(1, Map(Packer(x), b), Polynomial.LinFactor(t))
        {
          SatisfiableMeans(x, t, progs, times, addrs);
        }
        Polynomial.AgreementBound(Map(Packer(x), a), Map(Packer(x), b), points);
      }
    }
  }

  lemma NonEmpty(a: seq<RamEntryVar>)
    requires !Consistent(a)
    ensures a != []
  {}

  lemma NotBad(a: seq<RamEntryVar>, b: seq<RamEntryVar>, x: Triple)
    requires x !in BadTriples(a, b)
    ensures multiset(Map(Packer(x), a)) != multiset(Map(Packer(x), b))
  {
    hide Packer;
    assert x == (x.0, x.1, x.2);
  }

  lemma NotSatisfiable(c: RamChallenges, progs: seq<seq<PortalOp>>, times: seq<seq<RamEntryVar>>,
                       addrs: seq<seq<RamEntryVar>>)
    requires Consumes(progs, times, addrs) && |Flatten(times)| <= P
         && multiset(Flatten(times)) == multiset(Flatten(addrs))
    requires Checkable(times, addrs) && !Consistent(Flatten(times))
    ensures !Satisfiable(c, progs, times, addrs)
  {
    hide Consistent, StampsIncrease, StartsWithWrite, BoundaryOk, Flatten, ChainSatisfied, RamMemory, RamVals,
         SetsAgree,
         EnforcesHold, BoundaryOrdered;
    if leaves :| ChainSatisfied(RamMemory(c), progs, times, addrs, leaves) {
      RamChainSound(c, progs, times, addrs, leaves);
    }
  }
}
