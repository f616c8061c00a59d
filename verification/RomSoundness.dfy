/** Soundness of the ROM memory argument for arbitrary traces: a satisfied chain over fewer
    entries than the field has elements is memory consistent, address by address. */
module RomSoundness {
  import opened Field
  import opened Sequences
  import opened Transcript
  import opened PortalProgram
  import opened RomPortal
  import opened Coordinator
  import opened Subcircuit
  import Polynomial

  /** Any two accesses to the same address carry the same value. */
  predicate Consistent(es: seq<RomEntryVar>) {
    forall j, k | 0 <= j < |es| && 0 <= k < |es| && es[j].addr == es[k].addr :: es[j].val == es[k].val
  }

  // ------------------------------------------------- from local windows to the trace

  lemma WindowsAppend(x: seq<RomEntryVar>, y: seq<RomEntryVar>)
    requires x != [] && RomWindows(x) && RomWindows([x[|x| - 1]] + y)
    ensures RomWindows(x + y)
  {
    var tail := [x[|x| - 1]] + y;
    forall k | 0 <= k < |x + y| - 1 ensures RomWindowOk((x + y)[k], (x + y)[k + 1]) {
      if k >= |x| - 1 {
        var i := k - (|x| - 1);
        assert (x + y)[k] == tail[i] && (x + y)[k + 1] == tail[i + 1];
      }
    }
  }

  lemma ExtendWindows(first: RomEntryVar, before: seq<RomEntryVar>, chunk: seq<RomEntryVar>)
    requires RomWindows([first] + before) && RomWindows([LastEntry(first, before)] + chunk)
    ensures RomWindows([first] + (before + chunk))
    ensures LastEntry(LastEntry(first, before), chunk) == LastEntry(first, before + chunk)
  {
    WindowsAppend([first] + before, chunk);
    assert [first] + (before + chunk) == [first] + before + chunk;
  }

  /** Linked leaves make the per-subcircuit windows cover the whole address-ordered trace. */
  lemma {:induction false} ChainWindows(mem: Memory<RomEntryVar>, progs: seq<seq<PortalOp>>,
                     times: seq<seq<RomEntryVar>>, addrs: seq<seq<RomEntryVar>>,
                     leaves: seq<Leaf<RomEntryVar>>, i: nat)
    requires Consumes(progs, times, addrs) && i <= |progs|
    requires ChainSatisfied(mem, progs, times, addrs, leaves)
    requires forall t, a :: mem.coherent(t, a) ==> RomWindows(a)
    ensures RomWindows([leaves[0].last] + Flatten(addrs[..i]))
    ensures leaves[i].last == LastEntry(leaves[0].last, Flatten(addrs[..i]))
  {
    if i == 0 {
      assert addrs[..0] == [];
    } else {
      ChainWindows(mem, progs, times, addrs, leaves, i - 1);
      FlattenPrefix(addrs, i - 1);
      LinkedLeaf(mem, progs, times, addrs, leaves, i - 1);
      ExtendWindows(leaves[0].last, Flatten(addrs[..i - 1]), addrs[i - 1]);
    }
  }

  /** What one link of a satisfied chain says. */
  lemma LinkedLeaf<E>(mem: Memory<E>, progs: seq<seq<PortalOp>>, times: seq<seq<E>>, addrs: seq<seq<E>>,
                      leaves: seq<Leaf<E>>, i: nat)
    requires Consumes(progs, times, addrs) && i < |progs|
    requires ChainSatisfied(mem, progs, times, addrs, leaves)
    ensures leaves[i + 1] == Leaf(RunEval(leaves[i].timeEval, times[i], mem.factor),
                                  RunEval(leaves[i].addrEval, addrs[i], mem.factor),
                                  LastEntry(leaves[i].last, addrs[i]))
    ensures mem.coherent(times[i], [leaves[i].last] + addrs[i])
    ensures SetsAgree(progs[i], [], Values(mem, times[i])) && EnforcesHold(progs[i], [], Values(mem, times[i]))
    ensures i == 0 ==> leaves[i].timeEval == 1 && leaves[i].addrEval == 1 && mem.isPadding(leaves[i].last)
    ensures i + 1 == |progs| ==> leaves[i + 1].timeEval == leaves[i + 1].addrEval
  {
    assert NextLeaf(mem, i, |progs|, progs[i], times[i], addrs[i], leaves[i]) == Some(leaves[i + 1]);
  }

  lemma {:induction false} ChainEvals<E>(mem: Memory<E>, progs: seq<seq<PortalOp>>,
                     times: seq<seq<E>>, addrs: seq<seq<E>>, leaves: seq<Leaf<E>>, i: nat)
    requires Consumes(progs, times, addrs) && 0 < |progs| && i <= |progs|
    requires ChainSatisfied(mem, progs, times, addrs, leaves)
    ensures EvalsAt(mem, times, addrs, leaves[i], i)
  {
    LinkedLeaf(mem, progs, times, addrs, leaves, 0);
    assert addrs[..0] == [] && times[..0] == [];
    if i > 0 {
      var j := i - 1;
      ChainEvals(mem, progs, times, addrs, leaves, j);
      LinkedLeaf(mem, progs, times, addrs, leaves, j);
      EvalsStep(mem, times, addrs, leaves[j], leaves[j + 1], j);
    }
  }

  predicate EvalsAt<E>(mem: Memory<E>, times: seq<seq<E>>, addrs: seq<seq<E>>, l: Leaf<E>, i: nat)
    requires i <= |times| && i <= |addrs|
  {
    && l.timeEval == RunEval(1, Flatten(times[..i]), mem.factor)
    && l.addrEval == RunEval(1, Flatten(addrs[..i]), mem.factor)
  }

  lemma EvalsStep<E>(mem: Memory<E>, times: seq<seq<E>>, addrs: seq<seq<E>>, l: Leaf<E>, next: Leaf<E>, i: nat)
    requires i < |times| && i < |addrs| && EvalsAt(mem, times, addrs, l, i)
    requires next.timeEval == RunEval(l.timeEval, times[i], mem.factor)
    requires next.addrEval == RunEval(l.addrEval, addrs[i], mem.factor)
    ensures EvalsAt(mem, times, addrs, next, i + 1)
  {
    RunEvalFlattenStep(1, times, i, mem.factor);
    RunEvalFlattenStep(1, addrs, i, mem.factor);
  }

  /** Starting from address 0 and shorter than the field, the addresses cannot wrap. */
  lemma {:induction false} AddrsClimb(g: seq<RomEntryVar>, k: nat)
    requires RomWindows(g) && k < |g| <= P && g[0].addr == 0
    ensures g[k].addr <= k
    ensures k > 0 ==> g[k].addr == g[k - 1].addr || g[k].addr == g[k - 1].addr + 1
  {
    if k > 0 {
      AddrsClimb(g, k - 1);
      assert RomWindowOk(g[k - 1], g[k]);
      DivisionUnique(g[k - 1].addr + 1, 0, g[k - 1].addr + 1);
    }
  }

  /** Entries at one address are contiguous, so the pairwise value checks chain up. */
  lemma {:induction false} SameAddrSameVal(g: seq<RomEntryVar>, j: nat, k: nat)
    requires RomWindows(g) && j <= k < |g| <= P && g[0].addr == 0
    ensures g[j].addr <= g[k].addr
    ensures g[j].addr == g[k].addr ==> g[j].val == g[k].val
    decreases k
  {
    if j < k {
      SameAddrSameVal(g, j, k - 1);
      AddrsClimb(g, k);
      assert RomWindowOk(g[k - 1], g[k]);
    }
  }

  lemma CoherentTraceConsistent(padding: RomEntryVar, es: seq<RomEntryVar>)
    requires RomWindows([padding] + es) && RomIsPadding(padding) && |es| < P
    ensures Consistent(es)
  {
    var g := [padding] + es;
    forall j, k | 0 <= j < |es| && 0 <= k < |es| && es[j].addr == es[k].addr
      ensures es[j].val == es[k].val
    {
      assert es[j] == g[j + 1] && es[k] == g[k + 1];
      if j <= k {
        SameAddrSameVal(g, j + 1, k + 1);
      } else {
        SameAddrSameVal(g, k + 1, j + 1);
      }
    }
  }

  lemma ConsistentRearranged(a: seq<RomEntryVar>, b: seq<RomEntryVar>)
    requires multiset(a) == multiset(b) && Consistent(b)
    ensures Consistent(a)
  {
    forall j, k | 0 <= j < |a| && 0 <= k < |a| && a[j].addr == a[k].addr
      ensures a[j].val == a[k].val
    {
      MultisetMember(a, b, a[j]);
      MultisetMember(a, b, a[k]);
    }
  }

  /** In any satisfied chain the address-ordered trace is consistent, the running
      evaluations of the two traces agree, and every program's writes and checks hold on
      the recorded values. */
  lemma ChainMeaning(entryChal: F, trChal: F, progs: seq<seq<PortalOp>>,
                     times: seq<seq<RomEntryVar>>, addrs: seq<seq<RomEntryVar>>,
                     leaves: seq<Leaf<RomEntryVar>>)
    requires progs != [] && Consumes(progs, times, addrs) && |Flatten(addrs)| < P
    requires ChainSatisfied(RomMemory(entryChal, trChal), progs, times, addrs, leaves)
    ensures Consistent(Flatten(addrs))
    ensures RunEval(1, Flatten(times), RomFactor(entryChal, trChal))
         == RunEval(1, Flatten(addrs), RomFactor(entryChal, trChal))
    ensures forall i | 0 <= i < |progs| ::
              SetsAgree(progs[i], [], Vals(times[i])) && EnforcesHold(progs[i], [], Vals(times[i]))
  {
    var mem := RomMemory(entryChal, trChal);
    var n := |progs|;
    ChainWindows(mem, progs, times, addrs, leaves, n);
    ChainEvals(mem, progs, times, addrs, leaves, n);
    assert addrs[..n] == addrs && times[..n] == times;
    LinkedLeaf(mem, progs, times, addrs, leaves, 0);
    CoherentTraceConsistent(leaves[0].last, Flatten(addrs));
    LinkedLeaf(mem, progs, times, addrs, leaves, n - 1);
    forall i | 0 <= i < n
      ensures SetsAgree(progs[i], [], Vals(times[i])) && EnforcesHold(progs[i], [], Vals(times[i]))
    {
      LinkedLeaf(mem, progs, times, addrs, leaves, i);
      assert Values(mem, times[i]) == Vals(times[i]);
    }
  }

  /** When the address-ordered trace is a rearrangement of the time-ordered one, a satisfied
      chain means any two accesses to one address, anywhere in the run, carry one value. */
  lemma RomChainSound(entryChal: F, trChal: F, progs: seq<seq<PortalOp>>,
                      times: seq<seq<RomEntryVar>>, addrs: seq<seq<RomEntryVar>>,
                      leaves: seq<Leaf<RomEntryVar>>)
    requires progs != [] && Consumes(progs, times, addrs) && |Flatten(times)| < P
    requires multiset(Flatten(times)) == multiset(Flatten(addrs))
    requires ChainSatisfied(RomMemory(entryChal, trChal), progs, times, addrs, leaves)
    ensures Consistent(Flatten(times))
    ensures forall i | 0 <= i < |progs| ::
              SetsAgree(progs[i], [], Vals(times[i])) && EnforcesHold(progs[i], [], Vals(times[i]))
  {
    MultisetLength(Flatten(times), Flatten(addrs));
    ChainMeaning(entryChal, trChal, progs, times, addrs, leaves);
    ConsistentRearranged(Flatten(times), Flatten(addrs));
  }

  /** Runs stage 1 for every request, all against one list of committed leaves, and collects
      the leaves produced. It ends well exactly when every subcircuit's constraints hold and
      produce a committed leaf. If the requests are linked as well, the run is sound. */
  method ProveAll(progs: seq<seq<PortalOp>>, times: seq<seq<RomEntryVar>>, addrs: seq<seq<RomEntryVar>>,
                  curs: seq<Leaf<RomEntryVar>>, entryChal: F, trChal: F, committed: seq<Leaf<RomEntryVar>>)
    returns (nexts: Option<seq<Leaf<RomEntryVar>>>)
    requires Consumes(progs, times, addrs) && |curs| == |progs|
    ensures nexts.None? <==> exists i | 0 <= i < |progs| ::
              var next := NextLeaf(RomMemory(entryChal, trChal), i, |progs|, progs[i], times[i], addrs[i], curs[i]);
              next.None? || next.value !in committed
    ensures nexts.Some? ==> |nexts.value| == |progs| && forall l | l in nexts.value :: l in committed
    ensures nexts.Some? && progs != [] ==> curs[0].timeEval == 1 && curs[0].addrEval == 1 && curs[0].last.addr == 0
    ensures nexts.Some? && progs != [] && Linked(curs, nexts.value) ==>
              ChainSatisfied(RomMemory(entryChal, trChal), progs, times, addrs, [curs[0]] + nexts.value)
    ensures nexts.Some? && progs != [] && Linked(curs, nexts.value)
            && |Flatten(times)| < P && multiset(Flatten(times)) == multiset(Flatten(addrs)) ==>
              && Consistent(Flatten(times))
              && forall i | 0 <= i < |progs| ::
                   SetsAgree(progs[i], [], Vals(times[i])) && EnforcesHold(progs[i], [], Vals(times[i]))
  {
    hide NextLeaf, RomFactor, Consistent, SetsAgree, EnforcesHold, Flatten, ChainSatisfied, Linked;
    ghost var mem := RomMemory(entryChal, trChal);
    var leaves := [];
    for i := 0 to |progs|
      invariant |leaves| == i
      invariant forall k | 0 <= k < i :: leaves[k] in committed
      invariant forall k | 0 <= k < i ::
                  NextLeaf(mem, k, |progs|, progs[k], times[k], addrs[k], curs[k]) == Some(leaves[k])
      invariant i > 0 ==> curs[0].timeEval == 1 && curs[0].addrEval == 1 && curs[0].last.addr == 0
    {
      var next := GenerateConstraints(i, |progs|, progs[i], times[i], addrs[i], curs[i], entryChal, trChal, committed);
      if next.None? {
        return None;
      }
      leaves := leaves + [next.value];
    }
    if progs != [] {
      ChainOfRequests(mem, progs, times, addrs, curs, leaves);
      if Linked(curs, leaves) && |Flatten(times)| < P && multiset(Flatten(times)) == multiset(Flatten(addrs)) {
        RomChainSound(entryChal, trChal, progs, times, addrs, [curs[0]] + leaves);
      }
    }
    nexts := Some(leaves);
  }

  // -------------------------------------------------------- counting bad challenges

  function Encoder(entryChal: F): RomEntryVar -> F {
    (e: RomEntryVar) => RomEncode(entryChal, e)
  }

  lemma {:induction false} EncodedEval(es: seq<RomEntryVar>, entryChal: F, trChal: F)
    ensures RunEval(1, es, RomFactor(entryChal, trChal))
         == RunEval(1, Map(Encoder(entryChal), es), Polynomial.LinFactor(trChal))
  {
    if es != [] {
      var n := |es| - 1;
      EncodedEval(es[..n], entryChal, trChal);
      assert Map(Encoder(entryChal), es)[..n] == Map(Encoder(entryChal), es[..n]);
    }
  }

  /** Two different entries are encoded alike under at most one challenge. */
  lemma EncodingCollidesOnce(d: RomEntryVar, e: RomEntryVar, x: F, y: F)
    requires d != e
    requires RomEncode(x, d) == RomEncode(x, e) && RomEncode(y, d) == RomEncode(y, e)
    ensures x == y
  {
    EncodeLift(x, d);
    EncodeLift(x, e);
    EncodeLift(y, d);
    EncodeLift(y, e);
    CongAdd(d.val + x * d.addr, e.val + x * e.addr, d.val + y * d.addr, e.val + y * e.addr);
    CollisionIdentity(x, y, d.addr, d.val);
    CollisionIdentity(x, y, e.addr, e.val);
    CongAdd((x - y) * d.addr, (x - y) * e.addr, (x - y) * e.addr, (x - y) * e.addr);
    assert (x - y) * d.addr - (x - y) * e.addr == (x - y) * (d.addr - e.addr);
    LiftSub(x, x, y, y);
    LiftSub(d.addr, d.addr, e.addr, e.addr);
    LiftMul(Sub(x, y), x - y, Sub(d.addr, e.addr), d.addr - e.addr);
    CongIsEqual(Mul(Sub(x, y), Sub(d.addr, e.addr)), 0);
    NoZeroDivisors(Sub(x, y), Sub(d.addr, e.addr));
    SubZero(x, y);
    SubZero(d.addr, e.addr);
    if d.addr == e.addr {
      CongAdd(d.val + x * d.addr, e.val + x * e.addr, x * d.addr, x * e.addr);
      CongIsEqual(d.val, e.val);
    }
  }

  lemma CollisionIdentity(x: int, y: int, a: int, v: int)
    ensures (v + x * a) - (v + y * a) == (x - y) * a
  {}

  lemma EncodeLift(x: F, e: RomEntryVar)
    ensures Cong(RomEncode(x, e), e.val + x * e.addr)
  {
    LiftMul(x, x, e.addr, e.addr);
    LiftAdd(e.val, e.val, Mul(x, e.addr), x * e.addr);
  }

  lemma SubMultisetFull<T>(a: multiset<T>, b: multiset<T>)
    ensures a <= b && |a| == |b| ==> a == b
  {
    if a <= b {
      assert b == a + (b - a);
    }
  }

  lemma MoreFrequent<T>(a: seq<T>, b: seq<T>) returns (e: T)
    requires |a| == |b| && multiset(a) != multiset(b)
    ensures multiset(a)[e] > multiset(b)[e]
  {
    SubMultisetFull(multiset(a), multiset(b));
    e :| multiset(a)[e] > multiset(b)[e];
  }

  lemma {:induction false} MapCount<A, B>(f: A -> B, s: seq<A>, e: A)
    ensures multiset(Map(f, s))[f(e)] >= multiset(s)[e]
    ensures (forall x | x in s && f(x) == f(e) :: x == e) ==> multiset(Map(f, s))[f(e)] == multiset(s)[e]
  {
    if s != [] {
      var n := |s| - 1;
      MapCount(f, s[..n], e);
      assert s == s[..n] + [s[n]];
      assert multiset(Map(f, s)) == multiset(Map(f, s[..n])) + multiset{f(s[n])};
      assert s[n] in s;
      assert forall x | x in s[..n] :: x in s;
    }
  }

  /** If two different traces of one length are encoded alike, some entry of the second
      collides with the chosen entry. */
  lemma CollidingEntry(a: seq<RomEntryVar>, b: seq<RomEntryVar>, e: RomEntryVar, entryChal: F)
    requires multiset(a)[e] > multiset(b)[e]
    requires multiset(Map(Encoder(entryChal), a)) == multiset(Map(Encoder(entryChal), b))
    ensures Collides(b, e, entryChal)
  {
    var f := Encoder(entryChal);
    MapCount(f, a, e);
    MapCount(f, b, e);
    var d :| d in b && f(d) == f(e) && d != e;
    assert CollidesWith(d, e, entryChal);
  }

  /** The challenges under which two traces are encoded alike. */
  ghost function BadEntryChals(a: seq<RomEntryVar>, b: seq<RomEntryVar>): set<F> {
    set x: F | 0 <= x < P && multiset(Map(Encoder(x), a)) == multiset(Map(Encoder(x), b))
  }

  /** There are no more of them than entries. */
  lemma BadEntryChalsBound(a: seq<RomEntryVar>, b: seq<RomEntryVar>)
    requires |a| == |b| && multiset(a) != multiset(b)
    ensures |BadEntryChals(a, b)| <= |b|
  {
    var e := MoreFrequent(a, b);
    var bad := BadEntryChals(a, b);
    forall x | x in bad ensures Collides(b, e, x) {
      CollidingEntry(a, b, e, x);
    }
    CollisionsBounded(b, e, bad);
  }

  predicate CollidesWith(d: RomEntryVar, e: RomEntryVar, x: F) {
    d != e && RomEncode(x, d) == RomEncode(x, e)
  }

  ghost predicate Collides(b: seq<RomEntryVar>, e: RomEntryVar, x: F) {
    exists d :: d in b && CollidesWith(d, e, x)
  }

  lemma {:induction false} CollisionsBounded(b: seq<RomEntryVar>, e: RomEntryVar, bad: set<F>)
    requires forall x | x in bad :: Collides(b, e, x)
    ensures |bad| <= |b|
  {
    if b == [] {
      assert bad == {};
    } else {
      var n := |b| - 1;
      assert b == b[..n] + [b[n]];
      if x :| x in bad && CollidesWith(b[n], e, x) {
        forall y | y in bad - {x} ensures Collides(b[..n], e, y) {
          assert Collides(b, e, y);
          if CollidesWith(b[n], e, y) {
            EncodingCollidesOnce(b[n], e, x, y);
          }
        }
        CollisionsBounded(b[..n], e, bad - {x});
      } else {
        forall y | y in bad ensures Collides(b[..n], e, y) {
          assert Collides(b, e, y);
        }
        CollisionsBounded(b[..n], e, bad);
      }
    }
  }

  /** Some choice of leaves satisfies the chain under these challenges. */
  ghost predicate Satisfiable(entryChal: F, trChal: F, progs: seq<seq<PortalOp>>,
                              times: seq<seq<RomEntryVar>>, addrs: seq<seq<RomEntryVar>>)
    requires Consumes(progs, times, addrs)
  {
    exists leaves :: ChainSatisfied(RomMemory(entryChal, trChal), progs, times, addrs, leaves)
  }

  predicate SameEncodedEval(a: seq<RomEntryVar>, b: seq<RomEntryVar>, entryChal: F, trChal: F) {
    RunEval(1, Map(Encoder(entryChal), a), Polynomial.LinFactor(trChal))
    == RunEval(1, Map(Encoder(entryChal), b), Polynomial.LinFactor(trChal))
  }

  lemma SatisfiableMeaning(entryChal: F, trChal: F, progs: seq<seq<PortalOp>>,
                           times: seq<seq<RomEntryVar>>, addrs: seq<seq<RomEntryVar>>)
    requires progs != [] && Consumes(progs, times, addrs) && |Flatten(addrs)| < P
    requires Satisfiable(entryChal, trChal, progs, times, addrs)
    ensures Consistent(Flatten(addrs))
    ensures SameEncodedEval(Flatten(times), Flatten(addrs), entryChal, trChal)
  {
    var leaves :| ChainSatisfied(RomMemory(entryChal, trChal), progs, times, addrs, leaves);
    ChainMeaning(entryChal, trChal, progs, times, addrs, leaves);
    EncodedEval(Flatten(times), entryChal, trChal);
    EncodedEval(Flatten(addrs), entryChal, trChal);
  }

  /** The entry challenges that may hide an inconsistent trace. */
  ghost function ExcludedEntryChals(a: seq<RomEntryVar>, b: seq<RomEntryVar>): set<F> {
    if multiset(a) == multiset(b) then {} else BadEntryChals(a, b)
  }

  /** Traces fixed before the challenges are drawn: if the time-ordered trace is not
      consistent, then outside at most `n` values of the entry challenge, fewer than `n`
      values of the trace challenge leave the chain satisfiable at all, `n` being the
      length of the trace. */
  lemma RomSoundnessError(progs: seq<seq<PortalOp>>, times: seq<seq<RomEntryVar>>, addrs: seq<seq<RomEntryVar>>,
                          entryChal: F, points: set<F>)
    requires progs != [] && Consumes(progs, times, addrs) && |Flatten(times)| < P
    requires !Consistent(Flatten(times))
    ensures |ExcludedEntryChals(Flatten(times), Flatten(addrs))| <= |Flatten(times)|
    ensures entryChal !in ExcludedEntryChals(Flatten(times), Flatten(addrs))
            && (forall t | t in points :: Satisfiable(entryChal, t, progs, times, addrs))
            ==> |points| < |Flatten(times)|
  {
    SameShapeLength(times, addrs);
    var a, b := Flatten(times), Flatten(addrs);
    if multiset(a) != multiset(b) {
      BadEntryChalsBound(a, b);
    }
    if entryChal !in ExcludedEntryChals(a, b)
      && forall t | t in points :: Satisfiable(entryChal, t, progs, times, addrs)
    {
      forall t | t in points
        ensures Consistent(b)
        ensures SameEncodedEval(a, b, entryChal, t)
      {
        SatisfiableMeaning(entryChal, t, progs, times, addrs);
      }
      PointsBound(a, b, entryChal, points);
    }
  }

  lemma PointsBound(a: seq<RomEntryVar>, b: seq<RomEntryVar>, entryChal: F, points: set<F>)
    requires |a| == |b| && !Consistent(a) && entryChal !in ExcludedEntryChals(a, b)
    requires points != {} ==> Consistent(b)
    requires forall t | t in points :: SameEncodedEval(a, b, entryChal, t)
    ensures |points| < |a|
  {
    if points != {} {
      if multiset(a) == multiset(b) {
        ConsistentRearranged(a, b);
      }
      assert forall t | t in points :: SameEncodedEval(a, b, entryChal, t);
      Polynomial.AgreementBound(Map(Encoder(entryChal), a), Map(Encoder(entryChal), b), points);
    }
  }

  // ------------------------------------------------------------- what is not checked

  function AccessNames(progs: seq<seq<PortalOp>>): seq<string> {
    if progs == [] then [] else AccessNames(progs[..|progs| - 1]) + Names(progs[|progs| - 1])
  }

  lemma {:induction false} AccessNamesLength<E>(progs: seq<seq<PortalOp>>, times: seq<seq<E>>)
    requires |progs| == |times| && forall i | 0 <= i < |progs| :: |times[i]| == PortalOps(progs[i])
    ensures |AccessNames(progs)| == |Flatten(times)|
  {
    if progs != [] {
      AccessNamesLength(progs[..|progs| - 1], times[..|times| - 1]);
    }
  }

  /** The wire names play no role in the constraints. Wire consistency follows for runs whose
      trace uses one address per wire name. */
  lemma WireConsistency(entryChal: F, trChal: F, progs: seq<seq<PortalOp>>,
                        times: seq<seq<RomEntryVar>>, addrs: seq<seq<RomEntryVar>>,
                        leaves: seq<Leaf<RomEntryVar>>, j: nat, k: nat)
    requires progs != [] && Consumes(progs, times, addrs) && |Flatten(times)| < P
    requires multiset(Flatten(times)) == multiset(Flatten(addrs))
    requires ChainSatisfied(RomMemory(entryChal, trChal), progs, times, addrs, leaves)
    requires |AccessNames(progs)| == |Flatten(times)|
    requires forall l, m | 0 <= l < |Flatten(times)| && 0 <= m < |Flatten(times)|
               && AccessNames(progs)[l] == AccessNames(progs)[m] :: Flatten(times)[l].addr == Flatten(times)[m].addr
    requires j < |Flatten(times)| && k < |Flatten(times)| && AccessNames(progs)[j] == AccessNames(progs)[k]
    ensures Flatten(times)[j].val == Flatten(times)[k].val
  {
    RomChainSound(entryChal, trChal, progs, times, addrs, leaves);
  }

  /** Without that, an accepted run can answer a read of a wire with a value other than the
      one written: write 1 to `x`, then read 0 from `x`, at two addresses. */
  lemma WireNamesAreNotBound(entryChal: F, trChal: F)
    ensures var ops := [Set("x", (seen: seq<F>) => 1), Get("x")];
            var time := [RomEntryVar(1, 1), RomEntryVar(Add(1, 1), 0)];
            var start := Leaf(1, 1, RomEntryVar(0, 0));
            |time| == PortalOps(ops) && Names(ops) == ["x", "x"]
            && NextLeaf(RomMemory(entryChal, trChal), 0, 1, ops, time, time, start).Some?
  {
    var ops := [Set("x", (seen: seq<F>) => 1), Get("x")];
    var time := [RomEntryVar(1, 1), RomEntryVar(Add(1, 1), 0)];
    var mem := RomMemory(entryChal, trChal);
    assert ops[1..] == [Get("x")] && ops[1..][1..] == [];
    DivisionUnique(0 + 1, 0, 1);
    SubZero(Add(1, 1), 1);
    assert Add(1, 1) != 1 by {
      if Add(1, 1) == 1 {
        CongRed(1 + 1);
        CongAdd(1, 1 + 1, 1, 1);
        CongIsEqual(0, 1);
      }
    }
    var full := [RomEntryVar(0, 0)] + time;
    assert RomWindowOk(full[0], full[1]) && RomWindowOk(full[1], full[2]);
    assert Values(mem, time)[1..] == [0];
    assert SetsAgree(ops[1..], [], Values(mem, time)[1..]);
    assert EnforcesHold(ops[1..], [], Values(mem, time)[1..]);
  }

  /** The coordinator's requests, and the leaves the subcircuits produce from them. */
  predicate Answers<E(==)>(mem: Memory<E>, progs: seq<seq<PortalOp>>, times: seq<seq<E>>, addrs: seq<seq<E>>,
                       committed: seq<Leaf<E>>, padding: E, nexts: seq<Leaf<E>>)
    requires Consumes(progs, times, addrs) && |committed| == |nexts| == |progs|
  {
    forall i | 0 <= i < |progs| ::
      NextLeaf(mem, i, |progs|, progs[i], times[i], addrs[i], CurLeaf(committed, padding, i)) == Some(nexts[i])
  }

  /** The coordinator's requests start subcircuit `i` from committed leaf `i - 1`. When all
      constraints hold, the committed leaves are a chain exactly when every subcircuit produced
      its own committed leaf, which is more than membership. */
  lemma OwnLeafIffChain<E>(mem: Memory<E>, progs: seq<seq<PortalOp>>, times: seq<seq<E>>, addrs: seq<seq<E>>,
                           committed: seq<Leaf<E>>, padding: E, nexts: seq<Leaf<E>>)
    requires Consumes(progs, times, addrs) && |committed| == |nexts| == |progs|
    requires Answers(mem, progs, times, addrs, committed, padding, nexts)
    ensures ChainSatisfied(mem, progs, times, addrs, [Leaf(1, 1, padding)] + committed) <==> nexts == committed
  {
    hide NextLeaf;
    var leaves := [Leaf(1, 1, padding)] + committed;
    forall i | 0 <= i < |progs|
      ensures leaves[i] == CurLeaf(committed, padding, i) && leaves[i + 1] == committed[i]
    {}
    if ChainSatisfied(mem, progs, times, addrs, leaves) {
      forall i | 0 <= i < |progs| ensures nexts[i] == committed[i] {
        assert NextLeaf(mem, i, |progs|, progs[i], times[i], addrs[i], leaves[i]) == Some(leaves[i + 1]);
      }
    }
  }

  /** A subcircuit with one access and no check of its own, with equal traces. */
  lemma OneAccess(entryChal: F, trChal: F, idx: nat, n: nat, ops: seq<PortalOp>, e: RomEntryVar,
                  cur: Leaf<RomEntryVar>)
    requires |ops| == 1 && (ops[0].Get? || (ops[0].Set? && ops[0].value([]) == e.val))
    requires idx == 0 ==> cur.timeEval == 1 && cur.addrEval == 1 && cur.last.addr == 0
    requires cur.timeEval == cur.addrEval && RomWindowOk(cur.last, e)
    ensures PortalOps(ops) == 1
    ensures var mem := RomMemory(entryChal, trChal);
            var eval := Mul(cur.timeEval, mem.factor(e));
            NextLeaf(mem, idx, n, ops, [e], [e], cur) == Some(Leaf(eval, eval, e))
  {
    hide RomFactor, Mul;
    var mem := RomMemory(entryChal, trChal);
    assert ops[1..] == [] && [e.val][1..] == [];
    assert [e][..0] == [] && Values(mem, [e]) == [e.val];
    assert SetsAgree(ops, [], [e.val]) && EnforcesHold(ops, [], [e.val]);
    assert [cur.last] + [e] == [cur.last, e];
    assert RomWindows([cur.last] + [e]);
    assert RunEval(cur.timeEval, [e], mem.factor) == Mul(cur.timeEval, mem.factor(e));
    assert LastEntry(cur.last, [e]) == e;
    assert mem.coherent([e], [cur.last] + [e]);
  }

  function TwoAccesses(): seq<seq<PortalOp>> {
    [[Set("x", (seen: seq<F>) => 0)], [Get("x")]]
  }

  function TwoValues(): (r: seq<seq<RomEntryVar>>)
    ensures |r| == 2
  {
    [[RomEntryVar(1, 0)], [RomEntryVar(1, 1)]]
  }

  lemma TwoAccessesConsume()
    ensures Consumes(TwoAccesses(), TwoValues(), TwoValues())
  {
    assert TwoAccesses()[0][1..] == [] && TwoAccesses()[1][1..] == [];
  }

  lemma TwoValuesInconsistent()
    ensures !Consistent(Flatten(TwoValues()))
  {
    hide Flatten;
    var write, read := RomEntryVar(1, 0), RomEntryVar(1, 1);
    FlattenTwo([write], [read]);
    var trace := Flatten(TwoValues());
    assert trace[0] == write && trace[1] == read;
  }

  lemma StartWindow(val: F)
    ensures RomWindowOk(RomEntryVar(0, 0), RomEntryVar(1, val))
  {
    DivisionUnique(1, 0, 1);
  }

  lemma NothingTimes(x: F)
    ensures Mul(0, x) == 0
  {
    DivisionUnique(0, 0, 0);
  }

  /** Membership alone is not sound: subcircuit 0 writes 0 to address 1, subcircuit 1 reads 1
      from it, each of the two leaves is committed, and both subcircuits are accepted under all
      challenges. They produce each other's leaf. */
  lemma MembershipHasNoIndex(entryChal: F, trChal: F)
    ensures Consumes(TwoAccesses(), TwoValues(), TwoValues()) && !Consistent(Flatten(TwoValues()))
    ensures exists nexts: seq<Leaf<RomEntryVar>> ::
              |nexts| == 2 && Answers(RomMemory(entryChal, trChal), TwoAccesses(), TwoValues(), TwoValues(),
                                      [nexts[1], nexts[0]], RomEntryVar(0, 0), nexts)
  {
    hide NextLeaf, RomFactor, Mul, Flatten, Consistent, Consumes;
    TwoValuesInconsistent();
    TwoAccessesConsume();
    var write, read := RomEntryVar(1, 0), RomEntryVar(1, 1);
    var mem := RomMemory(entryChal, trChal);
    StartWindow(0);
    OneAccess(entryChal, trChal, 0, 2, TwoAccesses()[0], write, Leaf(1, 1, RomEntryVar(0, 0)));
    OneAccess(entryChal, trChal, 1, 2, TwoAccesses()[1], read, Leaf(0, 0, read));
    var once, never := Mul(1, mem.factor(write)), Mul(0, mem.factor(read));
    assert never == 0 by { NothingTimes(mem.factor(read)); }
    var nexts := [Leaf(once, once, write), Leaf(never, never, read)];
    assert Answers(mem, TwoAccesses(), TwoValues(), TwoValues(), [nexts[1], nexts[0]], RomEntryVar(0, 0), nexts);
  }
}
