/** The honest RAM run after sorting: every neighbouring pair of the address-ordered trace is
    coherent, so only the circuit's own checks can fail anywhere in the chain. */
module RamChain {
  import opened Field
  import opened Sequences
  import opened Bits
  import opened Uint32
  import opened Transcript
  import opened PortalProgram
  import opened RomPortal
  import opened Coordinator
  import opened Subcircuit
  import opened RamPortal
  import opened RamCompleteness

  /** By address, then by time. */
  predicate RamLe(a: RamEntry, b: RamEntry) {
    a.addr < b.addr || (a.addr == b.addr && Stamp(a) <= Stamp(b))
  }

  const RamOrder := (a: RamEntry, b: RamEntry) => RamLe(a, b)

  /** What sorting an honest trace leaves between neighbours. */
  predicate Neighbours(a: RamEntry, b: RamEntry) {
    || (b.addr == a.addr && Stamp(b) > Stamp(a) && (b.read ==> b.val == a.val))
    || (b.addr == a.addr + 1 && !b.read)
  }

  lemma {:induction false} LastValAt(trace: seq<RamEntry>, p: nat, q: nat)
    requires p < q <= |trace|
    requires forall m | p < m < q :: trace[m].addr != trace[p].addr
    ensures LastVal(trace[..q], trace[p].addr) == Some(trace[p].val)
    decreases q
  {
    if p < q - 1 {
      LastValAt(trace, p, q - 1);
      assert trace[..q][..q - 1] == trace[..q - 1];
    }
  }

  lemma {:induction false} LastValNone(trace: seq<RamEntry>, q: nat, a: nat)
    requires q <= |trace|
    requires forall m | 0 <= m < q :: trace[m].addr != a
    ensures LastVal(trace[..q], a) == None
    decreases q
  {
    if q > 0 {
      LastValNone(trace, q - 1, a);
      assert trace[..q][..q - 1] == trace[..q - 1];
    }
  }

  /** Stamped entries are distinct, so each occurs once. */
  lemma {:induction false} OccursOnce(trace: seq<RamEntry>, x: RamEntry)
    requires forall k | 0 <= k < |trace| :: Stamp(trace[k]) == k
    ensures multiset(trace)[x] <= 1
    ensures Stamp(x) >= |trace| ==> multiset(trace)[x] == 0
    decreases |trace|
  {
    if trace != [] {
      var n := |trace| - 1;
      OccursOnce(trace[..n], x);
      assert trace == trace[..n] + [trace[n]];
    }
  }

  lemma TwiceInARow(es: seq<RamEntry>, k: nat)
    requires k + 1 < |es| && es[k] == es[k + 1]
    ensures multiset(es)[es[k]] >= 2
  {
    assert es == es[..k] + [es[k], es[k + 1]] + es[k + 2..];
  }

  ghost predicate SortedHonest(trace: seq<RamEntry>, next: nat, es: seq<RamEntry>) {
    HonestTrace(trace, next) && multiset(es) == multiset(trace) && SortedBy(es, RamOrder)
  }

  /** A sorted entry sits in the trace at the position its stamp says. */
  lemma WhereItWas(trace: seq<RamEntry>, next: nat, es: seq<RamEntry>, k: nat)
    requires SortedHonest(trace, next, es) && k < |es|
    ensures Stamp(es[k]) < |trace| && trace[Stamp(es[k])] == es[k]
  {
    hide Stamp;
    assert es[k] in es;
    MultisetMember(es, trace, es[k]);
  }

  lemma InOrder(es: seq<RamEntry>, i: nat, j: nat)
    requires SortedBy(es, RamOrder) && i <= j < |es|
    ensures RamLe(es[i], es[j])
  {
    assert i < j ==> RamOrder(es[i], es[j]);
  }

  lemma StampsDiffer(trace: seq<RamEntry>, next: nat, es: seq<RamEntry>, k: nat)
    requires SortedHonest(trace, next, es) && k + 1 < |es|
    ensures Stamp(es[k]) != Stamp(es[k + 1])
  {
    hide Stamp;
    WhereItWas(trace, next, es, k);
    WhereItWas(trace, next, es, k + 1);
    if es[k] == es[k + 1] {
      TwiceInARow(es, k);
      OccursOnce(trace, es[k]);
    }
  }

  /** No entry lies strictly between two sorted neighbours. */
  lemma NothingBetween(trace: seq<RamEntry>, next: nat, es: seq<RamEntry>, k: nat, m: nat)
    requires SortedHonest(trace, next, es) && k + 1 < |es| && m < |trace|
    ensures RamLe(trace[m], es[k]) || RamLe(es[k + 1], trace[m])
  {
    hide RamLe, HonestTrace;
    assert trace[m] in trace;
    MultisetMember(es, trace, trace[m]);
    var j :| 0 <= j < |es| && es[j] == trace[m];
    if j <= k {
      InOrder(es, j, k);
    } else {
      InOrder(es, k + 1, j);
    }
  }

  /** Neighbours at one address: later, and a read repeats the value. */
  lemma SameAddress(trace: seq<RamEntry>, next: nat, es: seq<RamEntry>, k: nat)
    requires SortedHonest(trace, next, es) && k + 1 < |es| && es[k].addr == es[k + 1].addr
    ensures Neighbours(es[k], es[k + 1])
  {
    hide Stamp, LastVal;
    StampsDiffer(trace, next, es, k);
    InOrder(es, k, k + 1);
    WhereItWas(trace, next, es, k);
    WhereItWas(trace, next, es, k + 1);
    var p, q := Stamp(es[k]), Stamp(es[k + 1]);
    forall m | p < m < q ensures trace[m].addr != trace[p].addr {
      NothingBetween(trace, next, es, k, m);
    }
    LastValAt(trace, p, q);
  }

  /** Neighbours at different addresses: consecutive ones, and the new run starts with a
      write. */
  lemma NextAddress(trace: seq<RamEntry>, next: nat, es: seq<RamEntry>, k: nat)
    requires SortedHonest(trace, next, es) && k + 1 < |es| && es[k].addr != es[k + 1].addr
    ensures Neighbours(es[k], es[k + 1])
  {
    hide Stamp, LastVal;
    InOrder(es, k, k + 1);
    WhereItWas(trace, next, es, k);
    WhereItWas(trace, next, es, k + 1);
    var a := es[k].addr;
    assert Used(trace, a + 1);
    var j :| 0 <= j < |trace| && trace[j].addr == a + 1;
    NothingBetween(trace, next, es, k, j);
    var q := Stamp(es[k + 1]);
    forall m | 0 <= m < q ensures trace[m].addr != a + 1 {
      NothingBetween(trace, next, es, k, m);
    }
    LastValNone(trace, q, a + 1);
  }

  lemma FirstIsWrite(trace: seq<RamEntry>, next: nat, es: seq<RamEntry>)
    requires SortedHonest(trace, next, es) && es != []
    ensures !es[0].read
  {
    hide Stamp, LastVal;
    WhereItWas(trace, next, es, 0);
    var q := Stamp(es[0]);
    forall m | 0 <= m < q ensures trace[m].addr != es[0].addr {
      assert trace[m] in trace;
      MultisetMember(es, trace, trace[m]);
      var j :| 0 <= j < |es| && es[j] == trace[m];
      InOrder(es, 0, j);
    }
    LastValNone(trace, q, es[0].addr);
  }

  /** Every run of equal addresses in the sorted trace starts with a write, and all
      neighbours are coherent. */
  lemma SortedNeighbours(trace: seq<RamEntry>, next: nat, es: seq<RamEntry>)
    requires SortedHonest(trace, next, es)
    ensures forall k | 0 <= k < |es| - 1 :: Neighbours(es[k], es[k + 1])
    ensures forall k | 0 <= k < |es| && (k == 0 || es[k - 1].addr != es[k].addr) :: !es[k].read
  {
    hide SortedHonest, Stamp, LastVal, HonestTrace;
    forall k | 0 <= k < |es| - 1 ensures Neighbours(es[k], es[k + 1]) {
      if es[k].addr == es[k + 1].addr {
        SameAddress(trace, next, es, k);
      } else {
        NextAddress(trace, next, es, k);
      }
    }
    forall k | 0 <= k < |es| && (k == 0 || es[k - 1].addr != es[k].addr) ensures !es[k].read {
      if k == 0 {
        FirstIsWrite(trace, next, es);
      } else {
        assert Neighbours(es[k - 1], es[k - 1 + 1]);
      }
    }
  }

  // -------------------------------------------------------------------- into the field

  lemma Successor(n: nat)
    ensures Red(n + 1) == Add(Red(n), 1) && Add(Red(n), 1) != Red(n)
  {
    CongRed(n);
    CongRed(n + 1);
    LiftAdd(Red(n), n, 1, 1);
    CongAdd(n + 1, n + 1, 0, 0);
    SameClass(Red(n + 1), Add(Red(n), 1), n + 1);
    if Add(Red(n), 1) == Red(n) {
      AddOneMoves(Red(n));
    }
  }

  lemma SameClass(a: F, b: F, x: int)
    requires Cong(a, x) && Cong(b, x)
    ensures a == b
  {
    var i := MultipleOfCong(a, x);
    var j := MultipleOfCong(b, x);
    assert a - b == i * P - j * P == (i - j) * P;
    MultipleBounds(i - j, P);
  }

  lemma AddOneMoves(x: F)
    ensures Add(x, 1) != x
  {
    if x + 1 < P {
      DivisionUnique(x + 1, 0, x + 1);
    } else {
      DivisionUnique(x + 1, 1, 0);
    }
  }

  lemma NeighboursPass(a: RamEntry, b: RamEntry)
    requires Neighbours(a, b)
    ensures RamWindowOk(ToRamVar(a), ToRamVar(b))
  {
    hide Red, Add;
    Successor(a.addr);
  }

  lemma ConsecutiveTicks(trace: seq<RamEntry>, next: nat, k: nat)
    requires HonestTrace(trace, next) && k + 1 < |trace| <= U32_LIMIT
    ensures Increment(trace[k].i) == trace[k + 1].i
  {
    hide FromBits, Increment, LastVal;
    IncrementAddsOne(trace[k].i);
    U32LimitIsPow2();
    assert Stamp(trace[k]) == k && Stamp(trace[k + 1]) == k + 1;
    ValueDetermines(Increment(trace[k].i), trace[k + 1].i);
  }

  // ------------------------------------------------------------------------- the chain

  ghost predicate RamSortedAs(addrs: seq<seq<RamEntry>>, times: seq<seq<RamEntry>>) {
    SameShape(addrs, times) && Flatten(addrs) == Sort(Flatten(times), RamOrder)
  }

  lemma RamOrderTotal()
    ensures TotalPreorder(RamOrder)
  {
    hide Stamp;
  }

  lemma SortIsSortedHonest(s: RamSetupState)
    requires RamInv(s)
    ensures SortedHonest(Flatten(s.subtraces), s.currentAddress, Sort(Flatten(s.subtraces), RamOrder))
  {
    RamOrderTotal();
    SortSorted(Flatten(s.subtraces), RamOrder);
    hide HonestTrace, TotalPreorder, Sort;
  }

  lemma SliceWindows(es: seq<RamEntry>, chunk: seq<RamEntry>, off: nat)
    requires off + |chunk| <= |es| && chunk == es[off..off + |chunk|]
    requires forall k | 0 <= k < |es| - 1 :: Neighbours(es[k], es[k + 1])
    ensures RamWindows(ToRamVars(chunk))
  {
    hide RamWindowOk, Neighbours, ToRamVar;
    forall k | 0 <= k < |chunk| - 1 ensures RamWindowOk(ToRamVars(chunk)[k], ToRamVars(chunk)[k + 1]) {
      assert chunk[k] == es[off + k] && chunk[k + 1] == es[off + k + 1];
      NeighboursPass(es[off + k], es[off + k + 1]);
    }
  }

  /** With all carries set, as an honest prover witnesses them. */
  lemma SliceSteps(trace: seq<RamEntry>, next: nat, chunk: seq<RamEntry>, off: nat)
    requires off + |chunk| <= |trace| <= U32_LIMIT && chunk == trace[off..off + |chunk|]
    requires HonestTrace(trace, next)
    ensures Steps(ToRamVars(chunk), HonestCarry) && ClockMoves(ToRamVars(chunk))
  {
    hide Increment, HonestTrace;
    forall k | 0 <= k < |chunk| - 1 ensures Increment(ToRamVars(chunk)[k].i) == ToRamVars(chunk)[k + 1].i {
      assert chunk[k] == trace[off + k] && chunk[k + 1] == trace[off + k + 1];
      ConsecutiveTicks(trace, next, off + k);
    }
    assert Steps(ToRamVars(chunk), HonestCarry);
    CarriesExistIff(ToRamVars(chunk));
  }

  /** A chunk of the sorted trace, and a chunk of the time-ordered one, pass the prover. */
  lemma ChunkCoherent(s: RamSetupState, addrs: seq<seq<RamEntry>>, i: nat, last: RamEntryVar)
    requires RamInv(s) && |Flatten(s.subtraces)| <= U32_LIMIT && RamSortedAs(addrs, s.subtraces) && i < |addrs|
    ensures RamCoherent(ToRamVars(s.subtraces[i]), [last] + ToRamVars(addrs[i]))
    ensures Steps(ToRamVars(s.subtraces[i]), HonestCarry)
  {
    hide Flatten, Sort, SortedHonest, HonestTrace, RamWindows, Steps, ClockMoves, ToRamVars, Neighbours, Tables;
    var flat, es := Flatten(s.subtraces), Flatten(addrs);
    SortIsSortedHonest(s);
    FlattenSlice(s.subtraces, i);
    FlattenSlice(addrs, i);
    SortedNeighbours(flat, s.currentAddress, es);
    SliceWindows(es, addrs[i], |Flatten(addrs[..i])|);
    SliceSteps(flat, s.currentAddress, s.subtraces[i], |Flatten(s.subtraces[..i])|);
    assert ([last] + ToRamVars(addrs[i]))[1..] == ToRamVars(addrs[i]);
  }

  function RamLeafToVar(l: Leaf<RamEntry>): Leaf<RamEntryVar> {
    Leaf(l.timeEval, l.addrEval, ToRamVar(l.last))
  }

  /** The coordinator's own product factor, over native integers. */
  function NativeRamFactor(c: RamChallenges): RamEntry -> F {
    (e: RamEntry) =>
      Sub(c.trace,
          Add(Add(Add(e.val, Mul(c.addr, Red(e.addr))), Mul(c.time, Red(Stamp(e)))),
              Mul(c.read, if e.read then 1 else 0)))
  }

  lemma {:induction false} NativeRamEvalIsVarEval(init: F, es: seq<RamEntry>, c: RamChallenges)
    ensures RunEval(init, es, NativeRamFactor(c)) == RunEval(init, ToRamVars(es), RamFactor(c))
  {
    if es != [] {
      NativeRamEvalIsVarEval(init, es[..|es| - 1], c);
      assert ToRamVars(es)[..|es| - 1] == ToRamVars(es[..|es| - 1]);
      hide FromBits, Red, Add, Mul, Sub;
    }
  }

  function RamLeaves(times: seq<seq<RamEntry>>, addrs: seq<seq<RamEntry>>, c: RamChallenges): seq<Leaf<RamEntry>>
    requires |times| == |addrs|
  {
    ExecLeaves(times, addrs, NativeRamFactor(c), RamPadding)
  }

  /** The last leaf carries equal running evaluations. */
  lemma FinalRamEvalsAgree(times: seq<seq<RamEntry>>, addrs: seq<seq<RamEntry>>, c: RamChallenges)
    requires times != [] && RamSortedAs(addrs, times)
    ensures var leaves := RamLeaves(times, addrs, c);
            leaves[|times| - 1].timeEval == leaves[|times| - 1].addrEval
  {
    hide Flatten, Sort, RunEval, NativeRamFactor;
    assert times[..|times|] == times && addrs[..|times|] == addrs;
    RunEvalPermutation(1, Flatten(times), Flatten(addrs), NativeRamFactor(c));
  }

  /** Subcircuit `i` of an honest run from the coordinator's leaf `i - 1`: only its own checks
      decide, the leaf produced is the coordinator's leaf `i`, and setting every carry meets
      the clock constraints. */
  lemma RamSubcircuitComplete(progs: seq<seq<PortalOp>>, addrs: seq<seq<RamEntry>>, c: RamChallenges, i: nat)
    requires RamSetupAll(progs).Some? && i < |progs| && TotalPortalOps(progs) <= U32_LIMIT
    requires RamSortedAs(addrs, RamSetupAll(progs).value.subtraces)
    ensures var times := RamSetupAll(progs).value.subtraces;
            && i < |times| && |times| == |addrs| == |progs|
            && |times[i]| == |addrs[i]| == PortalOps(progs[i])
            && Steps(ToRamVars(times[i]), HonestCarry)
            && FlagsMatch(progs[i], ToRamVars(times[i]))
            && var leaves := RamLeaves(times, addrs, c);
               NextLeaf(RamMemory(c), i, |progs|, progs[i], ToRamVars(times[i]), ToRamVars(addrs[i]),
                        RamLeafToVar(CurLeaf(leaves, RamPadding, i)))
               == (if EnforcesHold(progs[i], [], EntryValues(times[i])) then Some(RamLeafToVar(leaves[i])) else None)
    ensures i == 0 ==>
              var first := CurLeaf(RamLeaves(RamSetupAll(progs).value.subtraces, addrs, c), RamPadding, i);
              RamLeafToVar(first) == Leaf(1, 1, RamEntryVar(0, 0, LeBits(0, 32), false))
  {
    hide RamSetupAll, TotalPortalOps, RamInv, Flatten, Sort, RunEval, NativeRamFactor, RamFactor, RamCoherent,
         SetsAgree, EnforcesHold, ExecLeaf, Steps;
    RamSetupAllTrace(progs);
    var s := RamSetupAll(progs).value;
    var times := s.subtraces;
    var leaves := RamLeaves(times, addrs, c);
    var cur := CurLeaf(leaves, RamPadding, i);
    ExecLeafStep(times, addrs, NativeRamFactor(c), RamPadding, i);
    NativeRamEvalIsVarEval(cur.timeEval, times[i], c);
    NativeRamEvalIsVarEval(cur.addrEval, addrs[i], c);
    assert Values(RamMemory(c), ToRamVars(times[i])) == EntryValues(times[i]);
    ChunkCoherent(s, addrs, i, ToRamVar(cur.last));
    if i + 1 == |progs| {
      FinalRamEvalsAgree(times, addrs, c);
    }
    assert LastEntry(RamLeafToVar(cur).last, ToRamVars(addrs[i])) == ToRamVar(LastEntry(cur.last, addrs[i]));
    HonestFlags(progs[i], times[i]);
    PaddingIsZero();
  }

  lemma HonestFlags(ops: seq<PortalOp>, time: seq<RamEntry>)
    requires |time| == PortalOps(ops) && ReadFlags(time) == AccessReads(ops)
    ensures FlagsMatch(ops, ToRamVars(time))
  {
    hide AccessReads;
    forall k | 0 <= k < |time| ensures ToRamVars(time)[k].read == AccessReads(ops)[k] {
      assert ReadFlags(time)[k] == time[k].read;
    }
  }

  lemma PaddingIsZero()
    ensures ToRamVar(RamPadding) == RamEntryVar(0, 0, LeBits(0, 32), false)
  {
    DivisionUnique(0, 0, 0);
    hide LeBits;
  }

  /** Subcircuit `i` is accepted with the coordinator's leaves committed. */
  ghost predicate RamAcceptedAt(progs: seq<seq<PortalOp>>, times: seq<seq<RamEntry>>, addrs: seq<seq<RamEntry>>,
                                c: RamChallenges, i: nat)
    requires i < |progs| == |times| == |addrs| && |times[i]| == |addrs[i]| == PortalOps(progs[i])
  {
    var leaves := RamLeaves(times, addrs, c);
    Accepted(RamMemory(c), i, |progs|, progs[i], ToRamVars(times[i]), ToRamVars(addrs[i]),
             RamLeafToVar(CurLeaf(leaves, RamPadding, i)), Map(RamLeafToVar, leaves))
  }

  /** The whole honest chain: every subcircuit is accepted exactly when its own checks hold
      on the values recorded during setup. */
  lemma RamChainComplete(progs: seq<seq<PortalOp>>, addrs: seq<seq<RamEntry>>, c: RamChallenges)
    requires RamSetupAll(progs).Some? && TotalPortalOps(progs) <= U32_LIMIT
    requires RamSortedAs(addrs, RamSetupAll(progs).value.subtraces)
    ensures var times := RamSetupAll(progs).value.subtraces;
            |times| == |addrs| == |progs|
            && forall i | 0 <= i < |progs| ::
                 && |times[i]| == |addrs[i]| == PortalOps(progs[i])
                 && (RamAcceptedAt(progs, times, addrs, c, i) <==> EnforcesHold(progs[i], [], EntryValues(times[i])))
  {
    hide RamSetupAll, RamAcceptedAt, RamSortedAs, EnforcesHold, TotalPortalOps, RamInv;
    RamSetupAllTrace(progs);
    var times := RamSetupAll(progs).value.subtraces;
    assert |addrs| == |progs| by { ShapeOf(addrs, times); }
    forall i | 0 <= i < |progs|
      ensures |times[i]| == |addrs[i]| == PortalOps(progs[i])
      ensures RamAcceptedAt(progs, times, addrs, c, i) <==> EnforcesHold(progs[i], [], EntryValues(times[i]))
    {
      RamAcceptedIff(progs, addrs, c, i);
    }
  }

  lemma ShapeOf(addrs: seq<seq<RamEntry>>, times: seq<seq<RamEntry>>)
    requires RamSortedAs(addrs, times)
    ensures |addrs| == |times|
  {}

  lemma RamAcceptedIff(progs: seq<seq<PortalOp>>, addrs: seq<seq<RamEntry>>, c: RamChallenges, i: nat)
    requires RamSetupAll(progs).Some? && i < |progs| && TotalPortalOps(progs) <= U32_LIMIT
    requires RamSortedAs(addrs, RamSetupAll(progs).value.subtraces)
    ensures var times := RamSetupAll(progs).value.subtraces;
            && |times| == |addrs| == |progs|
            && |times[i]| == |addrs[i]| == PortalOps(progs[i])
            && (RamAcceptedAt(progs, times, addrs, c, i) <==> EnforcesHold(progs[i], [], EntryValues(times[i])))
  {
    hide RamSetupAll, NextLeaf, RamMemory, ToRamVars, RamLeafToVar, RamSortedAs, EnforcesHold;
    RamSubcircuitComplete(progs, addrs, c, i);
    var leaves := RamLeaves(RamSetupAll(progs).value.subtraces, addrs, c);
    assert Map(RamLeafToVar, leaves)[i] == RamLeafToVar(leaves[i]);
  }
}
