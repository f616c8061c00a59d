/** One subcircuit of the distributed proof, and the chain they form. A memory argument is
    described by how entries are folded, which entry is padding, and which local coherence
    the prover's portal manager enforces. */
module Subcircuit {
  import opened Field
  import opened Sequences
  import opened Transcript
  import opened PortalProgram
  import opened RomPortal
  import opened Coordinator

  datatype Memory<!E> = Memory(
    factor: E -> F,
    isPadding: E -> bool,
    value: E -> F,
    // time-ordered subtrace; address-ordered subtrace with the previous leaf's entry in front
    coherent: (seq<E>, seq<E>) -> bool)

  function Values<E>(mem: Memory<E>, es: seq<E>): seq<F> {
    Map(mem.value, es)
  }

  /** The leaf a satisfied subcircuit produces, `None` if some constraint fails. The program
      is taken to consume exactly its subtrace; the source's own check of that is disabled. */
  function NextLeaf<E>(mem: Memory<E>, idx: nat, numSubcircuits: nat, ops: seq<PortalOp>,
                       time: seq<E>, addrs: seq<E>, cur: Leaf<E>): Option<Leaf<E>>
    requires |time| == |addrs| == PortalOps(ops)
  {
    var next := Leaf(RunEval(cur.timeEval, time, mem.factor), RunEval(cur.addrEval, addrs, mem.factor),
                     LastEntry(cur.last, addrs));
    if && (idx == 0 ==> cur.timeEval == 1 && cur.addrEval == 1 && mem.isPadding(cur.last))
       && SetsAgree(ops, [], Values(mem, time))
       && EnforcesHold(ops, [], Values(mem, time))
       && mem.coherent(time, [cur.last] + addrs)
       && (idx + 1 == numSubcircuits ==> next.timeEval == next.addrEval)
    then Some(next) else None
  }

  /** A subcircuit is accepted when its constraints hold and its next leaf is one of the
      committed leaves: the membership proof does not say at which index. */
  predicate Accepted<E(==)>(mem: Memory<E>, idx: nat, numSubcircuits: nat, ops: seq<PortalOp>,
                        time: seq<E>, addrs: seq<E>, cur: Leaf<E>, committed: seq<Leaf<E>>)
    requires |time| == |addrs| == PortalOps(ops)
  {
    var next := NextLeaf(mem, idx, numSubcircuits, ops, time, addrs, cur);
    next.Some? && next.value in committed
  }

  /** Each program consumes exactly its two subtraces. */
  predicate Consumes<E>(progs: seq<seq<PortalOp>>, times: seq<seq<E>>, addrs: seq<seq<E>>) {
    && |progs| == |times| == |addrs|
    && forall i | 0 <= i < |progs| :: |times[i]| == |addrs[i]| == PortalOps(progs[i])
  }

  /** A chain of satisfied subcircuits, each starting from the leaf the previous one
      produced, which is how the coordinator's requests link them. */
  predicate ChainSatisfied<E(==)>(mem: Memory<E>, progs: seq<seq<PortalOp>>, times: seq<seq<E>>, addrs: seq<seq<E>>,
                              leaves: seq<Leaf<E>>)
    requires Consumes(progs, times, addrs)
  {
    && |leaves| == |progs| + 1
    && forall i | 0 <= i < |progs| ::
         NextLeaf(mem, i, |progs|, progs[i], times[i], addrs[i], leaves[i]) == Some(leaves[i + 1])
  }

  /** Every subcircuit starts from the leaf that the one before it produced. */
  predicate Linked<E(==)>(curs: seq<Leaf<E>>, nexts: seq<Leaf<E>>) {
    && |curs| == |nexts|
    && forall i | 0 < i < |curs| :: curs[i] == nexts[i - 1]
  }

  /** Subcircuits run one by one form a chain exactly when they are linked. */
  lemma ChainOfRequests<E>(mem: Memory<E>, progs: seq<seq<PortalOp>>, times: seq<seq<E>>, addrs: seq<seq<E>>,
                           curs: seq<Leaf<E>>, nexts: seq<Leaf<E>>)
    requires Consumes(progs, times, addrs) && |curs| == |nexts| == |progs| > 0
    requires forall i | 0 <= i < |progs| ::
               NextLeaf(mem, i, |progs|, progs[i], times[i], addrs[i], curs[i]) == Some(nexts[i])
    ensures Linked(curs, nexts) ==> ChainSatisfied(mem, progs, times, addrs, [curs[0]] + nexts)
  {
    hide NextLeaf, Consumes;
    if Linked(curs, nexts) {
      var leaves := [curs[0]] + nexts;
      forall i | 0 <= i < |progs|
        ensures leaves[i] == curs[i] && leaves[i + 1] == nexts[i]
      {}
    }
  }

  // ------------------------------------------------------------------ ROM instance

  function RomMemory(entryChal: F, trChal: F): Memory<RomEntryVar> {
    Memory(RomFactor(entryChal, trChal), (e: RomEntryVar) => RomIsPadding(e), (e: RomEntryVar) => e.val,
           (time: seq<RomEntryVar>, addrs: seq<RomEntryVar>) => RomWindows(addrs))
  }

  /** Stage 1 of the subcircuit prover for a ROM circuit. `None` stands for a panic or an
      unsatisfied constraint. */
  method GenerateConstraints(
    idx: nat, numSubcircuits: nat, ops: seq<PortalOp>, time: seq<RomEntryVar>, addrs: seq<RomEntryVar>,
    cur: Leaf<RomEntryVar>, entryChal: F, trChal: F, committed: seq<Leaf<RomEntryVar>>)
    returns (r: Option<Leaf<RomEntryVar>>)
    ensures |time| == |addrs| == PortalOps(ops) ==>
      var mem := RomMemory(entryChal, trChal);
      && (r.Some? <==> Accepted(mem, idx, numSubcircuits, ops, time, addrs, cur, committed))
      && (r.Some? ==> r == NextLeaf(mem, idx, numSubcircuits, ops, time, addrs, cur))
    ensures r.Some? ==> r.value in committed
    ensures r.Some? && idx == 0 ==> cur.timeEval == 1 && cur.addrEval == 1 && cur.last.addr == 0
    ensures r.Some? && idx + 1 == numSubcircuits ==> r.value.timeEval == r.value.addrEval
  {
    var firstOk := idx == 0 ==> cur.timeEval == 1 && cur.addrEval == 1 && RomIsPadding(cur.last);
    var evals := new RunningEvaluation(cur.timeEval, cur.addrEval, RomFactor(entryChal, trChal));
    var fullAddrs := [cur.last] + addrs;
    var lastSubtraceEntry := fullAddrs[|fullAddrs| - 1];
    var pm := new RomProverPortalManager(time, fullAddrs, evals);
    ghost var start := pm.State();
    var ran := RunSubcircuitProver(pm, ops);
    if |time| == |addrs| == PortalOps(ops) {
      RunProverMeaning(ops, time, fullAddrs, RomFactor(entryChal, trChal), start, []);
      assert time[0..] == time && fullAddrs[0..] == fullAddrs && fullAddrs[0 + 1..] == addrs;
      assert Vals(time) == Values(RomMemory(entryChal, trChal), time);
    }
    if ran.None? || !firstOk || !pm.satisfied {
      return None;
    }
    var next := Leaf(evals.timeOrderedEval, evals.addrOrderedEval, lastSubtraceEntry);
    if next !in committed || (idx + 1 == numSubcircuits && next.timeEval != next.addrEval) {
      return None;
    }
    r := Some(next);
  }
}
