/** Completeness of the ROM memory argument: an honestly collected and sorted trace makes
    every subcircuit of the chain satisfiable, and only the circuit's own checks can fail. */
module RomCompleteness {
  import opened Field
  import opened Sequences
  import opened Transcript
  import opened PortalProgram
  import opened RomPortal
  import opened Coordinator
  import opened Subcircuit

  // -------------------------------------------------- what the setup manager keeps

  /** Wires and addresses `1 .. next - 1` correspond one to one, and the trace consists of
      copies of the wires' entries, each wire's entry occurring in it. */
  ghost predicate TraceInv(trace: seq<RomEntry>, next: nat, varMap: map<string, RomEntry>) {
    && 1 <= next
    && (forall n | n in varMap :: 1 <= varMap[n].addr < next && varMap[n] in trace)
    && (forall n, m | n in varMap && m in varMap && varMap[n].addr == varMap[m].addr :: n == m)
    && (forall e | e in trace :: IsWireEntry(varMap, e))
    && (forall a | 1 <= a < next :: HasAddr(varMap, a))
  }

  ghost predicate IsWireEntry(varMap: map<string, RomEntry>, e: RomEntry) {
    exists n :: n in varMap && varMap[n] == e
  }

  ghost predicate HasAddr(varMap: map<string, RomEntry>, a: nat) {
    exists n :: n in varMap && varMap[n].addr == a
  }

  ghost predicate SetupInv(s: SetupState) {
    TraceInv(Flatten(s.subtraces), s.nextVarAddr, s.varMap) && s.nextVarAddr < U64_LIMIT
  }

  lemma LogFlattens(s: SetupState, e: RomEntry)
    requires s.subtraces != []
    ensures Flatten(Log(s, e).subtraces) == Flatten(s.subtraces) + [e]
  {
    var n := |s.subtraces| - 1;
    FlattenSnoc(s.subtraces[..n], s.subtraces[n] + [e]);
    assert s.subtraces == s.subtraces[..n] + [s.subtraces[n]];
    assert Log(s, e).subtraces[..n] == s.subtraces[..n];
  }

  lemma TraceInvRead(trace: seq<RomEntry>, next: nat, varMap: map<string, RomEntry>, name: string)
    requires TraceInv(trace, next, varMap) && name in varMap
    ensures TraceInv(trace + [varMap[name]], next, varMap)
  {}

  lemma TraceInvWrite(trace: seq<RomEntry>, next: nat, varMap: map<string, RomEntry>, name: string, val: F)
    requires TraceInv(trace, next, varMap) && name !in varMap
    ensures TraceInv(trace + [RomEntry(next, val)], next + 1, varMap[name := RomEntry(next, val)])
  {
    var e := RomEntry(next, val);
    var varMap' := varMap[name := e];
    forall d | d in trace + [e] ensures IsWireEntry(varMap', d) {
      if d in trace {
        var n :| n in varMap && varMap[n] == d;
        assert varMap'[n] == d;
      } else {
        assert varMap'[name] == d;
      }
    }
    forall a | 1 <= a < next + 1 ensures HasAddr(varMap', a) {
      if a == next {
        assert varMap'[name].addr == a;
      } else {
        assert HasAddr(varMap, a);
        var n :| n in varMap && varMap[n].addr == a;
        assert varMap'[n].addr == a;
      }
    }
  }

  /** A whole subcircuit keeps the invariant. */
  lemma {:induction false} RunSetupKeeps(ops: seq<PortalOp>, s: SetupState, seen: seq<F>)
    requires SetupInv(s) && s.subtraces != [] && RunSetup(ops, s, seen).Some?
    ensures SetupInv(RunSetup(ops, s, seen).value.0)
    decreases |ops|
  {
    if ops != [] {
      match ops[0]
      case Get(name) =>
        var e := s.varMap[name];
        LogFlattens(s, e);
        TraceInvRead(Flatten(s.subtraces), s.nextVarAddr, s.varMap, name);
        RunSetupKeeps(ops[1..], Log(s, e), seen + [e.val]);
      case Set(name, value) =>
        var v := value(seen);
        var s' := SetupSet(s, name, v).value;
        LogFlattens(s.(nextVarAddr := s.nextVarAddr + 1, varMap := s'.varMap), RomEntry(s.nextVarAddr, v));
        TraceInvWrite(Flatten(s.subtraces), s.nextVarAddr, s.varMap, name, v);
        RunSetupKeeps(ops[1..], s', seen);
      case Enforce(_) =>
        RunSetupKeeps(ops[1..], s, seen);
    }
  }

  function EntryVals(es: seq<RomEntry>): seq<F> {
    seq(|es|, i requires 0 <= i < |es| => es[i].val)
  }

  /** A subcircuit only extends the open subtrace, by exactly one entry per access, and the
      recorded values are the ones it read and wrote. */
  lemma {:induction false} RunSetupTrace(ops: seq<PortalOp>, s: SetupState, seen: seq<F>) returns (t: seq<RomEntry>)
    requires s.subtraces != [] && RunSetup(ops, s, seen).Some?
    ensures var res := RunSetup(ops, s, seen).value;
            var n := |s.subtraces| - 1;
            && res.0.subtraces == s.subtraces[..n] + [s.subtraces[n] + t]
            && |t| == PortalOps(ops)
            && SetsAgree(ops, seen, EntryVals(t))
            && res.1 == ReadsAfter(ops, seen, EntryVals(t))
    decreases |ops|
  {
    var n := |s.subtraces| - 1;
    if ops == [] {
      t := [];
      assert s.subtraces[n] + t == s.subtraces[n];
    } else if ops[0].Enforce? {
      t := RunSetupTrace(ops[1..], s, seen);
    } else if ops[0].Get? {
      var e := s.varMap[ops[0].name];
      var rest := RunSetupTrace(ops[1..], Log(s, e), seen + [e.val]);
      t := [e] + rest;
      OneMoreEntry(s, Log(s, e), e, rest);
    } else {
      var v := ops[0].value(seen);
      var e := RomEntry(s.nextVarAddr, v);
      var s' := SetupSet(s, ops[0].name, v).value;
      var rest := RunSetupTrace(ops[1..], s', seen);
      t := [e] + rest;
      OneMoreEntry(s, s', e, rest);
    }
  }

  lemma OneMoreEntry(s: SetupState, s': SetupState, e: RomEntry, rest: seq<RomEntry>)
    requires s.subtraces != [] && s'.subtraces == Log(s, e).subtraces
    ensures var n := |s.subtraces| - 1;
            && |s'.subtraces| == n + 1
            && s'.subtraces[..n] + [s'.subtraces[n] + rest] == s.subtraces[..n] + [s.subtraces[n] + ([e] + rest)]
            && EntryVals([e] + rest)[1..] == EntryVals(rest)
  {
    var n := |s.subtraces| - 1;
    assert s.subtraces[n] + [e] + rest == s.subtraces[n] + ([e] + rest);
  }

  /** The collected trace: one subtrace per program, sized and valued as the program says. */
  lemma {:induction false} SetupAllTrace(progs: seq<seq<PortalOp>>)
    requires SetupAll(progs).Some?
    ensures var s := SetupAll(progs).value;
            && SetupInv(s)
            && |s.subtraces| == |progs|
            && forall i | 0 <= i < |progs| ::
                 && |s.subtraces[i]| == PortalOps(progs[i])
                 && SetsAgree(progs[i], [], EntryVals(s.subtraces[i]))
  {
    if progs != [] {
      var n := |progs| - 1;
      SetupAllTrace(progs[..n]);
      var s := SetupAll(progs[..n]).value;
      var started := OpenSubtrace(s);
      FlattenSnoc(s.subtraces, []);
      assert Flatten(started.subtraces) == Flatten(s.subtraces);
      assert SetupInv(started);
      RunSetupKeeps(progs[n], started, []);
      var t := RunSetupTrace(progs[n], started, []);
      assert started.subtraces[..n] == s.subtraces;
      assert started.subtraces[n] + t == t;
    }
  }

  /** What subcircuit `i` read while the coordinator ran it. */
  function SetupReads(progs: seq<seq<PortalOp>>, i: nat): Option<seq<F>>
    requires i < |progs|
  {
    match SetupAll(progs[..i])
    case None => None
    case Some(s) =>
      match RunSetup(progs[i], OpenSubtrace(s), [])
      case None => None
      case Some(res) => Some(res.1)
  }

  /** Those values are recorded in the subtrace, where later subcircuits leave them. */
  lemma {:induction false} SetupReadsRecorded(progs: seq<seq<PortalOp>>, i: nat)
    requires SetupAll(progs).Some? && i < |progs|
    ensures |SetupAll(progs).value.subtraces| == |progs|
    ensures |SetupAll(progs).value.subtraces[i]| == PortalOps(progs[i])
    ensures SetupReads(progs, i) == Some(ReadsAfter(progs[i], [], EntryVals(SetupAll(progs).value.subtraces[i])))
  {
    hide RunSetup, SetupInv, SetsAgree, EntryVals, ReadsAfter, PortalOps;
    SetupAllTrace(progs);
    var n := |progs| - 1;
    SetupAllTrace(progs[..n]);
    var started := OpenSubtrace(SetupAll(progs[..n]).value);
    var t := RunSetupTrace(progs[n], started, []);
    if i == n {
      assert started.subtraces[n] + t == t;
    } else {
      SetupReadsRecorded(progs[..n], i);
      assert progs[..n][..i] == progs[..i];
    }
  }

  // ------------------------------------------------------- the address-sorted trace

  const RomAddrLe := (a: RomEntry, b: RomEntry) => a.addr <= b.addr

  /** What the sorted trace inherits: no address 0, equal entries at equal addresses, and
      every address below one in use is in use. */
  ghost predicate Dense(es: seq<RomEntry>) {
    && (forall e | e in es :: e.addr >= 1)
    && (forall d, e | d in es && e in es && d.addr == e.addr :: d == e)
    && (forall e, a | e in es && 1 <= a <= e.addr :: AddrUsed(es, a))
  }

  ghost predicate AddrUsed(es: seq<RomEntry>, a: nat) {
    exists j :: 0 <= j < |es| && es[j].addr == a
  }

  lemma SortedTraceDense(s: SetupState)
    requires SetupInv(s)
    ensures Dense(Sort(Flatten(s.subtraces), RomAddrLe))
  {
    var flat := Flatten(s.subtraces);
    var es := Sort(flat, RomAddrLe);
    forall e | e in es ensures e in flat { MultisetMember(es, flat, e); }
    forall e, a | e in es && 1 <= a <= e.addr ensures AddrUsed(es, a) {
      assert HasAddr(s.varMap, a);
      var n :| n in s.varMap && s.varMap[n].addr == a;
      MultisetMember(es, flat, s.varMap[n]);
    }
  }

  lemma SortedAddrs(es: seq<RomEntry>)
    requires SortedBy(es, RomAddrLe)
    ensures forall i, j | 0 <= i < j < |es| :: es[i].addr <= es[j].addr
  {
    forall i, j | 0 <= i < j < |es| ensures es[i].addr <= es[j].addr {
      assert RomAddrLe(es[i], es[j]);
    }
  }

  /** Sorting an honest trace leaves no gap between neighbouring addresses and only equal
      entries at the same address, counting from the padding entry. */
  lemma SortedTraceWindows(es: seq<RomEntry>, k: nat)
    requires Dense(es) && SortedBy(es, RomAddrLe) && k < |es|
    ensures var g := [RomPadding] + es;
            (k > 0 && g[k + 1] == g[k]) || g[k + 1].addr == g[k].addr + 1
  {
    var g := [RomPadding] + es;
    SortedAddrs(es);
    assert es[k] in es;
    assert g[k + 1].addr > g[k].addr + 1 ==> AddrUsed(es, g[k].addr + 1);
  }

  lemma WindowOfEntries(a: RomEntry, b: RomEntry)
    requires b == a || b.addr == a.addr + 1
    ensures RomWindowOk(ToVar(a), ToVar(b))
  {
    if b.addr == a.addr + 1 {
      CongRed(a.addr);
      CongAdd(Red(a.addr), a.addr, 1, 1);
      if Red(b.addr) == Red(a.addr) {
        var k := MultipleOfCong(b.addr, a.addr);
        MultipleBounds(k, P);
        assert false;
      }
    }
  }

  /** A chunk with its predecessor in front is a slice of the padded sorted trace. */
  lemma ChunkIsSlice(addrs: seq<seq<RomEntry>>, i: nat)
    requires i < |addrs|
    ensures var g := [RomPadding] + Flatten(addrs);
            var off := |Flatten(addrs[..i])|;
            off + |addrs[i]| + 1 <= |g|
            && [LastEntry(RomPadding, Flatten(addrs[..i]))] + addrs[i] == g[off..off + |addrs[i]| + 1]
  {
    var flat, before, chunk := Flatten(addrs), Flatten(addrs[..i]), addrs[i];
    var off := |before|;
    FlattenSlice(addrs, i);
    FlattenPrefix(addrs, i);
    var g := [RomPadding] + flat;
    var full := [LastEntry(RomPadding, before)] + chunk;
    assert flat[..off] == before;
    forall k | 0 <= k < |full| ensures full[k] == g[off + k] {
      if k == 0 {
        assert off > 0 ==> flat[off - 1] == flat[..off][off - 1];
      } else {
        assert flat[off..off + |chunk|][k - 1] == flat[off + k - 1];
      }
    }
  }

  // ------------------------------------------------------------------- the chain

  function LeafToVar(l: Leaf<RomEntry>): Leaf<RomEntryVar> {
    Leaf(l.timeEval, l.addrEval, ToVar(l.last))
  }

  /** The coordinator's own product factor, over 64-bit addresses. */
  function NativeFactor(entryChal: F, trChal: F): RomEntry -> F {
    (e: RomEntry) => Sub(trChal, Add(e.val, Mul(entryChal, Red(e.addr))))
  }

  lemma {:induction false} NativeEvalIsVarEval(init: F, es: seq<RomEntry>, entryChal: F, trChal: F)
    ensures RunEval(init, es, NativeFactor(entryChal, trChal))
         == RunEval(init, ToVars(es), RomFactor(entryChal, trChal))
  {
    if es != [] {
      NativeEvalIsVarEval(init, es[..|es| - 1], entryChal, trChal);
      assert ToVars(es)[..|es| - 1] == ToVars(es[..|es| - 1]);
    }
  }

  /** The coordinator's sorted, re-chunked trace. */
  ghost predicate SortedAs(addrs: seq<seq<RomEntry>>, times: seq<seq<RomEntry>>) {
    SameShape(addrs, times) && Flatten(addrs) == Sort(Flatten(times), RomAddrLe)
  }

  function RomLeaves(times: seq<seq<RomEntry>>, addrs: seq<seq<RomEntry>>, entryChal: F, trChal: F): seq<Leaf<RomEntry>>
    requires |times| == |addrs|
  {
    ExecLeaves(times, addrs, NativeFactor(entryChal, trChal), RomPadding)
  }

  /** The last leaf carries equal running evaluations. */
  lemma FinalEvalsAgree(progs: seq<seq<PortalOp>>, addrs: seq<seq<RomEntry>>, entryChal: F, trChal: F)
    requires progs != [] && SetupAll(progs).Some?
    requires SortedAs(addrs, SetupAll(progs).value.subtraces)
    ensures var leaves := RomLeaves(SetupAll(progs).value.subtraces, addrs, entryChal, trChal);
            |leaves| == |progs| && leaves[|progs| - 1].timeEval == leaves[|progs| - 1].addrEval
  {
    SetupAllTrace(progs);
    var times := SetupAll(progs).value.subtraces;
    assert times[..|progs|] == times && addrs[..|progs|] == addrs;
    RunEvalPermutation(1, Flatten(times), Flatten(addrs), NativeFactor(entryChal, trChal));
  }

  /** Subcircuit `i` of an honest run, started from the coordinator's leaf `i - 1`: the
      memory argument never fails, so only the circuit's own checks decide, and the leaf it
      produces is exactly the coordinator's leaf `i`. */
  lemma RomSubcircuitComplete(progs: seq<seq<PortalOp>>, addrs: seq<seq<RomEntry>>,
                              entryChal: F, trChal: F, i: nat)
    requires SetupAll(progs).Some? && i < |progs|
    requires SortedAs(addrs, SetupAll(progs).value.subtraces)
    ensures var times := SetupAll(progs).value.subtraces;
            var leaves := RomLeaves(times, addrs, entryChal, trChal);
            && i < |times| && |times| == |addrs| == |leaves| == |progs|
            && |times[i]| == |addrs[i]| == PortalOps(progs[i])
            && NextLeaf(RomMemory(entryChal, trChal), i, |progs|, progs[i], ToVars(times[i]), ToVars(addrs[i]),
                        LeafToVar(CurLeaf(leaves, RomPadding, i)))
               == (if EnforcesHold(progs[i], [], EntryVals(times[i])) then Some(LeafToVar(leaves[i])) else None)
    ensures i == 0 ==>
              var first := CurLeaf(RomLeaves(SetupAll(progs).value.subtraces, addrs, entryChal, trChal), RomPadding, i);
              LeafToVar(first) == Leaf(1, 1, RomEntryVar(0, 0))
  {
    hide SetupAll, SetupInv, Sort, RunEval, NativeFactor, RomFactor, RomWindows, SetsAgree, EnforcesHold;
    SetupAllTrace(progs);
    var s := SetupAll(progs).value;
    var times := s.subtraces;
    var mem := RomMemory(entryChal, trChal);
    var leaves := RomLeaves(times, addrs, entryChal, trChal);
    var cur := CurLeaf(leaves, RomPadding, i);
    ExecLeafStep(times, addrs, NativeFactor(entryChal, trChal), RomPadding, i);
    NativeEvalIsVarEval(cur.timeEval, times[i], entryChal, trChal);
    NativeEvalIsVarEval(cur.addrEval, addrs[i], entryChal, trChal);
    assert Values(mem, ToVars(times[i])) == EntryVals(times[i]);
    assert addrs[..0] == [];
    assert cur.last == LastEntry(RomPadding, Flatten(addrs[..i]));
    ChunkCoherent(s, addrs, i, cur.last);
    if i + 1 == |progs| {
      FinalEvalsAgree(progs, addrs, entryChal, trChal);
    }
    assert ToVar(RomPadding) == RomEntryVar(0, 0) by { DivisionUnique(0, 0, 0); }
    assert LastEntry(LeafToVar(cur).last, ToVars(addrs[i])) == ToVar(LastEntry(cur.last, addrs[i]));
  }

  lemma SliceCoherent(es: seq<RomEntry>, full: seq<RomEntry>, off: nat)
    requires Dense(es) && SortedBy(es, RomAddrLe)
    requires off + |full| <= |es| + 1 && full == ([RomPadding] + es)[off..off + |full|]
    ensures RomWindows(ToVars(full))
  {
    var g := [RomPadding] + es;
    forall k | 0 <= k < |full| - 1
      ensures RomWindowOk(ToVars(full)[k], ToVars(full)[k + 1])
    {
      assert full[k] == g[off + k] && full[k + 1] == g[off + k + 1];
      SortedTraceWindows(es, off + k);
      WindowOfEntries(full[k], full[k + 1]);
    }
  }

  lemma ChunkCoherent(s: SetupState, addrs: seq<seq<RomEntry>>, i: nat, last: RomEntry)
    requires SetupInv(s) && SortedAs(addrs, s.subtraces) && i < |addrs|
    requires last == LastEntry(RomPadding, Flatten(addrs[..i]))
    ensures RomWindows([ToVar(last)] + ToVars(addrs[i]))
  {
    SortedTraceDense(s);
    SortSorted(Flatten(s.subtraces), RomAddrLe);
    ChunkIsSlice(addrs, i);
    SliceCoherent(Flatten(addrs), [last] + addrs[i], |Flatten(addrs[..i])|);
    assert [ToVar(last)] + ToVars(addrs[i]) == ToVars([last] + addrs[i]);
  }

  /** A worker replaying subcircuit `i` of an honest run reads what the coordinator read. */
  lemma ReplayReadsTheSame(progs: seq<seq<PortalOp>>, addrs: seq<seq<RomEntry>>, i: nat, factor: RomEntryVar -> F,
                           start: RomProverState, last: RomEntryVar)
    requires SetupAll(progs).Some? && i < |progs| && start.nextEntryIdx == 0
    requires SortedAs(addrs, SetupAll(progs).value.subtraces)
    ensures var times := SetupAll(progs).value.subtraces;
            && i < |times| && |times| == |addrs|
            && var ran := RunProver(progs[i], ToVars(times[i]), [last] + ToVars(addrs[i]), factor, start, []);
               ran.Some? && Some(ran.value.1) == SetupReads(progs, i)
  {
    hide RunProver, SetsAgree, EnforcesHold, ReadsAfter, PortalOps, RomWindows, RunEval, SetupReads;
    SetupReadsRecorded(progs, i);
    var time := ToVars(SetupAll(progs).value.subtraces[i]);
    RunProverMeaning(progs[i], time, [last] + ToVars(addrs[i]), factor, start, []);
    assert time[0..] == time;
    assert Vals(time) == EntryVals(SetupAll(progs).value.subtraces[i]);
  }

  /** The whole honest chain, with the coordinator's own leaves as the committed ones: every
      subcircuit is accepted exactly when its own checks hold on the values the coordinator
      recorded, and a replay reads what was read during setup. */
  lemma RomChainComplete(progs: seq<seq<PortalOp>>, addrs: seq<seq<RomEntry>>, entryChal: F, trChal: F)
    requires SetupAll(progs).Some?
    requires SortedAs(addrs, SetupAll(progs).value.subtraces)
    ensures var times := SetupAll(progs).value.subtraces;
            var leaves := RomLeaves(times, addrs, entryChal, trChal);
            |times| == |addrs| == |leaves| == |progs|
            && forall i | 0 <= i < |progs| ::
                 && |times[i]| == |addrs[i]| == PortalOps(progs[i])
                 && (Accepted(RomMemory(entryChal, trChal), i, |progs|, progs[i],
                              ToVars(times[i]), ToVars(addrs[i]),
                              LeafToVar(CurLeaf(leaves, RomPadding, i)), Map(LeafToVar, leaves))
                     <==> EnforcesHold(progs[i], [], EntryVals(times[i])))
                 && SetupReads(progs, i) == Some(ReadsAfter(progs[i], [], EntryVals(times[i])))
  {
    hide SetupReads;
    SetupAllTrace(progs);
    var times := SetupAll(progs).value.subtraces;
    var leaves := RomLeaves(times, addrs, entryChal, trChal);
    forall i | 0 <= i < |progs|
      ensures |times[i]| == |addrs[i]| == PortalOps(progs[i])
      ensures Accepted(RomMemory(entryChal, trChal), i, |progs|, progs[i],
                       ToVars(times[i]), ToVars(addrs[i]),
                       LeafToVar(CurLeaf(leaves, RomPadding, i)), Map(LeafToVar, leaves))
              <==> EnforcesHold(progs[i], [], EntryVals(times[i]))
      ensures SetupReads(progs, i) == Some(ReadsAfter(progs[i], [], EntryVals(times[i])))
    {
      SetupReadsRecorded(progs, i);
      RomSubcircuitComplete(progs, addrs, entryChal, trChal, i);
      assert Map(LeafToVar, leaves)[i] == LeafToVar(leaves[i]);
    }
  }
}
