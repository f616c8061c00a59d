/** Completeness of the RAM memory argument: an honest run's sorted trace passes every check
    of the chain, address runs start with writes, and replay returns what a map would. */
module RamCompleteness {
  import opened Field
  import opened Sequences
  import opened Bits
  import opened Uint32
  import opened Transcript
  import opened PortalProgram
  import opened RomPortal
  import opened Coordinator
  import opened Subcircuit
  import opened RamPortal

  // --------------------------------------------- what a prover run says, in closed form

  ghost predicate RamChecksFrom(time: seq<RamEntryVar>, addrs: seq<RamEntryVar>, carry: nat -> bool, i: nat)
    requires |addrs| == |time| + 1
  {
    forall k | i <= k < |time| :: RamAccessOk(time, addrs, carry, k)
  }

  /** Windows between neighbouring own entries. */
  predicate RamWindows(own: seq<RamEntryVar>) {
    forall k | 0 <= k < |own| - 1 :: RamWindowOk(own[k], own[k + 1])
  }

  /** Every stamp is what the gadget makes of the one before, for these carries. */
  predicate Steps(time: seq<RamEntryVar>, carry: nat -> bool) {
    forall k | 0 <= k < |time| - 1 :: Step(time[k].i, carry(k)) == time[k + 1].i
  }

  /** The stamp repeats or advances by one. */
  predicate Moves(now: U32, next: U32) { next == now || next == Increment(now) }

  predicate ClockMoves(time: seq<RamEntryVar>) {
    forall k | 0 <= k < |time| - 1 :: Moves(time[k].i, time[k + 1].i)
  }

  /** Some carries satisfy the clock constraints exactly when the clock repeats or advances
      by one at every access. */
  lemma CarriesExistIff(time: seq<RamEntryVar>)
    ensures ClockMoves(time) <==> exists carry: nat -> bool :: Steps(time, carry)
  {
    hide Increment;
    if carry: nat -> bool :| Steps(time, carry) {
      forall k | 0 <= k < |time| - 1 ensures Moves(time[k].i, time[k + 1].i) {
        assert Step(time[k].i, carry(k)) == time[k + 1].i;
      }
    }
    if ClockMoves(time) {
      var carry: nat -> bool := (k: nat) => k + 1 < |time| && time[k + 1].i == Increment(time[k].i);
      forall k | 0 <= k < |time| - 1 ensures Step(time[k].i, carry(k)) == time[k + 1].i {
        assert Moves(time[k].i, time[k + 1].i);
      }
      assert Steps(time, carry);
    }
  }

  lemma ChecksAreWindows(time: seq<RamEntryVar>, addrs: seq<RamEntryVar>, carry: nat -> bool)
    requires |addrs| == |time| + 1
    ensures RamChecksFrom(time, addrs, carry, 0) <==> RamWindows(addrs[1..]) && Steps(time, carry)
  {
    hide RamWindowOk, Step;
    if RamChecksFrom(time, addrs, carry, 0) {
      forall k | 0 <= k < |addrs[1..]| - 1 ensures RamWindowOk(addrs[1..][k], addrs[1..][k + 1]) {
        assert RamAccessOk(time, addrs, carry, k);
      }
      forall k | 0 <= k < |time| - 1 ensures Step(time[k].i, carry(k)) == time[k + 1].i {
        assert RamAccessOk(time, addrs, carry, k);
      }
    }
    if RamWindows(addrs[1..]) && Steps(time, carry) {
      forall k | 0 <= k < |time| ensures RamAccessOk(time, addrs, carry, k) {
        if k + 2 < |addrs| {
          assert RamWindowOk(addrs[1..][k], addrs[1..][k + 1]);
        }
      }
    }
  }

  function RamVals(es: seq<RamEntryVar>): (r: seq<F>)
    ensures |r| == |es|
  {
    Map((e: RamEntryVar) => e.val, es)
  }

  /** The trace says "read" exactly at the program's gets. */
  predicate FlagsMatch<N>(ops: seq<Op<N>>, time: seq<RamEntryVar>) {
    && |time| == PortalOps(ops)
    && forall k | 0 <= k < |time| :: time[k].read == AccessReads(ops)[k]
  }

  lemma OneRamAccess(time: seq<RamEntryVar>, addrs: seq<RamEntryVar>, carry: nat -> bool, factor: RamEntryVar -> F,
                     t: F, a: F, i: nat)
    requires i < |time| && |addrs| == |time| + 1
    ensures RunEval(t, time[i..], factor) == RunEval(Mul(t, factor(time[i])), time[i + 1..], factor)
    ensures RunEval(a, addrs[i + 1..], factor) == RunEval(Mul(a, factor(addrs[i + 1])), addrs[i + 1 + 1..], factor)
    ensures RamVals(time[i..])[0] == time[i].val && RamVals(time[i..])[1..] == RamVals(time[i + 1..])
    ensures RamChecksFrom(time, addrs, carry, i)
         <==> RamAccessOk(time, addrs, carry, i) && RamChecksFrom(time, addrs, carry, i + 1)
  {
    hide RamAccessOk, RunEval;
    RunEvalFront(t, time[i..], factor);
    RunEvalFront(a, addrs[i + 1..], factor);
    assert time[i..][1..] == time[i + 1..];
    assert addrs[i + 1..][1..] == addrs[i + 1 + 1..];
  }

  /** When a program consumes exactly the rest of its subtrace, the run never panics and its
      constraints are exactly: writes agree, the circuit's checks pass, and the remaining
      accesses are coherent under the prover's carries. */
  lemma {:induction false} RunRamProverMeaning(
    ops: seq<PortalOp>, time: seq<RamEntryVar>, addrs: seq<RamEntryVar>, carry: nat -> bool, factor: RamEntryVar -> F,
    s: RomProverState, seen: seq<F>)
    requires |addrs| == |time| + 1
    requires s.nextEntryIdx + PortalOps(ops) == |time|
    ensures var i := s.nextEntryIdx;
            var vals := RamVals(time[i..]);
            RunRamProver(ops, time, addrs, carry, factor, s, seen) == Some((RomProverState(
              RunEval(s.timeEval, time[i..], factor), RunEval(s.addrEval, addrs[i + 1..], factor), |time|,
              s.satisfied && SetsAgree(ops, seen, vals) && EnforcesHold(ops, seen, vals)
                && RamChecksFrom(time, addrs, carry, i)), ReadsAfter(ops, seen, vals)))
    decreases |ops|
  {
    hide RamAccessOk, RunEval, RamChecksFrom, RamVals;
    var i := s.nextEntryIdx;
    if ops == [] {
      NothingLeft(time, addrs, carry, factor, s);
    } else if ops[0].Enforce? {
      var s' := s.(satisfied := s.satisfied && ops[0].check(seen));
      RunRamProverMeaning(ops[1..], time, addrs, carry, factor, s', seen);
    } else {
      var res := RamProverGet(time, addrs, carry, factor, s).value;
      OneRamAccess(time, addrs, carry, factor, s.timeEval, s.addrEval, i);
      if ops[0].Get? {
        RunRamProverMeaning(ops[1..], time, addrs, carry, factor, res.1, seen + [res.0]);
      } else {
        var s' := res.1.(satisfied := res.1.satisfied && ops[0].value(seen) == res.0);
        RunRamProverMeaning(ops[1..], time, addrs, carry, factor, s', seen);
      }
    }
  }

  lemma NothingLeft(time: seq<RamEntryVar>, addrs: seq<RamEntryVar>, carry: nat -> bool, factor: RamEntryVar -> F,
                    s: RomProverState)
    requires |addrs| == |time| + 1 && s.nextEntryIdx == |time|
    ensures RunEval(s.timeEval, time[s.nextEntryIdx..], factor) == s.timeEval
    ensures RunEval(s.addrEval, addrs[s.nextEntryIdx + 1..], factor) == s.addrEval
    ensures RamChecksFrom(time, addrs, carry, s.nextEntryIdx)
  {}

  // --------------------------------------------------------------------- RAM instance

  /** Some choice of carries satisfies every constraint of the manager. */
  predicate RamCoherent(time: seq<RamEntryVar>, addrs: seq<RamEntryVar>) {
    addrs != [] ==> RamWindows(addrs[1..]) && ClockMoves(time)
  }

  function RamMemory(c: RamChallenges): Memory<RamEntryVar> {
    Memory(RamFactor(c), (e: RamEntryVar) => RamIsPadding(e), (e: RamEntryVar) => e.val,
           (time: seq<RamEntryVar>, addrs: seq<RamEntryVar>) => RamCoherent(time, addrs))
  }

  /** Stage 1 of the subcircuit prover for a RAM circuit, with the prover's choice of carries;
      `None` is a panic or an unsatisfied constraint. The constraints can be met exactly when
      the subcircuit is accepted, and then by exactly the carries the stamps step by. */
  method GenerateRamConstraints(
    idx: nat, numSubcircuits: nat, ops: seq<PortalOp>, time: seq<RamEntryVar>, addrs: seq<RamEntryVar>,
    cur: Leaf<RamEntryVar>, c: RamChallenges, committed: seq<Leaf<RamEntryVar>>, carry: nat -> bool)
    returns (r: Option<Leaf<RamEntryVar>>)
    ensures |time| == |addrs| == PortalOps(ops) ==>
      var mem := RamMemory(c);
      && (r.Some? <==> Accepted(mem, idx, numSubcircuits, ops, time, addrs, cur, committed) && Steps(time, carry))
      && (r.Some? ==> r == NextLeaf(mem, idx, numSubcircuits, ops, time, addrs, cur))
    ensures r.Some? ==> r.value in committed
    ensures r.Some? && idx == 0 ==> cur.timeEval == 1 && cur.addrEval == 1 && !cur.last.read
    ensures r.Some? && idx + 1 == numSubcircuits ==> r.value.timeEval == r.value.addrEval
  {
    hide RamWindows, Steps, ClockMoves, RunRamProver, SetsAgree, EnforcesHold, RamChecksFrom, RamFactor, ReadsAfter;
    var firstOk := idx == 0 ==> cur.timeEval == 1 && cur.addrEval == 1 && RamIsPadding(cur.last);
    var evals := new RunningEvaluation(cur.timeEval, cur.addrEval, RamFactor(c));
    var fullAddrs := [cur.last] + addrs;
    var lastSubtraceEntry := fullAddrs[|fullAddrs| - 1];
    var pm := new RamProverPortalManager(time, fullAddrs, evals, carry);
    ghost var start := pm.State();
    var ran := RunSubcircuitRamProver(pm, ops);
    if |time| == |addrs| == PortalOps(ops) {
      RunRamProverMeaning(ops, time, fullAddrs, carry, RamFactor(c), start, []);
      ChecksAreWindows(time, fullAddrs, carry);
      CarriesExistIff(time);
      assert time[0..] == time && fullAddrs[0 + 1..] == addrs && fullAddrs[1..] == addrs;
      assert RamVals(time) == Values(RamMemory(c), time);
    }
    if ran.None? || !firstOk || !pm.satisfied {
      return None;
    }
    var next := Leaf(evals.timeOrderedEval, evals.addrOrderedEval, lastSubtraceEntry);
    if next !in committed || (idx + 1 == numSubcircuits && next.timeEval != next.addrEval) {
      return None;
    }
    r := Some(next);
  }

  // ------------------------------------------------------------------ the honest trace

  function Stamp(e: RamEntry): nat { FromBits(e.i) }

  /** The value last seen at `addr`. */
  function LastVal(trace: seq<RamEntry>, addr: nat): Option<F> {
    if trace == [] then None
    else if trace[|trace| - 1].addr == addr then Some(trace[|trace| - 1].val)
    else LastVal(trace[..|trace| - 1], addr)
  }

  /** Entry `k` is stamped `k`, a read returns what was last seen at its address, and exactly
      the addresses below `next` are in use. */
  ghost predicate HonestTrace(trace: seq<RamEntry>, next: nat) {
    && (forall k | 0 <= k < |trace| :: Stamp(trace[k]) == k)
    && (forall k | 0 <= k < |trace| && trace[k].read :: LastVal(trace[..k], trace[k].addr) == Some(trace[k].val))
    && (forall k | 0 <= k < |trace| :: 1 <= trace[k].addr < next)
    && (forall a | 1 <= a < next :: Used(trace, a))
  }

  ghost predicate Used(trace: seq<RamEntry>, a: nat) {
    exists j :: 0 <= j < |trace| && trace[j].addr == a
  }

  lemma HonestExtends(trace: seq<RamEntry>, next: nat, next': nat, e: RamEntry)
    requires HonestTrace(trace, next) && Stamp(e) == |trace|
    requires (next' == next && 1 <= e.addr < next) || (next >= 1 && next' == next + 1 && e.addr == next)
    requires e.read ==> LastVal(trace, e.addr) == Some(e.val)
    ensures HonestTrace(trace + [e], next')
  {
    hide LastVal, Stamp;
    var trace' := trace + [e];
    forall k | 0 <= k < |trace'| && trace'[k].read
      ensures LastVal(trace'[..k], trace'[k].addr) == Some(trace'[k].val)
    {
      assert trace'[..k] == trace[..k];
      assert k == |trace| ==> trace[..k] == trace;
    }
    forall a | 1 <= a < next' ensures Used(trace', a) {
      if a == e.addr {
        assert trace'[|trace|].addr == a;
      } else {
        assert Used(trace, a);
        var j :| 0 <= j < |trace| && trace[j].addr == a;
        assert trace'[j].addr == a;
      }
    }
  }

  /** The manager's tables against the trace. */
  ghost predicate Tables(trace: seq<RamEntry>, s: RamSetupState) {
    && s.currentAddress >= 1
    && s.addresses.Keys == s.varMap.Keys
    && (forall n | n in s.addresses :: 1 <= s.addresses[n] < s.currentAddress)
    && (forall m, n | m in s.addresses && n in s.addresses && s.addresses[m] == s.addresses[n] :: m == n)
    && (forall n | n in s.addresses :: LastVal(trace, s.addresses[n]) == Some(s.varMap[n]))
  }

  ghost predicate RamInv(s: RamSetupState) {
    var trace := Flatten(s.subtraces);
    && HonestTrace(trace, s.currentAddress)
    && Tables(trace, s)
    && FromBits(s.time) == |trace| % U32_LIMIT
    && s.currentAddress < RomPortal.U64_LIMIT
  }

  lemma LastValSnoc(trace: seq<RamEntry>, e: RamEntry, a: nat)
    ensures LastVal(trace + [e], a) == if e.addr == a then Some(e.val) else LastVal(trace, a)
  {
    assert (trace + [e])[..|trace|] == trace;
  }

  lemma LogRamFlattens(s: RamSetupState, addr: nat, val: F, read: bool)
    requires s.subtraces != []
    ensures Flatten(LogRam(s, addr, val, read).subtraces) == Flatten(s.subtraces) + [RamEntry(addr, val, s.time, read)]
  {
    var e := RamEntry(addr, val, s.time, read);
    var n := |s.subtraces| - 1;
    FlattenSnoc(s.subtraces[..n], s.subtraces[n] + [e]);
    assert s.subtraces == s.subtraces[..n] + [s.subtraces[n]];
    assert LogRam(s, addr, val, read).subtraces == s.subtraces[..n] + [s.subtraces[n] + [e]];
    assert s.subtraces[..n] + [s.subtraces[n]] == s.subtraces;
    FlattenSnoc(s.subtraces[..n], s.subtraces[n]);
  }

  lemma ClockAdvances(time: U32, n: nat)
    requires FromBits(time) == n && n < U32_LIMIT
    ensures FromBits(Increment(time)) == (n + 1) % U32_LIMIT
  {
    IncrementAddsOne(time);
    U32LimitIsPow2();
  }

  lemma GetKeeps(s: RamSetupState, name: string)
    requires RamInv(s) && |Flatten(s.subtraces)| < U32_LIMIT && RamSetupGet(s, name).Some?
    ensures RamInv(RamSetupGet(s, name).value.1)
    ensures |Flatten(RamSetupGet(s, name).value.1.subtraces)| == |Flatten(s.subtraces)| + 1
  {
    hide Flatten, Increment, FromBits, HonestTrace, LastVal;
    var trace := Flatten(s.subtraces);
    var addr, val := s.addresses[name], s.varMap[name];
    var e := RamEntry(addr, val, s.time, true);
    LogRamFlattens(s, addr, val, true);
    ClockAdvances(s.time, |trace|);
    HonestExtends(trace, s.currentAddress, s.currentAddress, e);
    forall n | n in s.addresses ensures LastVal(trace + [e], s.addresses[n]) == Some(s.varMap[n]) {
      LastValSnoc(trace, e, s.addresses[n]);
    }
  }

  lemma TablesAfterSet(trace: seq<RamEntry>, s: RamSetupState, name: string, val: F, e: RamEntry)
    requires Tables(trace, s) && AddressOf(s, name).Some?
    requires e.addr == AddressOf(s, name).value.0 && e.val == val
    ensures Tables(trace + [e], AddressOf(s, name).value.1.(varMap := s.varMap[name := val]))
  {
    hide LastVal;
    var s2 := AddressOf(s, name).value.1.(varMap := s.varMap[name := val]);
    forall n | n in s2.addresses ensures LastVal(trace + [e], s2.addresses[n]) == Some(s2.varMap[n]) {
      LastValSnoc(trace, e, s2.addresses[n]);
    }
  }

  lemma SetKeeps(s: RamSetupState, name: string, val: F)
    requires RamInv(s) && |Flatten(s.subtraces)| < U32_LIMIT && RamSetupSet(s, name, val).Some?
    ensures RamInv(RamSetupSet(s, name, val).value)
    ensures |Flatten(RamSetupSet(s, name, val).value.subtraces)| == |Flatten(s.subtraces)| + 1
  {
    hide Flatten, Increment, FromBits, HonestTrace, LastVal, Tables;
    var trace := Flatten(s.subtraces);
    var (addr, s1) := AddressOf(s, name).value;
    var s2 := s1.(varMap := s.varMap[name := val]);
    var e := RamEntry(addr, val, s.time, false);
    LogRamFlattens(s2, addr, val, false);
    ClockAdvances(s.time, |trace|);
    AddressInRange(trace, s, name);
    HonestExtends(trace, s.currentAddress, s1.currentAddress, e);
    TablesAfterSet(trace, s, name, val, e);
    TablesIgnoreTrace(trace + [e], s2, LogRam(s2, addr, val, false));
  }

  lemma AddressInRange(trace: seq<RamEntry>, s: RamSetupState, name: string)
    requires Tables(trace, s) && AddressOf(s, name).Some?
    ensures var (addr, s1) := AddressOf(s, name).value;
            || (s1.currentAddress == s.currentAddress && 1 <= addr < s.currentAddress)
            || (s1.currentAddress == s.currentAddress + 1 && 1 <= addr == s.currentAddress)
  {}

  lemma TablesIgnoreTrace(trace: seq<RamEntry>, s: RamSetupState, t: RamSetupState)
    requires Tables(trace, s) && t.addresses == s.addresses && t.varMap == s.varMap
         && t.currentAddress == s.currentAddress
    ensures Tables(trace, t)
  {}

  /** A whole subcircuit keeps the invariant. */
  lemma {:induction false} RunRamSetupKeeps(ops: seq<PortalOp>, s: RamSetupState, seen: seq<F>)
    requires RamInv(s) && s.subtraces != [] && RunRamSetup(ops, s, seen).Some?
    requires |Flatten(s.subtraces)| + PortalOps(ops) <= U32_LIMIT
    ensures RamInv(RunRamSetup(ops, s, seen).value.0)
    ensures |Flatten(RunRamSetup(ops, s, seen).value.0.subtraces)| == |Flatten(s.subtraces)| + PortalOps(ops)
    decreases |ops|
  {
    hide Flatten, RamInv;
    if ops != [] {
      match ops[0]
      case Get(name) =>
        GetKeeps(s, name);
        var res := RamSetupGet(s, name).value;
        RunRamSetupKeeps(ops[1..], res.1, seen + [res.0]);
      case Set(name, value) =>
        SetKeeps(s, name, value(seen));
        RunRamSetupKeeps(ops[1..], RamSetupSet(s, name, value(seen)).value, seen);
      case Enforce(_) =>
        RunRamSetupKeeps(ops[1..], s, seen);
    }
  }

  function EntryValues(es: seq<RamEntry>): (r: seq<F>)
    ensures |r| == |es|
  {
    Map((e: RamEntry) => e.val, es)
  }

  function ReadFlags(es: seq<RamEntry>): (r: seq<bool>)
    ensures |r| == |es|
  {
    Map((e: RamEntry) => e.read, es)
  }

  /** A subcircuit extends the open subtrace by one entry per access, carrying the values it
      read and wrote and saying which was a read. */
  lemma {:induction false} RunRamSetupTrace(ops: seq<PortalOp>, s: RamSetupState, seen: seq<F>)
    returns (t: seq<RamEntry>)
    requires s.subtraces != [] && RunRamSetup(ops, s, seen).Some?
    ensures var res := RunRamSetup(ops, s, seen).value;
            var n := |s.subtraces| - 1;
            && res.0.subtraces == s.subtraces[..n] + [s.subtraces[n] + t]
            && |t| == PortalOps(ops)
            && SetsAgree(ops, seen, EntryValues(t))
            && ReadFlags(t) == AccessReads(ops)
            && res.1 == ReadsAfter(ops, seen, EntryValues(t))
    decreases |ops|
  {
    hide RamSetupGet, RamSetupSet, EntryValues, ReadFlags;
    var n := |s.subtraces| - 1;
    if ops == [] {
      t := [];
      assert ReadFlags(t) == [];
      assert s.subtraces[n] + t == s.subtraces[n];
    } else if ops[0].Enforce? {
      t := RunRamSetupTrace(ops[1..], s, seen);
    } else if ops[0].Get? {
      GetLogs(s, ops[0].name);
      var res := RamSetupGet(s, ops[0].name).value;
      var e := LastLogged(res.1);
      var rest := RunRamSetupTrace(ops[1..], res.1, seen + [res.0]);
      t := [e] + rest;
      OneMoreRamEntry(s, res.1, e, rest);
    } else {
      SetLogs(s, ops[0].name, ops[0].value(seen));
      var s' := RamSetupSet(s, ops[0].name, ops[0].value(seen)).value;
      var e := LastLogged(s');
      var rest := RunRamSetupTrace(ops[1..], s', seen);
      t := [e] + rest;
      OneMoreRamEntry(s, s', e, rest);
    }
  }

  /** The last entry of the open subtrace. */
  function LastLogged(s: RamSetupState): RamEntry {
    if s.subtraces == [] || s.subtraces[|s.subtraces| - 1] == [] then RamPadding
    else var open := s.subtraces[|s.subtraces| - 1]; open[|open| - 1]
  }

  /** `t` has one more entry in its open subtrace, carrying `val`. */
  predicate LogsOne(s: RamSetupState, t: RamSetupState, val: F, read: bool)
    requires s.subtraces != []
  {
    var n := |s.subtraces| - 1;
    && t.subtraces == s.subtraces[..n] + [s.subtraces[n] + [LastLogged(t)]]
    && LastLogged(t).val == val && LastLogged(t).read == read
  }

  lemma GetLogs(s: RamSetupState, name: string)
    requires s.subtraces != [] && RamSetupGet(s, name).Some?
    ensures LogsOne(s, RamSetupGet(s, name).value.1, RamSetupGet(s, name).value.0, true)
  {
    hide Increment;
  }

  lemma SetLogs(s: RamSetupState, name: string, val: F)
    requires s.subtraces != [] && RamSetupSet(s, name, val).Some?
    ensures LogsOne(s, RamSetupSet(s, name, val).value, val, false)
  {
    hide Increment;
  }

  lemma OneMoreRamEntry(s: RamSetupState, s': RamSetupState, e: RamEntry, rest: seq<RamEntry>)
    requires s.subtraces != [] && LogsOne(s, s', e.val, e.read) && e == LastLogged(s')
    ensures var n := |s.subtraces| - 1;
            s'.subtraces[..n] + [s'.subtraces[n] + rest] == s.subtraces[..n] + [s.subtraces[n] + ([e] + rest)]
    ensures EntryValues([e] + rest)[0] == e.val && EntryValues([e] + rest)[1..] == EntryValues(rest)
    ensures ReadFlags([e] + rest) == [e.read] + ReadFlags(rest)
  {
    var n := |s.subtraces| - 1;
    assert s.subtraces[n] + [e] + rest == s.subtraces[n] + ([e] + rest);
  }

  function TotalPortalOps(progs: seq<seq<PortalOp>>): nat {
    if progs == [] then 0 else TotalPortalOps(progs[..|progs| - 1]) + PortalOps(progs[|progs| - 1])
  }

  lemma {:induction false} RamSetupAllTrace(progs: seq<seq<PortalOp>>)
    requires RamSetupAll(progs).Some? && TotalPortalOps(progs) <= U32_LIMIT
    ensures var s := RamSetupAll(progs).value;
            && RamInv(s)
            && |Flatten(s.subtraces)| == TotalPortalOps(progs)
            && |s.subtraces| == |progs|
            && forall i | 0 <= i < |progs| ::
                 && |s.subtraces[i]| == PortalOps(progs[i])
                 && SetsAgree(progs[i], [], EntryValues(s.subtraces[i]))
                 && ReadFlags(s.subtraces[i]) == AccessReads(progs[i])
  {
    hide *;
    if progs == [] {
      NoPrograms();
    } else {
      var n := |progs| - 1;
      LastRamProgram(progs, n);
      RamSetupAllTrace(progs[..n]);
      var s := RamSetupAll(progs[..n]).value;
      ProgramExtends(s, progs[n]);
    }
  }

  lemma NoPrograms()
    ensures RamSetupAll([]) == Some(InitialRamSetup()) && RamInv(InitialRamSetup())
    ensures InitialRamSetup().subtraces == [] && |Flatten<RamEntry>([])| == TotalPortalOps([])
  {
    InitialRamInv();
    hide RamInv;
  }

  lemma LastRamProgram(progs: seq<seq<PortalOp>>, n: nat)
    requires n == |progs| - 1
    ensures TotalPortalOps(progs) == TotalPortalOps(progs[..n]) + PortalOps(progs[n])
    ensures RamSetupAll(progs).Some? ==>
              RamSetupAll(progs[..n]).Some?
                   && RunRamSetup(progs[n], OpenRamSubtrace(RamSetupAll(progs[..n]).value), []).Some?
              && RamSetupAll(progs).value
                   == RunRamSetup(progs[n], OpenRamSubtrace(RamSetupAll(progs[..n]).value), []).value.0
  {
    hide RunRamSetup, PortalOps;
  }

  lemma ProgramExtends(s: RamSetupState, ops: seq<PortalOp>)
    requires RamInv(s) && RunRamSetup(ops, OpenRamSubtrace(s), []).Some?
    requires |Flatten(s.subtraces)| + PortalOps(ops) <= U32_LIMIT
    ensures var t := RunRamSetup(ops, OpenRamSubtrace(s), []).value.0;
            && RamInv(t)
            && |Flatten(t.subtraces)| == |Flatten(s.subtraces)| + PortalOps(ops)
            && |t.subtraces| == |s.subtraces| + 1 && t.subtraces[..|s.subtraces|] == s.subtraces
            && |t.subtraces[|s.subtraces|]| == PortalOps(ops)
            && SetsAgree(ops, [], EntryValues(t.subtraces[|s.subtraces|]))
            && ReadFlags(t.subtraces[|s.subtraces|]) == AccessReads(ops)
  {
    hide RamInv, Flatten, RunRamSetup, PortalOps, SetsAgree, EntryValues, ReadsAfter, ReadFlags, AccessReads;
    var started := OpenRamSubtrace(s);
    OpenKeeps(s);
    RunRamSetupKeeps(ops, started, []);
    var t := RunRamSetupTrace(ops, started, []);
    assert started.subtraces[|s.subtraces|] + t == t;
  }

  lemma InitialRamInv()
    ensures RamInv(InitialRamSetup())
  {
    hide FromBits, LeBits;
    ZeroBits(32);
  }

  lemma ZeroBits(n: nat)
    ensures FromBits(LeBits(0, n)) == 0
  {
    NumberRoundTrip(0, n);
  }

  lemma OpenKeeps(s: RamSetupState)
    requires RamInv(s)
    ensures RamInv(OpenRamSubtrace(s)) && Flatten(OpenRamSubtrace(s).subtraces) == Flatten(s.subtraces)
  {
    hide HonestTrace, Flatten;
    FlattenSnoc(s.subtraces, []);
    assert Flatten(s.subtraces) + [] == Flatten(s.subtraces);
    TablesIgnoreTrace(Flatten(s.subtraces), s, OpenRamSubtrace(s));
    hide Tables;
  }
}
