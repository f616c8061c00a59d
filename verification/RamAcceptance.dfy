/** When the distributed proof of an honestly traced RAM circuit is accepted: exactly when
    the circuit's own checks pass over a plain map that allows overwriting. */
module RamAcceptance {
  import opened Field
  import opened Sequences
  import opened Uint32
  import opened Transcript
  import opened PortalProgram
  import opened RomPortal
  import opened RamPortal
  import opened RamCompleteness
  import opened RamChain

  /** What is left in the map, what was read, and whether the checks passed on the way. */
  datatype MapRun = MapRun(mem: map<string, F>, seen: seq<F>, checks: bool)

  /** `None` when a wire is read before it is first written. */
  function RunMap(ops: seq<PortalOp>, mem: map<string, F>, seen: seq<F>): Option<MapRun> {
    if ops == [] then Some(MapRun(mem, seen, true))
    else match ops[0]
      case Get(name) => if name in mem then RunMap(ops[1..], mem, seen + [mem[name]]) else None
      case Set(name, value) => RunMap(ops[1..], mem[name := value(seen)], seen)
      case Enforce(check) =>
        match RunMap(ops[1..], mem, seen)
        case None => None
        case Some(r) => Some(r.(checks := check(seen) && r.checks))
  }

  /** All subcircuits in order; each starts with nothing read. */
  function RunMapAll(progs: seq<seq<PortalOp>>): Option<MapRun> {
    if progs == [] then Some(MapRun(map[], [], true))
    else match RunMapAll(progs[..|progs| - 1])
      case None => None
      case Some(before) =>
        match RunMap(progs[|progs| - 1], before.mem, [])
        case None => None
        case Some(r) => Some(r.(checks := before.checks && r.checks))
  }

  /** The manager's tables describe the same wires. */
  predicate SameKeys(s: RamSetupState) { s.subtraces != [] && s.addresses.Keys == s.varMap.Keys }

  lemma GetIsLookup(s: RamSetupState, name: string)
    requires SameKeys(s)
    ensures RamSetupGet(s, name).Some? <==> name in s.varMap
    ensures RamSetupGet(s, name).Some? ==>
              var (val, s') := RamSetupGet(s, name).value;
              && val == s.varMap[name] && s'.varMap == s.varMap && SameKeys(s') && s'.currentAddress == s.currentAddress
              && LogsOne(s, s', val, true) && LastLogged(s').val == val && LastLogged(s').read
              && |s'.subtraces| == |s.subtraces|
  {
    hide Increment;
  }

  lemma SetIsUpdate(s: RamSetupState, name: string, val: F)
    requires SameKeys(s) && s.currentAddress + 1 < U64_LIMIT
    ensures RamSetupSet(s, name, val).Some?
    ensures var s' := RamSetupSet(s, name, val).value;
            && s'.varMap == s.varMap[name := val] && SameKeys(s') && s'.currentAddress <= s.currentAddress + 1
            && LogsOne(s, s', val, false) && LastLogged(s').val == val && !LastLogged(s').read
            && |s'.subtraces| == |s.subtraces|
  {
    hide Increment;
    assert RamSetupSet(s, name, val).value.addresses.Keys == s.addresses.Keys + {name};
    assert s.varMap[name := val].Keys == s.varMap.Keys + {name};
  }

  /** The setup manager reads what the map reads, and refuses only reads of unset wires; the
      checks pass on the recorded trace exactly when they passed during the run. */
  lemma {:induction false} RamSetupIsMap(ops: seq<PortalOp>, s: RamSetupState, seen: seq<F>) returns (t: seq<RamEntry>)
    requires SameKeys(s) && s.currentAddress + PortalOps(ops) < U64_LIMIT
    ensures RunRamSetup(ops, s, seen).Some? <==> RunMap(ops, s.varMap, seen).Some?
    ensures RunRamSetup(ops, s, seen).Some? ==>
              var (s', read) := RunRamSetup(ops, s, seen).value;
              var r := RunMap(ops, s.varMap, seen).value;
              var n := |s.subtraces| - 1;
              && r.mem == s'.varMap && r.seen == read
              && SameKeys(s') && s'.currentAddress <= s.currentAddress + PortalOps(ops)
              && s'.subtraces == s.subtraces[..n] + [s.subtraces[n] + t]
              && |t| == PortalOps(ops)
              && r.checks == EnforcesHold(ops, seen, EntryValues(t))
    decreases |ops|
  {
    hide RamSetupGet, RamSetupSet, EntryValues, LogsOne, LastLogged;
    t := [];
    if ops == [] {
      assert s.subtraces[|s.subtraces| - 1] + t == s.subtraces[|s.subtraces| - 1];
    } else {
      match ops[0]
      case Get(name) =>
        GetIsLookup(s, name);
        if name in s.varMap {
          var res := RamSetupGet(s, name).value;
          var rest := RamSetupIsMap(ops[1..], res.1, seen + [res.0]);
          t := [LastLogged(res.1)] + rest;
          OneMoreRamEntry(s, res.1, LastLogged(res.1), rest);
        }
      case Set(name, value) =>
        SetIsUpdate(s, name, value(seen));
        var s' := RamSetupSet(s, name, value(seen)).value;
        var rest := RamSetupIsMap(ops[1..], s', seen);
        t := [LastLogged(s')] + rest;
        OneMoreRamEntry(s, s', LastLogged(s'), rest);
      case Enforce(_) =>
        t := RamSetupIsMap(ops[1..], s, seen);
    }
  }

  // -------------------------------------------------------------------- whole runs

  ghost predicate AllRamChecksHold(progs: seq<seq<PortalOp>>, subtraces: seq<seq<RamEntry>>)
    requires |progs| == |subtraces| && forall i | 0 <= i < |progs| :: |subtraces[i]| == PortalOps(progs[i])
  {
    forall i | 0 <= i < |progs| :: EnforcesHold(progs[i], [], EntryValues(subtraces[i]))
  }

  /** The setup manager's state after `progs` against the map's. */
  ghost predicate TracksMap(progs: seq<seq<PortalOp>>, s: RamSetupState, r: MapRun) {
    && s.varMap == r.mem && s.addresses.Keys == s.varMap.Keys
    && s.currentAddress <= 1 + TotalPortalOps(progs)
    && |s.subtraces| == |progs|
    && (forall i | 0 <= i < |progs| :: |s.subtraces[i]| == PortalOps(progs[i]))
    && r.checks == AllRamChecksHold(progs, s.subtraces)
  }

  lemma {:induction false} RamSetupAllIsMap(progs: seq<seq<PortalOp>>)
    requires 1 + TotalPortalOps(progs) < U64_LIMIT
    ensures RamSetupAll(progs).Some? <==> RunMapAll(progs).Some?
    ensures RamSetupAll(progs).Some? ==> TracksMap(progs, RamSetupAll(progs).value, RunMapAll(progs).value)
  {
    hide RunMap, RunRamSetup, PortalOps, TracksMap;
    if progs == [] {
      NothingTracked();
    } else {
      var n := |progs| - 1;
      RamSetupAllIsMap(progs[..n]);
      if RamSetupAll(progs[..n]).Some? {
        OneMoreRamProgram(progs, RamSetupAll(progs[..n]).value, RunMapAll(progs[..n]).value);
      }
    }
  }

  lemma NothingTracked()
    ensures TracksMap([], InitialRamSetup(), MapRun(map[], [], true))
  {}

  lemma OneMoreRamProgram(progs: seq<seq<PortalOp>>, s: RamSetupState, r: MapRun)
    requires progs != [] && 1 + TotalPortalOps(progs) < U64_LIMIT
    requires TracksMap(progs[..|progs| - 1], s, r)
    ensures var last := progs[|progs| - 1];
            var (ran, mem) := (RunRamSetup(last, OpenRamSubtrace(s), []), RunMap(last, r.mem, []));
            && (ran.Some? <==> mem.Some?)
            && (ran.Some? ==> TracksMap(progs, ran.value.0, mem.value.(checks := r.checks && mem.value.checks)))
  {
    hide RunRamSetup, RunMap, EnforcesHold, EntryValues, PortalOps, AllRamChecksHold;
    var n := |progs| - 1;
    var started := OpenRamSubtrace(s);
    var t := RamSetupIsMap(progs[n], started, []);
    if RunRamSetup(progs[n], started, []).Some? {
      assert started.subtraces[..n] == s.subtraces && started.subtraces[n] + t == t;
      LastRamChecks(progs, s.subtraces, t);
    }
  }

  lemma LastRamChecks(progs: seq<seq<PortalOp>>, before: seq<seq<RamEntry>>, t: seq<RamEntry>)
    requires progs != [] && |before| == |progs| - 1 && |t| == PortalOps(progs[|progs| - 1])
    requires forall i | 0 <= i < |before| :: |before[i]| == PortalOps(progs[i])
    ensures AllRamChecksHold(progs, before + [t])
       <==> AllRamChecksHold(progs[..|progs| - 1], before) && EnforcesHold(progs[|progs| - 1], [], EntryValues(t))
  {
    hide EnforcesHold, EntryValues, PortalOps;
    var n := |progs| - 1;
    var all := before + [t];
    if AllRamChecksHold(progs, all) {
      forall i | 0 <= i < n ensures EnforcesHold(progs[..n][i], [], EntryValues(before[i])) {
        assert EnforcesHold(progs[i], [], EntryValues(all[i]));
      }
      assert EnforcesHold(progs[n], [], EntryValues(all[n]));
    }
    if AllRamChecksHold(progs[..n], before) && EnforcesHold(progs[n], [], EntryValues(t)) {
      forall i | 0 <= i <= n ensures EnforcesHold(progs[i], [], EntryValues(all[i])) {
        if i < n {
          assert EnforcesHold(progs[..n][i], [], EntryValues(before[i]));
        }
      }
    }
  }

  /** The values subcircuit `i` reads from the map are recorded in its subtrace. */
  lemma {:induction false} MapReadsRecorded(progs: seq<seq<PortalOp>>, i: nat)
    requires 1 + TotalPortalOps(progs) < U64_LIMIT && RamSetupAll(progs).Some? && i < |progs|
    ensures RunMapAll(progs[..i]).Some?
    ensures |RamSetupAll(progs).value.subtraces| == |progs|
    ensures |RamSetupAll(progs).value.subtraces[i]| == PortalOps(progs[i])
    ensures var ran := RunMap(progs[i], RunMapAll(progs[..i]).value.mem, []);
            ran.Some? && ran.value.seen == ReadsAfter(progs[i], [], EntryValues(RamSetupAll(progs).value.subtraces[i]))
  {
    hide RunRamSetup, RunMap, EntryValues, ReadsAfter, PortalOps, SetsAgree, EnforcesHold, TracksMap, AllRamChecksHold;
    var n := |progs| - 1;
    RamSetupAllIsMap(progs);
    RamSetupAllIsMap(progs[..n]);
    TracksShape(progs, RamSetupAll(progs).value, RunMapAll(progs).value);
    TracksShape(progs[..n], RamSetupAll(progs[..n]).value, RunMapAll(progs[..n]).value);
    var started := OpenRamSubtrace(RamSetupAll(progs[..n]).value);
    var t := RunRamSetupTrace(progs[n], started, []);
    if i == n {
      var t' := RamSetupIsMap(progs[n], started, []);
      assert started.subtraces[n] + t == t;
    } else {
      MapReadsRecorded(progs[..n], i);
      assert progs[..n][..i] == progs[..i];
    }
  }

  lemma TracksShape(progs: seq<seq<PortalOp>>, s: RamSetupState, r: MapRun)
    requires TracksMap(progs, s, r) && 1 + TotalPortalOps(progs) < U64_LIMIT
    ensures s.varMap == r.mem && |s.subtraces| == |progs|
    ensures forall i | 0 <= i < |progs| :: |s.subtraces[i]| == PortalOps(progs[i])
    ensures SameKeys(OpenRamSubtrace(s)) && s.currentAddress <= 1 + TotalPortalOps(progs)
  {
    hide PortalOps;
  }

  /** A worker replaying subcircuit `i` of an honest run reads what the plain map gives. */
  lemma ReplayReadsMap(progs: seq<seq<PortalOp>>, addrs: seq<seq<RamEntry>>, i: nat, carry: nat -> bool,
                       factor: RamEntryVar -> F, start: RomProverState, last: RamEntryVar)
    requires TotalPortalOps(progs) <= U32_LIMIT && RamSetupAll(progs).Some? && i < |progs| && start.nextEntryIdx == 0
    requires RamSortedAs(addrs, RamSetupAll(progs).value.subtraces)
    ensures RunMapAll(progs[..i]).Some? && RunMap(progs[i], RunMapAll(progs[..i]).value.mem, []).Some?
    ensures var times := RamSetupAll(progs).value.subtraces;
            && i < |times| && |times| == |addrs|
            && var ran := RunRamProver(progs[i], ToRamVars(times[i]), [last] + ToRamVars(addrs[i]), carry, factor,
                                       start, []);
               ran.Some? && ran.value.1 == RunMap(progs[i], RunMapAll(progs[..i]).value.mem, []).value.seen
  {
    hide RunRamProver, SetsAgree, EnforcesHold, ReadsAfter, PortalOps, RunMap, RamChecksFrom, RunMapAll, RamSetupAll;
    MapReadsRecorded(progs, i);
    var time := ToRamVars(RamSetupAll(progs).value.subtraces[i]);
    RunRamProverMeaning(progs[i], time, [last] + ToRamVars(addrs[i]), carry, factor, start, []);
    assert time[0..] == time;
    assert RamVals(time) == EntryValues(RamSetupAll(progs).value.subtraces[i]);
  }

  // -------------------------------------------------------------------- acceptance

  /** Every subcircuit of the distributed proof is accepted. */
  ghost predicate AllRamAccepted(progs: seq<seq<PortalOp>>, addrs: seq<seq<RamEntry>>, c: RamChallenges)
    requires RamSetupAll(progs).Some?
  {
    var times := RamSetupAll(progs).value.subtraces;
    && |times| == |addrs| == |progs|
    && forall i | 0 <= i < |progs| ::
         && |times[i]| == |addrs[i]| == PortalOps(progs[i])
         && RamAcceptedAt(progs, times, addrs, c, i)
  }

  /** A run of at most 2^32 accesses can be traced exactly when no wire is read before it is
      written, and then its distributed proof is accepted, for all challenges, exactly when
      the programs' own checks pass over a plain map. */
  lemma RamChainDecidesChecks(progs: seq<seq<PortalOp>>)
    requires TotalPortalOps(progs) <= U32_LIMIT
    ensures RamSetupAll(progs).Some? <==> RunMapAll(progs).Some?
    ensures forall addrs, c | RamSetupAll(progs).Some? && RamSortedAs(addrs, RamSetupAll(progs).value.subtraces) ::
              AllRamAccepted(progs, addrs, c) <==> RunMapAll(progs).value.checks
  {
    hide RamAcceptedAt, EnforcesHold, RunMapAll, RamSetupAll, RamSortedAs, TotalPortalOps, PortalOps;
    RamSetupAllIsMap(progs);
    forall addrs, c | RamSetupAll(progs).Some? && RamSortedAs(addrs, RamSetupAll(progs).value.subtraces)
      ensures AllRamAccepted(progs, addrs, c) <==> RunMapAll(progs).value.checks
    {
      RamChainComplete(progs, addrs, c);
    }
  }
}
