/** The two ROM portal managers: the coordinator's, which records the trace, and the
    subcircuit prover's, which replays one chunk of it under constraints. */
module RomPortal {
  import opened Field
  import opened Sequences
  import opened Transcript
  import opened PortalProgram

  // ------------------------------------------------------------- setup manager

  const U64_LIMIT: nat := 0x1_0000_0000_0000_0000

  datatype SetupState = SetupState(
    subtraces: seq<seq<RomEntry>>, nextVarAddr: nat, varMap: map<string, RomEntry>)

  const InitialSetup := SetupState([], 1, map[])

  function OpenSubtrace(s: SetupState): SetupState {
    s.(subtraces := s.subtraces + [[]])
  }

  function Log(s: SetupState, e: RomEntry): SetupState
    requires s.subtraces != []
  {
    var n := |s.subtraces| - 1;
    s.(subtraces := s.subtraces[..n] + [s.subtraces[n] + [e]])
  }

  /** Reading an unset wire, or reading before any subtrace is open, panics. */
  function SetupGet(s: SetupState, name: string): Option<(F, SetupState)> {
    if name in s.varMap && s.subtraces != [] then
      Some((s.varMap[name].val, Log(s, s.varMap[name])))
    else None
  }

  /** Writing a wire twice panics, and so does running out of 64-bit addresses. */
  function SetupSet(s: SetupState, name: string, val: F): Option<SetupState> {
    if name !in s.varMap && s.subtraces != [] && s.nextVarAddr + 1 < U64_LIMIT then
      var entry := RomEntry(s.nextVarAddr, val);
      Some(Log(s.(nextVarAddr := s.nextVarAddr + 1, varMap := s.varMap[name := entry]), entry))
    else None
  }

  class SetupRomPortalManager {
    var subtraces: seq<seq<RomEntry>>
    var nextVarAddr: nat
    var varMap: map<string, RomEntry>

    function State(): SetupState
      reads this
    {
      SetupState(subtraces, nextVarAddr, varMap)
    }

    constructor ()
      ensures State() == InitialSetup
    {
      subtraces, nextVarAddr, varMap := [], 1, map[];
    }

    method StartSubtrace()
      modifies this
      ensures State() == OpenSubtrace(old(State()))
    {
      subtraces := subtraces + [[]];
    }

    method Get(name: string) returns (r: Option<F>)
      modifies this
      ensures match SetupGet(old(State()), name)
              case None => r == None && State() == old(State())
              case Some(res) => r == Some(res.0) && State() == res.1
    {
      if name !in varMap || subtraces == [] {
        return None;
      }
      var entry := varMap[name];
      var n := |subtraces| - 1;
      subtraces := subtraces[..n] + [subtraces[n] + [entry]];
      r := Some(entry.val);
    }

    method Set(name: string, val: F) returns (ok: bool)
      modifies this
      ensures match SetupSet(old(State()), name, val)
              case None => !ok && State() == old(State())
              case Some(s') => ok && State() == s'
    {
      if name in varMap || subtraces == [] || nextVarAddr + 1 >= U64_LIMIT {
        return false;
      }
      var entry := RomEntry(nextVarAddr, val);
      nextVarAddr := nextVarAddr + 1;
      varMap := varMap[name := entry];
      var n := |subtraces| - 1;
      subtraces := subtraces[..n] + [subtraces[n] + [entry]];
      ok := true;
    }
  }

  /** One subcircuit run against the setup manager. The circuit's own checks are not
      looked at here: the coordinator only collects the trace. */
  function RunSetup(ops: seq<PortalOp>, s: SetupState, seen: seq<F>): Option<(SetupState, seq<F>)> {
    if ops == [] then Some((s, seen))
    else match ops[0]
      case Get(name) =>
        (match SetupGet(s, name)
         case None => None
         case Some(res) => RunSetup(ops[1..], res.1, seen + [res.0]))
      case Set(name, value) =>
        (match SetupSet(s, name, value(seen))
         case None => None
         case Some(s') => RunSetup(ops[1..], s', seen))
      case Enforce(_) => RunSetup(ops[1..], s, seen)
  }

  /** All subcircuits in order, each with a fresh subtrace. */
  function SetupAll(progs: seq<seq<PortalOp>>): Option<SetupState> {
    if progs == [] then Some(InitialSetup)
    else match SetupAll(progs[..|progs| - 1])
      case None => None
      case Some(s) =>
        match RunSetup(progs[|progs| - 1], OpenSubtrace(s), [])
        case None => None
        case Some(res) => Some(res.0)
  }

  method RunSubcircuitSetup(pm: SetupRomPortalManager, ops: seq<PortalOp>) returns (ok: bool)
    modifies pm
    ensures match RunSetup(ops, old(pm.State()), [])
            case None => !ok
            case Some(res) => ok && pm.State() == res.0
  {
    var seen := [];
    var i := 0;
    while i < |ops|
      invariant 0 <= i <= |ops|
      invariant RunSetup(ops, old(pm.State()), []) == RunSetup(ops[i..], pm.State(), seen)
    {
      assert ops[i..][1..] == ops[i + 1..];
      match ops[i] {
        case Get(name) =>
          var v := pm.Get(name);
          if v.None? { return false; }
          seen := seen + [v.value];
        case Set(name, value) =>
          var done := pm.Set(name, value(seen));
          if !done { return false; }
        case Enforce(_) =>
      }
      i := i + 1;
    }
    ok := true;
  }

  method CollectSubtraces(progs: seq<seq<PortalOp>>) returns (r: Option<seq<seq<RomEntry>>>)
    ensures match SetupAll(progs)
            case None => r == None
            case Some(s) => r == Some(s.subtraces)
  {
    var pm := new SetupRomPortalManager();
    var i := 0;
    while i < |progs|
      invariant 0 <= i <= |progs|
      invariant SetupAll(progs[..i]) == Some(pm.State())
    {
      pm.StartSubtrace();
      var ok := RunSubcircuitSetup(pm, progs[i]);
      assert progs[..i + 1][..i] == progs[..i];
      if !ok {
        SetupAllPrefix(progs, i + 1);
        return None;
      }
      i := i + 1;
    }
    assert progs[..i] == progs;
    r := Some(pm.subtraces);
  }

  lemma {:induction false} SetupAllPrefix(progs: seq<seq<PortalOp>>, i: nat)
    requires i <= |progs|
    ensures SetupAll(progs[..i]).None? ==> SetupAll(progs).None?
  {
    if i < |progs| {
      var front := progs[..|progs| - 1];
      assert front[..i] == progs[..i];
      SetupAllPrefix(front, i);
    } else {
      assert progs[..i] == progs;
    }
  }

  // ---------------------------------------------------- a setup run, step by step

  /** Where a run of operations stands. */
  type Standing = Option<(SetupState, seq<F>)>

  function StepSetup(op: PortalOp, s: SetupState, seen: seq<F>): Standing {
    match op
    case Get(name) => (match SetupGet(s, name) case None => None case Some(res) => Some((res.1, seen + [res.0])))
    case Set(name, value) => (match SetupSet(s, name, value(seen)) case None => None case Some(s') => Some((s', seen)))
    case Enforce(_) => Some((s, seen))
  }

  lemma OneStep(ops: seq<PortalOp>, i: nat, rest: seq<PortalOp>, s: SetupState, seen: seq<F>)
    requires i < |ops|
    ensures RunSetup(ops[i..] + rest, s, seen)
         == match StepSetup(ops[i], s, seen)
            case None => None
            case Some(next) => RunSetup(ops[i + 1..] + rest, next.0, next.1)
  {
    assert (ops[i..] + rest)[0] == ops[i] && (ops[i..] + rest)[1..] == ops[i + 1..] + rest;
  }

  lemma NoStep(ops: seq<PortalOp>, i: nat, rest: seq<PortalOp>)
    requires i == |ops|
    ensures ops[i..] + rest == rest
  {}

  lemma SetupOfNothing(progs: seq<seq<PortalOp>>)
    ensures SetupAll(progs[..0]) == Some(InitialSetup)
  {}

  lemma SetupNext(progs: seq<seq<PortalOp>>, i: nat)
    requires i < |progs| && SetupAll(progs[..i]).Some?
    ensures SetupAll(progs[..i + 1])
         == match RunSetup(progs[i], OpenSubtrace(SetupAll(progs[..i]).value), [])
            case None => None
            case Some(res) => Some(res.0)
  {
    assert progs[..i + 1][..i] == progs[..i];
    hide RunSetup;
  }

  // ------------------------------------------------------------ prover manager

  datatype RomProverState = RomProverState(
    timeEval: F, addrEval: F, nextEntryIdx: nat, satisfied: bool)

  /** One step of the address-ordered coherence check, on field addresses. */
  predicate RomWindowOk(cur: RomEntryVar, next: RomEntryVar) {
    && (next.addr == cur.addr || next.addr == Add(cur.addr, 1))
    && (next.addr == cur.addr ==> cur.val == next.val)
  }

  function RomProverGet(time: seq<RomEntryVar>, addrs: seq<RomEntryVar>,
                        factor: RomEntryVar -> F, s: RomProverState): Option<(F, RomProverState)> {
    var i := s.nextEntryIdx;
    if i < |time| && i + 1 < |addrs| then
      Some((time[i].val,
            RomProverState(Mul(s.timeEval, factor(time[i])), Mul(s.addrEval, factor(addrs[i + 1])),
                           i + 1, s.satisfied && RomWindowOk(addrs[i], addrs[i + 1]))))
    else None
  }

  /** `satisfied` says whether every constraint added so far holds. */
  class RomProverPortalManager {
    const timeOrderedSubtrace: seq<RomEntryVar>
    const addrOrderedSubtrace: seq<RomEntryVar>
    const runningEvals: RunningEvaluation<RomEntryVar>
    var nextEntryIdx: nat
    var satisfied: bool

    function State(): RomProverState
      reads this, runningEvals
    {
      RomProverState(runningEvals.timeOrderedEval, runningEvals.addrOrderedEval,
                     nextEntryIdx, satisfied)
    }

    constructor (time: seq<RomEntryVar>, addrs: seq<RomEntryVar>,
                 evals: RunningEvaluation<RomEntryVar>)
      ensures timeOrderedSubtrace == time && addrOrderedSubtrace == addrs && runningEvals == evals
      ensures State() == RomProverState(evals.timeOrderedEval, evals.addrOrderedEval, 0, true)
    {
      timeOrderedSubtrace, addrOrderedSubtrace, runningEvals := time, addrs, evals;
      nextEntryIdx, satisfied := 0, true;
    }

    /** The name is ignored. `None` is the panic on running out of entries. */
    method Get(name: string) returns (r: Option<F>)
      modifies this, runningEvals
      ensures match RomProverGet(timeOrderedSubtrace, addrOrderedSubtrace, runningEvals.factor, old(State()))
              case None => r == None
              case Some(res) => r == Some(res.0) && State() == res.1
    {
      if nextEntryIdx >= |timeOrderedSubtrace| || nextEntryIdx + 1 >= |addrOrderedSubtrace| {
        return None;
      }
      var currentTimeEntry := timeOrderedSubtrace[nextEntryIdx];
      var currentAddrEntry := addrOrderedSubtrace[nextEntryIdx];
      runningEvals.UpdateTimeOrdered(currentTimeEntry);
      var nextAddrEntry := addrOrderedSubtrace[nextEntryIdx + 1];
      var isAddrSame := nextAddrEntry.addr == currentAddrEntry.addr;
      var isAddrIncreasing := nextAddrEntry.addr == Add(currentAddrEntry.addr, 1);
      satisfied := satisfied && (isAddrSame || isAddrIncreasing);
      satisfied := satisfied && (isAddrSame ==> currentAddrEntry.val == nextAddrEntry.val);
      nextEntryIdx := nextEntryIdx + 1;
      runningEvals.UpdateAddrOrdered(nextAddrEntry);
      r := Some(currentTimeEntry.val);
    }

    /** `Get`, and the written value must equal the popped one. */
    method Set(name: string, val: F) returns (ok: bool)
      modifies this, runningEvals
      ensures match RomProverGet(timeOrderedSubtrace, addrOrderedSubtrace, runningEvals.factor, old(State()))
              case None => !ok
              case Some(res) => ok && State() == res.1.(satisfied := res.1.satisfied && val == res.0)
    {
      var v := Get(name);
      if v.None? {
        return false;
      }
      satisfied := satisfied && val == v.value;
      ok := true;
    }
  }

  function RunProver(ops: seq<PortalOp>, time: seq<RomEntryVar>, addrs: seq<RomEntryVar>,
                     factor: RomEntryVar -> F, s: RomProverState, seen: seq<F>)
    : Option<(RomProverState, seq<F>)>
  {
    if ops == [] then Some((s, seen))
    else match ops[0]
      case Get(_) =>
        (match RomProverGet(time, addrs, factor, s)
         case None => None
         case Some(res) => RunProver(ops[1..], time, addrs, factor, res.1, seen + [res.0]))
      case Set(_, value) =>
        (match RomProverGet(time, addrs, factor, s)
         case None => None
         case Some(res) =>
           RunProver(ops[1..], time, addrs, factor,
                     res.1.(satisfied := res.1.satisfied && value(seen) == res.0), seen))
      case Enforce(check) =>
        RunProver(ops[1..], time, addrs, factor,
                  s.(satisfied := s.satisfied && check(seen)), seen)
  }

  /** Runs a subcircuit against the prover's manager and returns what it read. */
  method RunSubcircuitProver(pm: RomProverPortalManager, ops: seq<PortalOp>) returns (r: Option<seq<F>>)
    modifies pm, pm.runningEvals
    ensures match RunProver(ops, pm.timeOrderedSubtrace, pm.addrOrderedSubtrace,
                            pm.runningEvals.factor, old(pm.State()), [])
            case None => r == None
            case Some(res) => pm.State() == res.0 && r == Some(res.1)
  {
    var seen := [];
    var i := 0;
    while i < |ops|
      invariant 0 <= i <= |ops|
      invariant RunProver(ops, pm.timeOrderedSubtrace, pm.addrOrderedSubtrace,
                          pm.runningEvals.factor, old(pm.State()), [])
             == RunProver(ops[i..], pm.timeOrderedSubtrace, pm.addrOrderedSubtrace,
                          pm.runningEvals.factor, pm.State(), seen)
    {
      assert ops[i..][1..] == ops[i + 1..];
      match ops[i] {
        case Get(name) =>
          var v := pm.Get(name);
          if v.None? { return None; }
          seen := seen + [v.value];
        case Set(name, value) =>
          var done := pm.Set(name, value(seen));
          if !done { return None; }
        case Enforce(check) =>
          pm.satisfied := pm.satisfied && check(seen);
      }
      i := i + 1;
    }
    r := Some(seen);
  }

  // ---------------------------------------- what a prover run says, in closed form

  function Vals(es: seq<RomEntryVar>): seq<F> {
    seq(|es|, i requires 0 <= i < |es| => es[i].val)
  }

  /** Every adjacent pair of the address-ordered entries passes the window check. */
  predicate RomWindows(addrs: seq<RomEntryVar>) {
    forall k | 0 <= k < |addrs| - 1 :: RomWindowOk(addrs[k], addrs[k + 1])
  }

  /** When a program consumes exactly the rest of its subtrace, its run never panics, the
      running evaluations absorb exactly the consumed entries, and the constraints hold
      exactly when the writes agree with the trace, the circuit's checks pass and every
      remaining window is coherent. */
  lemma {:induction false} RunProverMeaning(
    ops: seq<PortalOp>, time: seq<RomEntryVar>, addrs: seq<RomEntryVar>, factor: RomEntryVar -> F,
    s: RomProverState, seen: seq<F>)
    requires |addrs| == |time| + 1
    requires s.nextEntryIdx + PortalOps(ops) == |time|
    ensures var i := s.nextEntryIdx;
            var vals := Vals(time[i..]);
            RunProver(ops, time, addrs, factor, s, seen) == Some((RomProverState(
              RunEval(s.timeEval, time[i..], factor), RunEval(s.addrEval, addrs[i + 1..], factor), |time|,
              s.satisfied && SetsAgree(ops, seen, vals) && EnforcesHold(ops, seen, vals)
                && RomWindows(addrs[i..])), ReadsAfter(ops, seen, vals)))
    decreases |ops|
  {
    var i := s.nextEntryIdx;
    if ops == [] {
      assert time[i..] == [] && addrs[i + 1..] == [];
    } else if ops[0].Enforce? {
      var s' := s.(satisfied := s.satisfied && ops[0].check(seen));
      RunProverMeaning(ops[1..], time, addrs, factor, s', seen);
    } else {
      var res := RomProverGet(time, addrs, factor, s).value;
      OneAccess(time, addrs, factor, s.timeEval, s.addrEval, i);
      if ops[0].Get? {
        RunProverMeaning(ops[1..], time, addrs, factor, res.1, seen + [res.0]);
      } else {
        var s' := res.1.(satisfied := res.1.satisfied && ops[0].value(seen) == res.0);
        RunProverMeaning(ops[1..], time, addrs, factor, s', seen);
      }
    }
  }

  /** What one access takes off the front of the remaining entries. */
  lemma OneAccess(time: seq<RomEntryVar>, addrs: seq<RomEntryVar>, factor: RomEntryVar -> F, t: F, a: F, i: nat)
    requires i < |time| && |addrs| == |time| + 1
    ensures RunEval(t, time[i..], factor) == RunEval(Mul(t, factor(time[i])), time[i + 1..], factor)
    ensures RunEval(a, addrs[i + 1..], factor) == RunEval(Mul(a, factor(addrs[i + 1])), addrs[i + 1 + 1..], factor)
    ensures Vals(time[i..]) == [time[i].val] + Vals(time[i + 1..])
    ensures Vals(time[i..])[1..] == Vals(time[i + 1..])
    ensures RomWindows(addrs[i..]) <==> RomWindowOk(addrs[i], addrs[i + 1]) && RomWindows(addrs[i + 1..])
  {
    RunEvalFront(t, time[i..], factor);
    RunEvalFront(a, addrs[i + 1..], factor);
    assert time[i..][1..] == time[i + 1..];
    assert addrs[i + 1..][1..] == addrs[i + 1 + 1..];
    RomWindowsFront(addrs[i..]);
    assert addrs[i..][1..] == addrs[i + 1..];
  }

  lemma RunEvalFront<E>(init: F, es: seq<E>, factor: E -> F)
    requires es != []
    ensures RunEval(init, es, factor) == RunEval(Mul(init, factor(es[0])), es[1..], factor)
  {
    assert es == [es[0]] + es[1..];
    RunEvalAppend(init, [es[0]], es[1..], factor);
    assert [es[0]][..0] == [];
  }

  lemma RomWindowsFront(addrs: seq<RomEntryVar>)
    requires |addrs| >= 2
    ensures RomWindows(addrs) <==> RomWindowOk(addrs[0], addrs[1]) && RomWindows(addrs[1..])
  {
    if RomWindowOk(addrs[0], addrs[1]) && RomWindows(addrs[1..]) {
      forall k | 0 <= k < |addrs| - 1 ensures RomWindowOk(addrs[k], addrs[k + 1]) {
        if k > 0 {
          assert RomWindowOk(addrs[1..][k - 1], addrs[1..][k]);
        }
      }
    }
    if RomWindows(addrs) {
      forall k | 0 <= k < |addrs| - 2 ensures RomWindowOk(addrs[1..][k], addrs[1..][k + 1]) {
        assert RomWindowOk(addrs[k + 1], addrs[k + 2]);
      }
    }
  }
}
