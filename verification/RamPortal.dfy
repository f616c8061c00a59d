/** The two RAM portal managers. Wires may be overwritten; every entry carries a time stamp
    and says whether it was a read. */
module RamPortal {
  import opened Field
  import opened Sequences
  import opened Bits
  import opened Uint32
  import opened Transcript
  import opened PortalProgram
  import RomPortal

  /** A RAM trace entry as the coordinator records it. */
  datatype RamEntry = RamEntry(addr: nat, val: F, i: U32, read: bool)

  datatype RamEntryVar = RamEntryVar(addr: F, val: F, i: U32, read: bool)

  function ZeroTime(): U32 { LeBits(0, 32) }

  const RamPadding := RamEntry(0, 0, ZeroTime(), false)

  function ToRamVar(e: RamEntry): RamEntryVar {
    RamEntryVar(Red(e.addr), e.val, e.i, e.read)
  }

  function ToRamVars(es: seq<RamEntry>): seq<RamEntryVar> {
    Map(ToRamVar, es)
  }

  /** The four tests are chained on results, so only the last one counts: the read flag. */
  predicate RamIsPadding(e: RamEntryVar) { !e.read }

  datatype RamChallenges = RamChallenges(addr: F, time: F, read: F, trace: F)

  function RamEncode(c: RamChallenges, e: RamEntryVar): F {
    Add(Add(Add(e.val, Mul(c.addr, e.addr)), Mul(c.time, Red(FromBits(e.i)))), Mul(c.read, if e.read then 1 else 0))
  }

  function RamFactor(c: RamChallenges): RamEntryVar -> F {
    (e: RamEntryVar) => Sub(c.trace, RamEncode(c, e))
  }

  // --------------------------------------------------------------------- setup manager

  datatype RamSetupState = RamSetupState(
    subtraces: seq<seq<RamEntry>>, addresses: map<string, nat>, currentAddress: nat, time: U32, varMap: map<string, F>)

  function InitialRamSetup(): RamSetupState {
    RamSetupState([], map[], 1, ZeroTime(), map[])
  }

  function OpenRamSubtrace(s: RamSetupState): RamSetupState {
    s.(subtraces := s.subtraces + [[]])
  }

  /** The wire's address, a fresh one at its first use; `None` when 64 bits run out. */
  function AddressOf(s: RamSetupState, name: string): Option<(nat, RamSetupState)> {
    if name in s.addresses then Some((s.addresses[name], s))
    else if s.currentAddress + 1 < RomPortal.U64_LIMIT then
      Some((s.currentAddress,
            s.(addresses := s.addresses[name := s.currentAddress], currentAddress := s.currentAddress + 1)))
    else None
  }

  /** Appends an entry to the open subtrace and advances the clock. */
  function LogRam(s: RamSetupState, addr: nat, val: F, read: bool): RamSetupState
    requires s.subtraces != []
  {
    var n := |s.subtraces| - 1;
    s.(subtraces := s.subtraces[..n] + [s.subtraces[n] + [RamEntry(addr, val, s.time, read)]],
       time := Increment(s.time))
  }

  /** Reading a wire never written panics. */
  function RamSetupGet(s: RamSetupState, name: string): Option<(F, RamSetupState)> {
    if name !in s.varMap || s.subtraces == [] then None
    else match AddressOf(s, name)
      case None => None
      case Some(found) => Some((s.varMap[name], LogRam(found.1, found.0, s.varMap[name], true)))
  }

  function RamSetupSet(s: RamSetupState, name: string, val: F): Option<RamSetupState> {
    if s.subtraces == [] then None
    else match AddressOf(s, name)
      case None => None
      case Some(found) => Some(LogRam(found.1.(varMap := s.varMap[name := val]), found.0, val, false))
  }

  class AddressManager {
    var addresses: map<string, nat>
    var currentAddress: nat

    constructor ()
      ensures addresses == map[] && currentAddress == 1
    {
      addresses, currentAddress := map[], 1;
    }

    method NameToAddr(name: string) returns (r: Option<nat>)
      modifies this
      ensures name in old(addresses) ==>
                r == Some(old(addresses)[name]) && addresses == old(addresses) && currentAddress == old(currentAddress)
      ensures name !in old(addresses) && old(currentAddress) + 1 < RomPortal.U64_LIMIT ==>
                r == Some(old(currentAddress)) && addresses == old(addresses)[name := old(currentAddress)]
                && currentAddress == old(currentAddress) + 1
      ensures name !in old(addresses) && old(currentAddress) + 1 >= RomPortal.U64_LIMIT ==> r == None
    {
      if name in addresses {
        return Some(addresses[name]);
      }
      if currentAddress + 1 >= RomPortal.U64_LIMIT {
        return None;
      }
      var address := currentAddress;
      addresses := addresses[name := address];
      currentAddress := currentAddress + 1;
      r := Some(address);
    }
  }

  class SetupRamPortalManager {
    var subtraces: seq<seq<RamEntry>>
    const address: AddressManager
    const timeIndex: array<bool>
    var varMap: map<string, F>

    predicate Valid()
      reads this
    {
      timeIndex.Length == 32
    }

    function State(): RamSetupState
      reads this, address, timeIndex
      requires Valid()
    {
      RamSetupState(subtraces, address.addresses, address.currentAddress, timeIndex[..], varMap)
    }

    constructor ()
      ensures Valid() && fresh(address) && fresh(timeIndex) && State() == InitialRamSetup()
    {
      subtraces, varMap := [], map[];
      address := new AddressManager();
      var zero := ZeroTime();
      timeIndex := new bool[32](i requires 0 <= i < 32 => zero[i]);
      new;
      assert timeIndex[..] == ZeroTime();
    }

    method StartSubtrace()
      requires Valid()
      modifies this
      ensures Valid() && State() == OpenRamSubtrace(old(State()))
    {
      subtraces := subtraces + [[]];
    }

    method Get(name: string) returns (r: Option<F>)
      requires Valid()
      modifies this, address, timeIndex
      ensures Valid()
      ensures match RamSetupGet(old(State()), name)
              case None => r == None
              case Some(res) => r == Some(res.0) && State() == res.1
    {
      if name !in varMap || subtraces == [] {
        return None;
      }
      var value := varMap[name];
      var addr := address.NameToAddr(name);
      if addr.None? {
        return None;
      }
      var n := |subtraces| - 1;
      subtraces := subtraces[..n] + [subtraces[n] + [RamEntry(addr.value, value, timeIndex[..], true)]];
      IncrementInPlace(timeIndex);
      r := Some(value);
    }

    method Set(name: string, val: F) returns (ok: bool)
      requires Valid()
      modifies this, address, timeIndex
      ensures Valid()
      ensures match RamSetupSet(old(State()), name, val)
              case None => !ok
              case Some(s) => ok && State() == s
    {
      varMap := varMap[name := val];
      var addr := address.NameToAddr(name);
      if addr.None? {
        return false;
      }
      var entry := RamEntry(addr.value, val, timeIndex[..], false);
      IncrementInPlace(timeIndex);
      if subtraces == [] {
        return false;
      }
      var n := |subtraces| - 1;
      subtraces := subtraces[..n] + [subtraces[n] + [entry]];
      ok := true;
    }
  }

  function RunRamSetup(ops: seq<PortalOp>, s: RamSetupState, seen: seq<F>): Option<(RamSetupState, seq<F>)> {
    if ops == [] then Some((s, seen))
    else match ops[0]
      case Get(name) =>
        (match RamSetupGet(s, name)
         case None => None
         case Some(res) => RunRamSetup(ops[1..], res.1, seen + [res.0]))
      case Set(name, value) =>
        (match RamSetupSet(s, name, value(seen))
         case None => None
         case Some(s') => RunRamSetup(ops[1..], s', seen))
      case Enforce(_) => RunRamSetup(ops[1..], s, seen)
  }

  function RamSetupAll(progs: seq<seq<PortalOp>>): Option<RamSetupState> {
    if progs == [] then Some(InitialRamSetup())
    else match RamSetupAll(progs[..|progs| - 1])
      case None => None
      case Some(s) =>
        match RunRamSetup(progs[|progs| - 1], OpenRamSubtrace(s), [])
        case None => None
        case Some(res) => Some(res.0)
  }

  method RunSubcircuitRamSetup(pm: SetupRamPortalManager, ops: seq<PortalOp>) returns (ok: bool)
    requires pm.Valid()
    modifies pm, pm.address, pm.timeIndex
    ensures pm.Valid()
    ensures match RunRamSetup(ops, old(pm.State()), [])
            case None => !ok
            case Some(res) => ok && pm.State() == res.0
  {
    var seen := [];
    var i := 0;
    while i < |ops|
      invariant 0 <= i <= |ops| && pm.Valid()
      invariant RunRamSetup(ops, old(pm.State()), []) == RunRamSetup(ops[i..], pm.State(), seen)
    {
      hide RamSetupGet, RamSetupSet;
      assert ops[i..][1..] == ops[i + 1..];
      match ops[i] {
        case Get(name) =>
          var v := pm.Get(name);
          if v.None? { return false; }
          seen := seen + [v.value];
        case Set(name, value) =>
          var done := pm.Set(name, value(seen));
          if !done { return false; }
        case Enforce(_) =>
      }
      i := i + 1;
    }
    ok := true;
  }

  /** All subcircuits in order, each with a fresh subtrace. */
  method CollectRamSubtraces(progs: seq<seq<PortalOp>>) returns (r: Option<seq<seq<RamEntry>>>)
    ensures match RamSetupAll(progs)
            case None => r == None
            case Some(s) => r == Some(s.subtraces)
  {
    hide RunRamSetup;
    var pm := new SetupRamPortalManager();
    var i := 0;
    while i < |progs|
      invariant 0 <= i <= |progs| && pm.Valid() && fresh(pm) && fresh(pm.address) && fresh(pm.timeIndex)
      invariant RamSetupAll(progs[..i]) == Some(pm.State())
    {
      pm.StartSubtrace();
      var ok := RunSubcircuitRamSetup(pm, progs[i]);
      assert progs[..i + 1][..i] == progs[..i];
      if !ok {
        RamSetupAllPrefix(progs, i + 1);
        return None;
      }
      i := i + 1;
    }
    assert progs[..i] == progs;
    r := Some(pm.subtraces);
  }

  lemma {:induction false} RamSetupAllPrefix(progs: seq<seq<PortalOp>>, i: nat)
    requires i <= |progs|
    ensures RamSetupAll(progs[..i]).None? ==> RamSetupAll(progs).None?
  {
    hide RunRamSetup;
    if i < |progs| {
      var front := progs[..|progs| - 1];
      assert front[..i] == progs[..i];
      RamSetupAllPrefix(front, i);
    } else {
      assert progs[..i] == progs;
    }
  }

  // -------------------------------------------------------------------- prover manager

  /** One step of the address-ordered check between neighbouring own entries. */
  predicate RamWindowOk(cur: RamEntryVar, next: RamEntryVar) {
    var same := next.addr == cur.addr;
    var increasing := next.addr == Add(cur.addr, 1);
    && (same || increasing)
    && (increasing ==> !next.read)
    && (same && next.read ==> next.val == cur.val)
    && (same ==> FromBits(next.i) > FromBits(cur.i))
  }

  /** What the increment gadget makes of a stamp, for the prover's first carry. */
  function Step(now: U32, carry: bool): U32 {
    if carry then Increment(now) else now
  }

  /** The carries an honest prover witnesses. */
  const HonestCarry: nat -> bool := (i: nat) => true

  /** The checks of access `i`, given the prover's carries. `addrs` has the previous leaf's
      entry in front, and the first window is between the first two own entries, never between
      that entry and the first. */
  predicate RamAccessOk(time: seq<RamEntryVar>, addrs: seq<RamEntryVar>, carry: nat -> bool, i: nat)
    requires i < |time| && i + 1 < |addrs|
  {
    && (i + 2 < |addrs| ==> RamWindowOk(addrs[i + 1], addrs[i + 2]))
    && (i + 1 < |time| ==> Step(time[i].i, carry(i)) == time[i + 1].i)
  }

  function RamProverGet(time: seq<RamEntryVar>, addrs: seq<RamEntryVar>, carry: nat -> bool,
                        factor: RamEntryVar -> F, s: RomPortal.RomProverState): Option<(F, RomPortal.RomProverState)> {
    var i := s.nextEntryIdx;
    if i < |time| && i + 1 < |addrs| then
      Some((time[i].val,
            RomPortal.RomProverState(Mul(s.timeEval, factor(time[i])), Mul(s.addrEval, factor(addrs[i + 1])),
                                     i + 1, s.satisfied && RamAccessOk(time, addrs, carry, i))))
    else None
  }

  /** `carry` is the prover's witness for the first carry of each access's increment. */
  class RamProverPortalManager {
    const timeOrderedSubtrace: seq<RamEntryVar>
    const addrOrderedSubtrace: seq<RamEntryVar>
    const runningEvals: RunningEvaluation<RamEntryVar>
    const carry: nat -> bool
    var nextEntryIdx: nat
    var satisfied: bool

    function State(): RomPortal.RomProverState
      reads this, runningEvals
    {
      RomPortal.RomProverState(runningEvals.timeOrderedEval, runningEvals.addrOrderedEval, nextEntryIdx, satisfied)
    }

    constructor (time: seq<RamEntryVar>, addrs: seq<RamEntryVar>, evals: RunningEvaluation<RamEntryVar>,
                 carry: nat -> bool)
      ensures timeOrderedSubtrace == time && addrOrderedSubtrace == addrs && runningEvals == evals
           && this.carry == carry
      ensures State() == RomPortal.RomProverState(evals.timeOrderedEval, evals.addrOrderedEval, 0, true)
    {
      timeOrderedSubtrace, addrOrderedSubtrace, runningEvals, this.carry := time, addrs, evals, carry;
      nextEntryIdx, satisfied := 0, true;
    }

    /** The constraints between neighbouring address-ordered entries. */
    static method CheckWindow(cur: RamEntryVar, next: RamEntryVar) returns (satisfied: bool)
      ensures satisfied <==> RamWindowOk(cur, next)
    {
      satisfied := true;
      var isAddrSame := next.addr == cur.addr;
      var isAddrIncreasing := next.addr == Add(cur.addr, 1);
      satisfied := satisfied && (isAddrSame || isAddrIncreasing);
      satisfied := satisfied && (isAddrIncreasing ==> next.read == false);
      var addrSameAndNextIsRead := isAddrSame && next.read == true;
      satisfied := satisfied && (addrSameAndNextIsRead ==> next.val == cur.val);
      var greater := IsGreaterThan(next.i, cur.i);
      satisfied := satisfied && (isAddrSame ==> greater);
    }

    /** The constraint between neighbouring time stamps. */
    static method CheckClock(now: U32, next: U32, carry: bool) returns (satisfied: bool)
      ensures satisfied <==> next == if carry then Increment(now) else now
    {
      var t := new bool[32](i requires 0 <= i < 32 => now[i]);
      assert t[..] == now;
      IncrementVarInPlace(t, carry);
      satisfied := t[..] == next;
    }

    /** The name is ignored. `None` is the panic on running out of entries. */
    method Get(name: string) returns (r: Option<F>)
      modifies this, runningEvals
      ensures match RamProverGet(timeOrderedSubtrace, addrOrderedSubtrace, carry, runningEvals.factor, old(State()))
              case None => r == None
              case Some(res) => r == Some(res.0) && State() == res.1
    {
      hide RamWindowOk, Increment;
      if nextEntryIdx >= |timeOrderedSubtrace| || nextEntryIdx + 1 >= |addrOrderedSubtrace| {
        return None;
      }
      var currentTimeEntry := timeOrderedSubtrace[nextEntryIdx];
      var currentAddrEntry := addrOrderedSubtrace[nextEntryIdx + 1];
      runningEvals.UpdateTimeOrdered(currentTimeEntry);
      runningEvals.UpdateAddrOrdered(currentAddrEntry);
      if nextEntryIdx + 2 < |addrOrderedSubtrace| {
        var ok := CheckWindow(currentAddrEntry, addrOrderedSubtrace[nextEntryIdx + 2]);
        satisfied := satisfied && ok;
      }
      if nextEntryIdx < |timeOrderedSubtrace| - 1 {
        var ok := CheckClock(currentTimeEntry.i, timeOrderedSubtrace[nextEntryIdx + 1].i, carry(nextEntryIdx));
        satisfied := satisfied && ok;
      }
      nextEntryIdx := nextEntryIdx + 1;
      r := Some(currentTimeEntry.val);
    }

    method Set(name: string, val: F) returns (ok: bool)
      modifies this, runningEvals
      ensures match RamProverGet(timeOrderedSubtrace, addrOrderedSubtrace, carry, runningEvals.factor, old(State()))
              case None => !ok
              case Some(res) => ok && State() == res.1.(satisfied := res.1.satisfied && val == res.0)
    {
      hide RamProverGet;
      var v := Get(name);
      if v.None? {
        return false;
      }
      satisfied := satisfied && val == v.value;
      ok := true;
    }
  }

  /** One subcircuit run against the prover's manager: its state, and what it read. */
  function RunRamProver(ops: seq<PortalOp>, time: seq<RamEntryVar>, addrs: seq<RamEntryVar>, carry: nat -> bool,
                        factor: RamEntryVar -> F, s: RomPortal.RomProverState, seen: seq<F>)
    : Option<(RomPortal.RomProverState, seq<F>)>
  {
    if ops == [] then Some((s, seen))
    else match ops[0]
      case Get(_) =>
        (match RamProverGet(time, addrs, carry, factor, s)
         case None => None
         case Some(res) => RunRamProver(ops[1..], time, addrs, carry, factor, res.1, seen + [res.0]))
      case Set(_, value) =>
        (match RamProverGet(time, addrs, carry, factor, s)
         case None => None
         case Some(res) =>
           RunRamProver(ops[1..], time, addrs, carry, factor,
                        res.1.(satisfied := res.1.satisfied && value(seen) == res.0), seen))
      case Enforce(check) =>
        RunRamProver(ops[1..], time, addrs, carry, factor, s.(satisfied := s.satisfied && check(seen)), seen)
  }

  method RunSubcircuitRamProver(pm: RamProverPortalManager, ops: seq<PortalOp>) returns (r: Option<seq<F>>)
    modifies pm, pm.runningEvals
    ensures match RunRamProver(ops, pm.timeOrderedSubtrace, pm.addrOrderedSubtrace, pm.carry,
                               pm.runningEvals.factor, old(pm.State()), [])
            case None => r == None
            case Some(res) => pm.State() == res.0 && r == Some(res.1)
  {
    var seen := [];
    var i := 0;
    while i < |ops|
      invariant 0 <= i <= |ops|
      invariant RunRamProver(ops, pm.timeOrderedSubtrace, pm.addrOrderedSubtrace, pm.carry,
                             pm.runningEvals.factor, old(pm.State()), [])
             == RunRamProver(ops[i..], pm.timeOrderedSubtrace, pm.addrOrderedSubtrace, pm.carry,
                             pm.runningEvals.factor, pm.State(), seen)
    {
      hide RamProverGet;
      assert ops[i..][1..] == ops[i + 1..];
      match ops[i] {
        case Get(name) =>
          var v := pm.Get(name);
          if v.None? { return None; }
          seen := seen + [v.value];
        case Set(name, value) =>
          var done := pm.Set(name, value(seen));
          if !done { return None; }
        case Enforce(check) =>
          pm.satisfied := pm.satisfied && check(seen);
      }
      i := i + 1;
    }
    r := Some(seen);
  }
}
