/** Portal programs run over a plain single-assignment memory. The ROM setup manager is
    exactly such a memory plus a trace, and wire names matter only up to renaming. */
module PortalMemory {
  import opened Field
  import opened Sequences
  import opened Transcript
  import opened PortalProgram
  import opened RomPortal
  import opened RomCompleteness

  /** The memory after a run, and whether the circuit's own checks passed on the way. */
  datatype MemRun<N> = MemRun(mem: map<N, F>, checks: bool)

  /** `None` when a wire is read before it is set, or set twice. */
  function RunMem<N>(ops: seq<Op<N>>, mem: map<N, F>, seen: seq<F>): Option<MemRun<N>> {
    if ops == [] then Some(MemRun(mem, true))
    else match ops[0]
      case Get(name) =>
        if name in mem then RunMem(ops[1..], mem, seen + [mem[name]]) else None
      case Set(name, value) =>
        if name !in mem then RunMem(ops[1..], mem[name := value(seen)], seen) else None
      case Enforce(check) =>
        match RunMem(ops[1..], mem, seen)
        case None => None
        case Some(r) => Some(r.(checks := check(seen) && r.checks))
  }

  function RunMemAll<N>(progs: seq<seq<Op<N>>>, mem: map<N, F>): Option<MemRun<N>> {
    if progs == [] then Some(MemRun(mem, true))
    else match RunMemAll(progs[..|progs| - 1], mem)
      case None => None
      case Some(before) =>
        match RunMem(progs[|progs| - 1], before.mem, [])
        case None => None
        case Some(r) => Some(MemRun(r.mem, before.checks && r.checks))
  }

  // -------------------------------------------------- the setup manager is a memory

  function MemOf(varMap: map<string, RomEntry>): map<string, F> {
    map n | n in varMap :: varMap[n].val
  }

  /** The setup manager accepts a program exactly when the memory does; then the wire values
      are the memory's, and the checks pass on the recorded trace exactly when they passed
      during the run. */
  lemma {:induction false} SetupIsMemory(ops: seq<PortalOp>, s: SetupState, seen: seq<F>) returns (t: seq<RomEntry>)
    requires s.subtraces != [] && s.nextVarAddr + |ops| < U64_LIMIT
    ensures RunSetup(ops, s, seen).Some? <==> RunMem(ops, MemOf(s.varMap), seen).Some?
    ensures RunSetup(ops, s, seen).Some? ==>
              var s' := RunSetup(ops, s, seen).value.0;
              var r := RunMem(ops, MemOf(s.varMap), seen).value;
              var n := |s.subtraces| - 1;
              && MemOf(s'.varMap) == r.mem
              && s'.nextVarAddr <= s.nextVarAddr + |ops|
              && s'.subtraces == s.subtraces[..n] + [s.subtraces[n] + t]
              && |t| == PortalOps(ops)
              && r.checks == EnforcesHold(ops, seen, EntryVals(t))
    decreases |ops|
  {
    t := [];
    if ops == [] {
      assert s.subtraces[|s.subtraces| - 1] + t == s.subtraces[|s.subtraces| - 1];
    } else {
      match ops[0]
      case Get(name) =>
        if name in s.varMap {
          var e := s.varMap[name];
          var rest := SetupIsMemory(ops[1..], Log(s, e), seen + [e.val]);
          t := [e] + rest;
          OneMoreEntry(s, Log(s, e), e, rest);
        }
      case Set(name, value) =>
        if name !in s.varMap {
          var e := RomEntry(s.nextVarAddr, value(seen));
          var s' := SetupSet(s, name, e.val).value;
          assert MemOf(s'.varMap) == MemOf(s.varMap)[name := e.val];
          var rest := SetupIsMemory(ops[1..], s', seen);
          t := [e] + rest;
          OneMoreEntry(s, s', e, rest);
        }
      case Enforce(_) =>
        t := SetupIsMemory(ops[1..], s, seen);
    }
  }

  function TotalOps<N>(progs: seq<seq<Op<N>>>): nat {
    if progs == [] then 0 else TotalOps(progs[..|progs| - 1]) + |progs[|progs| - 1]|
  }

  ghost predicate AllEnforcesHold(progs: seq<seq<PortalOp>>, subtraces: seq<seq<RomEntry>>)
    requires |progs| == |subtraces| && forall i | 0 <= i < |progs| :: |subtraces[i]| == PortalOps(progs[i])
  {
    forall i | 0 <= i < |progs| :: EnforcesHold(progs[i], [], EntryVals(subtraces[i]))
  }

  /** The setup manager's state after `progs` against the memory's. */
  ghost predicate Tracks(progs: seq<seq<PortalOp>>, s: SetupState, r: MemRun<string>) {
    && MemOf(s.varMap) == r.mem
    && s.nextVarAddr <= 1 + TotalOps(progs)
    && |s.subtraces| == |progs|
    && (forall i | 0 <= i < |progs| :: |s.subtraces[i]| == PortalOps(progs[i]))
    && r.checks == AllEnforcesHold(progs, s.subtraces)
  }

  lemma {:induction false} SetupAllIsMemory(progs: seq<seq<PortalOp>>)
    requires 1 + TotalOps(progs) < U64_LIMIT
    ensures SetupAll(progs).Some? <==> RunMemAll(progs, map[]).Some?
    ensures SetupAll(progs).Some? ==> Tracks(progs, SetupAll(progs).value, RunMemAll(progs, map[]).value)
  {
    if progs == [] {
      assert MemOf(map[]) == map[];
    } else {
      var n := |progs| - 1;
      SetupAllIsMemory(progs[..n]);
      if SetupAll(progs[..n]).Some? {
        OneMoreProgram(progs, SetupAll(progs[..n]).value, RunMemAll(progs[..n], map[]).value);
      }
    }
  }

  lemma OneMoreProgram(progs: seq<seq<PortalOp>>, s: SetupState, r: MemRun<string>)
    requires progs != [] && 1 + TotalOps(progs) < U64_LIMIT
    requires Tracks(progs[..|progs| - 1], s, r)
    ensures var (ran, mem) := (RunSetup(progs[|progs| - 1], OpenSubtrace(s), []),
                               RunMem(progs[|progs| - 1], r.mem, []));
            && (ran.Some? <==> mem.Some?)
            && (ran.Some? ==> Tracks(progs, ran.value.0, MemRun(mem.value.mem, r.checks && mem.value.checks)))
  {
    hide RunSetup, RunMem, EnforcesHold, MemOf, PortalOps, AllEnforcesHold;
    var n := |progs| - 1;
    var started := OpenSubtrace(s);
    var t := SetupIsMemory(progs[n], started, []);
    if RunSetup(progs[n], started, []).Some? {
      assert started.subtraces[..n] == s.subtraces && started.subtraces[n] + t == t;
      LastProgram(progs, s.subtraces, t);
    }
  }

  lemma LastProgram(progs: seq<seq<PortalOp>>, before: seq<seq<RomEntry>>, t: seq<RomEntry>)
    requires progs != [] && |before| == |progs| - 1 && |t| == PortalOps(progs[|progs| - 1])
    requires forall i | 0 <= i < |before| :: |before[i]| == PortalOps(progs[i])
    ensures AllEnforcesHold(progs, before + [t])
       <==> AllEnforcesHold(progs[..|progs| - 1], before) && EnforcesHold(progs[|progs| - 1], [], EntryVals(t))
  {
    var n := |progs| - 1;
    var all := before + [t];
    if AllEnforcesHold(progs, all) {
      forall i | 0 <= i < n ensures EnforcesHold(progs[..n][i], [], EntryVals(before[i])) {
        assert EnforcesHold(progs[i], [], EntryVals(all[i]));
      }
      assert EnforcesHold(progs[n], [], EntryVals(all[n]));
    }
    if AllEnforcesHold(progs[..n], before) && EnforcesHold(progs[n], [], EntryVals(t)) {
      forall i | 0 <= i <= n ensures EnforcesHold(progs[i], [], EntryVals(all[i])) {
        if i < n {
          assert EnforcesHold(progs[..n][i], [], EntryVals(before[i]));
        }
      }
    }
  }

  // -------------------------------------------------------------------- renaming

  function RenameOp<M, N>(f: M -> N, op: Op<M>): Op<N> {
    match op
    case Get(name) => Get(f(name))
    case Set(name, value) => Set(f(name), value)
    case Enforce(check) => Enforce(check)
  }

  function RenameOps<M, N>(f: M -> N, ops: seq<Op<M>>): (r: seq<Op<N>>)
    ensures |r| == |ops|
  {
    if ops == [] then [] else [RenameOp(f, ops[0])] + RenameOps(f, ops[1..])
  }

  lemma {:induction false} RenameAt<M, N>(f: M -> N, ops: seq<Op<M>>, i: nat)
    requires i < |ops|
    ensures RenameOps(f, ops)[i] == RenameOp(f, ops[i])
  {
    if i > 0 {
      RenameAt(f, ops[1..], i - 1);
    }
  }

  lemma {:induction false} RenameAppend<M, N>(f: M -> N, a: seq<Op<M>>, b: seq<Op<M>>)
    ensures RenameOps(f, a + b) == RenameOps(f, a) + RenameOps(f, b)
  {
    if a == [] {
      assert a + b == b;
    } else {
      assert (a + b)[1..] == a[1..] + b;
      RenameAppend(f, a[1..], b);
    }
  }

  function RenameAll<M, N>(f: M -> N, progs: seq<seq<Op<M>>>): (r: seq<seq<Op<N>>>)
    ensures |r| == |progs| && forall i | 0 <= i < |progs| :: r[i] == RenameOps(f, progs[i])
  {
    if progs == [] then [] else RenameAll(f, progs[..|progs| - 1]) + [RenameOps(f, progs[|progs| - 1])]
  }

  ghost predicate Injective<M(!new), N>(f: M -> N) {
    forall x, y | f(x) == f(y) :: x == y
  }

  ghost predicate SameWires<M(!new), N>(f: M -> N, a: map<M, F>, b: map<N, F>) {
    forall x :: (x in a <==> f(x) in b) && (x in a ==> a[x] == b[f(x)])
  }

  /** Under an injective naming, a program behaves on names as it does on the wires. */
  lemma {:induction false} RunMemRenamed<M(!new), N>(f: M -> N, ops: seq<Op<M>>, a: map<M, F>, b: map<N, F>,
                                                     seen: seq<F>)
    requires Injective(f) && SameWires(f, a, b)
    ensures var (r, q) := (RunMem(ops, a, seen), RunMem(RenameOps(f, ops), b, seen));
            && (r.Some? <==> q.Some?)
            && (r.Some? ==> SameWires(f, r.value.mem, q.value.mem) && r.value.checks == q.value.checks)
    decreases |ops|
  {
    if ops != [] {
      assert RenameOps(f, ops)[1..] == RenameOps(f, ops[1..]);
      match ops[0]
      case Get(name) =>
        assert name in a <==> f(name) in b;
        if name in a {
          RunMemRenamed(f, ops[1..], a, b, seen + [a[name]]);
        }
      case Set(name, value) =>
        assert name in a <==> f(name) in b;
        if name !in a {
          RunMemRenamed(f, ops[1..], a[name := value(seen)], b[f(name) := value(seen)], seen);
        }
      case Enforce(_) =>
        RunMemRenamed(f, ops[1..], a, b, seen);
    }
  }

  lemma {:induction false} RunMemAllRenamed<M(!new), N>(f: M -> N, progs: seq<seq<Op<M>>>)
    requires Injective(f)
    ensures var (r, q) := (RunMemAll(progs, map[]), RunMemAll(RenameAll(f, progs), map[]));
            && (r.Some? <==> q.Some?)
            && (r.Some? ==> SameWires(f, r.value.mem, q.value.mem) && r.value.checks == q.value.checks)
  {
    if progs != [] {
      var n := |progs| - 1;
      RunMemAllRenamed(f, progs[..n]);
      assert RenameAll(f, progs)[..n] == RenameAll(f, progs[..n]);
      var r, q := RunMemAll(progs[..n], map[]), RunMemAll(RenameAll(f, progs[..n]), map[]);
      if r.Some? {
        RunMemRenamed(f, progs[n], r.value.mem, q.value.mem, []);
      }
    }
  }

  /** Running one list of programs after another. */
  lemma {:induction false} RunMemAllAppend<N>(p: seq<seq<Op<N>>>, q: seq<seq<Op<N>>>, mem: map<N, F>)
    ensures RunMemAll(p + q, mem) ==
            match RunMemAll(p, mem)
            case None => None
            case Some(r) =>
              match RunMemAll(q, r.mem)
              case None => None
              case Some(r') => Some(MemRun(r'.mem, r.checks && r'.checks))
  {
    if q == [] {
      assert p + q == p;
    } else {
      var n := |q| - 1;
      assert (p + q)[..|p + q| - 1] == p + q[..n];
      RunMemAllAppend(p, q[..n], mem);
    }
  }

  // ---------------------------------------------------------------- one operation at a time

  function AndChecks<N>(checks: bool, r: Option<MemRun<N>>): Option<MemRun<N>> {
    match r
    case None => None
    case Some(run) => Some(run.(checks := checks && run.checks))
  }

  lemma RunGet<N>(name: N, rest: seq<Op<N>>, mem: map<N, F>, seen: seq<F>)
    ensures RunMem([Get(name)] + rest, mem, seen)
         == if name in mem then RunMem(rest, mem, seen + [mem[name]]) else None
  {
    assert ([Get(name)] + rest)[1..] == rest;
  }

  lemma RunSet<N>(name: N, value: seq<F> -> F, rest: seq<Op<N>>, mem: map<N, F>, seen: seq<F>)
    ensures RunMem([Set(name, value)] + rest, mem, seen)
         == if name !in mem then RunMem(rest, mem[name := value(seen)], seen) else None
  {
    assert ([Set(name, value)] + rest)[1..] == rest;
  }

  lemma RunEnforce<N>(check: seq<F> -> bool, rest: seq<Op<N>>, mem: map<N, F>, seen: seq<F>)
    ensures RunMem([Enforce(check)] + rest, mem, seen) == AndChecks(check(seen), RunMem(rest, mem, seen))
  {
    assert ([Enforce(check)] + rest)[1..] == rest;
  }
}
