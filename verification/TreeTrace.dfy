/** The coordinator's quick way of collecting the Merkle circuit's portal trace, on plain
    values and without building the circuit. */
module TreeTrace {
  import opened Field
  import opened Sequences
  import opened Bits
  import opened BitArithmetic
  import opened Transcript
  import opened PortalProgram
  import opened RomPortal
  import opened PortalMemory
  import opened MerklePath
  import opened TreeMath
  import opened TreeHashCircuit

  function Named(ops: seq<Op<TreeWire>>): seq<PortalOp> {
    RenameOps(TreeWireName, ops)
  }

  lemma HeadStep(op: PortalOp, rest: seq<PortalOp>, s: SetupState, seen: seq<F>)
    ensures RunSetup([op] + rest, s, seen)
         == match StepSetup(op, s, seen) case None => None case Some(next) => RunSetup(rest, next.0, next.1)
  {
    assert ([op] + rest)[1..] == rest;
  }

  // ----------------------------------------------------------------- the dummy accesses

  lemma DummyStep(n: nat)
    requires n > 0
    ensures Named(DummyOps(n)) == [Get(TreeWireName(Placeholder))] + Named(DummyOps(n - 1))
  {
    RenameAppend(TreeWireName, [Get(Placeholder)], DummyOps(n - 1));
  }

  method DoDummyOps(pm: SetupRomPortalManager, n: nat, ghost seen: seq<F>) returns (ok: bool)
    modifies pm
    ensures match RunSetup(Named(DummyOps(n)), old(pm.State()), seen)
            case None => !ok
            case Some(res) => ok && pm.State() == res.0
  {
    hide RunSetup, DummyOps, RenameOps;
    ghost var read := seen;
    var left := n;
    while left > 0
      invariant 0 <= left <= n
      invariant RunSetup(Named(DummyOps(n)), old(pm.State()), seen) == RunSetup(Named(DummyOps(left)), pm.State(), read)
    {
      DummyStep(left);
      HeadStep(Get(TreeWireName(Placeholder)), Named(DummyOps(left - 1)), pm.State(), read);
      var v := pm.Get("placeholder");
      if v.None? {
        return false;
      }
      read := read + [v.value];
      left := left - 1;
    }
    NoDummies(pm.State(), read);
    ok := true;
  }

  lemma NoDummies(s: SetupState, seen: seq<F>)
    ensures RunSetup(Named(DummyOps(0)), s, seen) == Some((s, seen))
  {}

  // ------------------------------------------------------------------- one subcircuit

  lemma TailShape(p: TreeParams, i: nat)
    requires ValidParams(p)
    ensures i > 0 ==> Named(TailOps(p, i)) == Named(DummyOps(p.numPortals - 1))
    ensures i == 0 ==> TailOps(p, i) != [] && TailOps(p, i)[0].Set?
    ensures i == 0 ==>
              Named(TailOps(p, i)) == [Set("placeholder", TailOps(p, i)[0].value)] + Named(DummyOps(p.numPortals - 1))
  {
    hide DummyOps;
    var dummies := DummyOps(p.numPortals - 1);
    if i == 0 {
      RenameAppend(TreeWireName, [TailOps(p, i)[0]], dummies);
    } else {
      assert [] + dummies == dummies;
    }
  }

  method TraceTail(pm: SetupRomPortalManager, p: TreeParams, i: nat, ghost seen: seq<F>) returns (ok: bool)
    requires ValidParams(p)
    modifies pm
    ensures match RunSetup(Named(TailOps(p, i)), old(pm.State()), seen)
            case None => !ok
            case Some(res) => ok && pm.State() == res.0
  {
    hide RunSetup, DummyOps, RenameOps;
    var n := p.numPortals - 1;
    TailShape(p, i);
    if i == 0 {
      HeadStep(Set("placeholder", TailOps(p, i)[0].value), Named(DummyOps(n)), pm.State(), seen);
      ok := pm.Set("placeholder", 0);
      if !ok {
        return;
      }
    }
    ok := DoDummyOps(pm, n, seen);
  }

  lemma SubcircuitShape(p: TreeParams, i: nat)
    requires ValidParams(p) && i + 1 < 2 * Pow2(p.m)
    ensures Named(SubcircuitOps(p, i)) == Named(NodeOps(p, NodeOf(p.m, i))) + Named(TailOps(p, i))
  {
    hide NodeOps, TailOps, NodeOf, Pow2, RenameOps;
    RenameAppend(TreeWireName, NodeOps(p, NodeOf(p.m, i)), TailOps(p, i));
  }

  lemma LeafNode(p: TreeParams, i: nat)
    requires ValidParams(p) && i < |p.leaves|
    ensures i + 1 < 2 * Pow2(p.m) && Level(NodeOf(p.m, i)) == 0 && NodeOf(p.m, i) / 2 == i
  {
    PowerPositive(p.m);
    NodeOfLevel(p.m, 0, i);
    NodeIdxRoundTrip(0, i);
    hide NodeOf, Level;
    assert Pow2(0) == 1 && Pow2(1) == 2;
  }

  lemma ParentNode(p: TreeParams, i: nat)
    requires ValidParams(p) && |p.leaves| <= i && i + 1 < 2 * |p.leaves|
    ensures Level(NodeOf(p.m, i)) > 0
  {
    assert Pow2(p.m + 1) == 2 * Pow2(p.m) && Pow2(p.m - 1 + 1) == 2 * Pow2(p.m - 1);
    NodeFromFacts(p.m, 1, i - Pow2(p.m));
    hide Level, Pow2, InTree;
  }

  lemma LeafShape(p: TreeParams, i: nat, node: nat)
    requires ValidParams(p) && i < |p.leaves| && i + 1 < 2 * Pow2(p.m)
    requires node == NodeOf(p.m, i) && Level(node) == 0 && node / 2 == i
    ensures |LeafOps(p, node)| == 1 && LeafOps(p, node)[0].Set?
    ensures forall seen: seq<F> :: LeafOps(p, node)[0].value(seen) == ToField(p.leaves[i])
    ensures Named(SubcircuitOps(p, i))
         == [Set(TreeWireName(HashWire(node)), LeafOps(p, node)[0].value)] + Named(TailOps(p, i))
  {
    hide NodeOf, TailOps, SubcircuitOps, Pow2, ToField, Level;
    SubcircuitShape(p, i);
  }

  /** Leaf `i`'s subcircuit: hash, set, and the tail. */
  method TraceLeaf(pm: SetupRomPortalManager, p: TreeParams, i: nat) returns (ok: bool)
    requires ValidParams(p) && i < |p.leaves|
    modifies pm
    ensures match RunSetup(Named(SubcircuitOps(p, i)), old(pm.State()), [])
            case None => !ok
            case Some(res) => ok && pm.State() == res.0
  {
    hide RunSetup, RenameOps, TailOps, ToField, Pow2, NodeOf, Level, SubcircuitOps, LeafOps;
    var nodeIdx := SubcircuitIdxToNodeIdx(i, |p.leaves|, p.m);
    LeafNode(p, i);
    var node := nodeIdx.value;
    LeafShape(p, i, node);
    HeadStep(Set(TreeWireName(HashWire(node)), LeafOps(p, node)[0].value), Named(TailOps(p, i)), pm.State(), []);
    ok := pm.Set(TreeWireName(HashWire(node)), ToField(p.leaves[i]));
    if ok {
      ok := TraceTail(pm, p, i, []);
    }
  }

  /** The check that follows a parent's own accesses. */
  function CheckOps(p: TreeParams, node: nat): seq<Op<TreeWire>>
    requires Level(node) > 0
  {
    ParentOps(p, node)[3..]
  }

  lemma ParentShape(p: TreeParams, i: nat, node: nat)
    requires ValidParams(p) && i + 1 < 2 * Pow2(p.m) && node == NodeOf(p.m, i) && Level(node) > 0
    ensures |ParentOps(p, node)| >= 3 && ParentOps(p, node)[2].Set?
    ensures forall seen: seq<F> :: ParentOps(p, node)[2].value(seen) == ParentVar(seen)
    ensures Named(SubcircuitOps(p, i))
         == [Get(TreeWireName(HashWire(LeftChild(node))))]
            + ([Get(TreeWireName(HashWire(RightChild(node))))]
               + ([Set(TreeWireName(HashWire(node)), ParentOps(p, node)[2].value)]
                  + (Named(CheckOps(p, node)) + Named(TailOps(p, i)))))
  {
    hide NodeOf, TailOps, SubcircuitOps, Pow2, Level, NodeIdx, LeftChild, RightChild, ParentVar, TreeWireName;
    SubcircuitShape(p, i);
    var ops, tail := ParentOps(p, node), Named(TailOps(p, i));
    assert ops[1..][1..][1..] == CheckOps(p, node);
    assert Named(ops) == [RenameOp(TreeWireName, ops[0])] + Named(ops[1..]);
    assert Named(ops[1..]) == [RenameOp(TreeWireName, ops[1])] + Named(ops[1..][1..]);
    assert Named(ops[1..][1..]) == [RenameOp(TreeWireName, ops[2])] + Named(CheckOps(p, node));
  }

  /** The check leaves no trace. */
  lemma CheckIsSilent(p: TreeParams, node: nat, rest: seq<PortalOp>, s: SetupState, seen: seq<F>)
    requires Level(node) > 0
    ensures RunSetup(Named(CheckOps(p, node)) + rest, s, seen) == RunSetup(rest, s, seen)
  {
    hide RunSetup, Level, NodeIdx, ParentVar, LeftChild, RightChild, RenameOps;
    var check := CheckOps(p, node);
    if node == NodeIdx(p.m, 0) {
      assert check == [check[0]] && check[0].Enforce?;
      OneCheck(check[0]);
      HeadStep(Named(check)[0], rest, s, seen);
    } else {
      assert check == [];
      NothingNamed();
      assert [] + rest == rest;
    }
  }

  lemma OneCheck(op: Op<TreeWire>)
    requires op.Enforce?
    ensures Named([op]) == [Enforce(op.check)]
  {}

  lemma NothingNamed()
    ensures Named([]) == []
  {}

  /** A parent's subcircuit: read both children, hash them as digests, set, and the tail.
      The check at the root leaves no trace. */
  method TraceParent(pm: SetupRomPortalManager, p: TreeParams, i: nat) returns (ok: bool)
    requires ValidParams(p) && |p.leaves| <= i && i + 1 < 2 * |p.leaves|
    modifies pm
    ensures match RunSetup(Named(SubcircuitOps(p, i)), old(pm.State()), [])
            case None => !ok
            case Some(res) => ok && pm.State() == res.0
  {
    hide RunSetup, RenameOps, TailOps, ToField, FromField, Pow2, NodeOf, Level, SubcircuitOps, LeftChild, RightChild,
         NodeIdx, ParentOps, CheckOps;
    var nodeIdx := SubcircuitIdxToNodeIdx(i, |p.leaves|, p.m);
    ParentNode(p, i);
    var node := nodeIdx.value;
    var left, right := LeftChild(node), RightChild(node);
    ParentShape(p, i, node);
    ghost var put := Set(TreeWireName(HashWire(node)), ParentOps(p, node)[2].value);
    ghost var rest := Named(CheckOps(p, node)) + Named(TailOps(p, i));
    HeadStep(Get(TreeWireName(HashWire(left))), [Get(TreeWireName(HashWire(right)))] + ([put] + rest), pm.State(), []);
    var l := pm.Get(TreeWireName(HashWire(left)));
    if l.None? {
      return false;
    }
    HeadStep(Get(TreeWireName(HashWire(right))), [put] + rest, pm.State(), [] + [l.value]);
    var r := pm.Get(TreeWireName(HashWire(right)));
    if r.None? {
      return false;
    }
    var parent := HashInner(FromField(l.value), FromField(r.value));
    ghost var seen := [] + [l.value] + [r.value];
    assert ParentVar(seen) == ToField(parent);
    HeadStep(put, rest, pm.State(), seen);
    ok := pm.Set(TreeWireName(HashWire(node)), ToField(parent));
    if ok {
      CheckIsSilent(p, node, Named(TailOps(p, i)), pm.State(), seen);
      ok := TraceTail(pm, p, i, seen);
    }
  }

  // -------------------------------------------------------------------- all of them

  /** The whole trace: the one the circuit's own constraint programs leave, and a panic
      exactly where they would panic. */
  method GetPortalSubtraces(p: TreeParams) returns (r: Option<seq<seq<RomEntry>>>)
    requires ValidParams(p)
    ensures match SetupAll(TreePrograms(p))
            case None => r == None
            case Some(s) => r == Some(s.subtraces)
  {
    hide TreePrograms, RunSetup, SubcircuitOps, SetupAll, RenameOps;
    ghost var progs := TreePrograms(p);
    var numLeaves := |p.leaves|;
    ProgramCount(p);
    SetupOfNothing(progs);
    var pm := new SetupRomPortalManager();
    var i := 0;
    while i < numLeaves
      invariant 0 <= i <= numLeaves && SetupAll(progs[..i]) == Some(pm.State())
    {
      ProgramAt(p, i);
      SetupNext(progs, i);
      pm.StartSubtrace();
      var ok := TraceLeaf(pm, p, i);
      if !ok {
        SetupAllPrefix(progs, i + 1);
        return None;
      }
      i := i + 1;
    }
    while i < 2 * numLeaves - 1
      invariant numLeaves <= i < 2 * numLeaves && SetupAll(progs[..i]) == Some(pm.State())
    {
      ProgramAt(p, i);
      SetupNext(progs, i);
      pm.StartSubtrace();
      var ok := TraceParent(pm, p, i);
      if !ok {
        SetupAllPrefix(progs, i + 1);
        return None;
      }
      i := i + 1;
    }
    ProgramAt(p, i);
    SetupNext(progs, i);
    PaddingShape(p);
    pm.StartSubtrace();
    var ok := TraceTail(pm, p, i, []);
    if !ok {
      SetupAllPrefix(progs, i + 1);
      return None;
    }
    i := i + 1;
    assert progs[..i] == progs;
    r := Some(pm.subtraces);
  }

  lemma ProgramCount(p: TreeParams)
    requires ValidParams(p)
    ensures |TreePrograms(p)| == 2 * |p.leaves| && |p.leaves| >= 1
  {
    hide RenameAll, CircuitOps;
    PowerPositive(p.m);
  }

  lemma {:induction false} CircuitOpsAt(p: TreeParams, n: nat, i: nat)
    requires ValidParams(p) && i < n
    ensures CircuitOps(p, n)[i] == SubcircuitOps(p, i)
  {
    hide SubcircuitOps;
    if i < n - 1 {
      CircuitOpsAt(p, n - 1, i);
    }
  }

  lemma ProgramAt(p: TreeParams, i: nat)
    requires ValidParams(p) && i < 2 * |p.leaves|
    ensures i < |TreePrograms(p)| && TreePrograms(p)[i] == Named(SubcircuitOps(p, i))
  {
    hide SubcircuitOps, CircuitOps, Pow2, RenameOps;
    CircuitOpsAt(p, 2 * Pow2(p.m), i);
  }

  lemma PaddingShape(p: TreeParams)
    requires ValidParams(p)
    ensures 2 * |p.leaves| >= 1 && Named(SubcircuitOps(p, 2 * |p.leaves| - 1)) == Named(TailOps(p, 2 * |p.leaves| - 1))
  {
    PowerPositive(p.m);
    var i := 2 * |p.leaves| - 1;
    hide TailOps, RenameOps;
    assert [] + TailOps(p, i) == TailOps(p, i);
  }
}
