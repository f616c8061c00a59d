/** From the entries of a RAM chain to the programs that made them: what a program's gets
    return, and the one thing about its entries that no subcircuit checks. */
module RamPrograms {
  import opened Field
  import opened Sequences
  import opened Bits
  import opened Uint32
  import opened Transcript
  import opened PortalProgram
  import opened Coordinator
  import opened Subcircuit
  import opened RamPortal
  import opened RamCompleteness
  import opened RamSoundness
  import RomSoundness
  import RamChain

  /** Which accesses of the whole run are reads. */
  function AllReads(progs: seq<seq<PortalOp>>): seq<bool> {
    if progs == [] then [] else AllReads(progs[..|progs| - 1]) + AccessReads(progs[|progs| - 1])
  }

  predicate AllFlagsMatch(progs: seq<seq<PortalOp>>, times: seq<seq<RamEntryVar>>) {
    |progs| == |times| && forall i | 0 <= i < |progs| :: FlagsMatch(progs[i], times[i])
  }

  lemma {:induction false} FlagsOfRun(progs: seq<seq<PortalOp>>, times: seq<seq<RamEntryVar>>)
    requires AllFlagsMatch(progs, times)
    ensures |AllReads(progs)| == |Flatten(times)|
    ensures forall k | 0 <= k < |Flatten(times)| :: Flatten(times)[k].read == AllReads(progs)[k]
  {
    if progs != [] {
      var n := |progs| - 1;
      FlagsOfRun(progs[..n], times[..n]);
      assert FlagsMatch(progs[n], times[n]);
    }
  }

  lemma {:induction false} NamesOfRun(progs: seq<seq<PortalOp>>, times: seq<seq<RamEntryVar>>)
    requires AllFlagsMatch(progs, times)
    ensures |RomSoundness.AccessNames(progs)| == |Flatten(times)|
  {
    forall i | 0 <= i < |progs| ensures |times[i]| == PortalOps(progs[i]) {
      assert FlagsMatch(progs[i], times[i]);
    }
    RomSoundness.AccessNamesLength(progs, times);
  }

  /** Wires and addresses correspond one to one over the run. */
  predicate NamesAreAddresses(names: seq<string>, t: seq<RamEntryVar>) {
    && |names| == |t|
    && forall j, k | 0 <= j < |t| && 0 <= k < |t| :: names[j] == names[k] <==> t[j].addr == t[k].addr
  }

  /** Access `j` is the latest one before `k` to the same wire, and carries the same value. */
  predicate LatestOfWire(names: seq<string>, t: seq<RamEntryVar>, j: nat, k: nat)
    requires j < k < |t| == |names|
  {
    && names[j] == names[k] && t[j].val == t[k].val
    && forall q | j < q < k :: names[q] != names[k]
  }

  /** Let a linked run be accepted under the conditions of `RamChainSound`, let its entries say
      "read" at the programs' gets, and let wires and addresses correspond. Then every get of
      the run returns the value of the latest earlier access to the same wire, every set
      records what its program wrote, and all checks hold on those values. */
  lemma RamProgramSound(c: RamChallenges, progs: seq<seq<PortalOp>>, times: seq<seq<RamEntryVar>>,
                        addrs: seq<seq<RamEntryVar>>, leaves: seq<Leaf<RamEntryVar>>)
    requires Consumes(progs, times, addrs) && |Flatten(times)| <= P
    requires multiset(Flatten(times)) == multiset(Flatten(addrs))
    requires ChainSatisfied(RamMemory(c), progs, times, addrs, leaves)
    requires StampsIncrease(Flatten(times)) && StartsWithWrite(Flatten(addrs))
    requires forall i | 0 <= i < |addrs| :: BoundaryOk(addrs, i)
    requires AllFlagsMatch(progs, times) && NamesAreAddresses(RomSoundness.AccessNames(progs), Flatten(times))
    ensures |AllReads(progs)| == |Flatten(times)|
    ensures forall k | 0 <= k < |Flatten(times)| && AllReads(progs)[k] ::
              exists j :: 0 <= j < k && LatestOfWire(RomSoundness.AccessNames(progs), Flatten(times), j, k)
    ensures forall i | 0 <= i < |progs| ::
              SetsAgree(progs[i], [], RamVals(times[i])) && EnforcesHold(progs[i], [], RamVals(times[i]))
  {
    hide RamFactor, SetsAgree, EnforcesHold, BoundaryOk, Flatten, StampsIncrease, StartsWithWrite, AllReads,
         ChainSatisfied, AllFlagsMatch, Consumes;
    RamChainSound(c, progs, times, addrs, leaves);
    FlagsOfRun(progs, times);
    var names, t := RomSoundness.AccessNames(progs), Flatten(times);
    forall k | 0 <= k < |t| && AllReads(progs)[k] ensures exists j :: 0 <= j < k && LatestOfWire(names, t, j, k) {
      assert t[k].read && SeesLatest(t, k);
      var j :| 0 <= j < k && IsLatest(t, j, k);
      assert LatestOfWire(names, t, j, k);
    }
  }

  /** Three accesses to one wire: 0 is written, then 1, then 0 is read. */
  function StaleAccesses(): (r: seq<RamEntryVar>)
    ensures |r| == 3
  {
    [RamEntryVar(1, 0, Stamped(0), false), RamEntryVar(1, 1, Stamped(1), false), RamEntryVar(1, 0, Stamped(2), true)]
  }

  lemma StaleClocks()
    ensures forall i | 0 <= i < 3 :: Clock(StaleAccesses()[i]) == i
  {
    hide Stamped, FromBits;
    StampedIs(0);
    StampedIs(1);
    StampedIs(2);
  }

  /** What has been overwritten is not the latest, by wires, by addresses and by stamps. */
  lemma OverwrittenIsNotLatest()
    ensures !LatestOfWire(["x", "x", "x"], StaleAccesses(), 0, 2)
    ensures !LatestOfWire(["x", "x", "x"], StaleAccesses(), 1, 2)
    ensures !SeesLatest(StaleAccesses(), 2)
    ensures !HasLatestWrite(StaleAccesses(), StaleAccesses()[2])
  {
    hide Stamped, Clock;
    StaleClocks();
    var t, names := StaleAccesses(), ["x", "x", "x"];
    assert names[1] == names[2] && t[1].addr == t[2].addr && t[1].val != t[2].val;
    assert t[1] in t;
    forall w | w in t ensures !LatestWrite(t, w, t[2]) {
      var i :| 0 <= i < 3 && t[i] == w;
      assert i == 0 || i == 1 || i == 2;
    }
  }

  function OverwrittenTrace(): (r: seq<seq<RamEntryVar>>)
    ensures |r| == 2
  {
    [[RamEntryVar(1, 0, ZeroTime(), false)], [RamEntryVar(1, 1, Increment(ZeroTime()), false)]]
  }

  lemma OverwrittenConsumes()
    ensures Consumes(StaleRead(), OverwrittenTrace(), OverwrittenTrace())
    ensures AllReads(StaleRead()) == [false, true]
  {
    hide ZeroTime, Increment;
    assert StaleRead()[0][1..] == [] && StaleRead()[1][1..] == [];
    assert StaleRead()[..1] == [StaleRead()[0]] && [StaleRead()[0]][..0] == [];
  }

  lemma OverwrittenInOrder()
    ensures Flatten(OverwrittenTrace()) == [OverwrittenTrace()[0][0], OverwrittenTrace()[1][0]]
    ensures Clock(OverwrittenTrace()[0][0]) < Clock(OverwrittenTrace()[1][0])
  {
    hide Flatten;
    FlattenTwo(OverwrittenTrace()[0], OverwrittenTrace()[1]);
    hide Increment, FromBits, LeBits;
    ZeroBits(32);
    IncrementAddsOne(ZeroTime());
  }

  lemma OverwrittenBoundaries()
    ensures forall i | 0 <= i < 2 :: BoundaryOk(OverwrittenTrace(), i)
  {
    hide Flatten, ZeroTime, Increment, FromBits;
    OverwrittenInOrder();
    var es := OverwrittenTrace();
    assert es[..0] == [] && es[..1] == [es[0]];
    FlattenSnoc([], es[0]);
    assert [] + [es[0]] == [es[0]];
    NothingFlat();
    OneIsNotNext();
    forall i | 0 <= i < 2 ensures BoundaryOk(es, i) {
      if i == 1 {
        assert Flatten(es[..1]) == [es[0][0]];
      }
    }
  }

  lemma OneIsNotNext()
    ensures Add(1, 1) != 1
  {
    RamChain.AddOneMoves(1);
  }

  /** That the entries say "read" at the gets is not checked: the manager never looks at the
      flag of the access it serves. Write 0 to a wire and get 1 from it, with both entries
      saying "write": the subcircuits are accepted under all challenges, the stamps increase,
      every boundary window holds and the trace is consistent. */
  lemma ReadFlagsAreUnbound(c: RamChallenges)
    ensures Consumes(StaleRead(), OverwrittenTrace(), OverwrittenTrace())
    ensures AllReads(StaleRead()) == [false, true]
    ensures var t := Flatten(OverwrittenTrace());
            && StampsIncrease(t) && StartsWithWrite(t) && Consistent(t)
            && |t| == 2 && t[0].addr == t[1].addr && t[0].val != t[1].val
    ensures forall i | 0 <= i < 2 :: BoundaryOk(OverwrittenTrace(), i)
    ensures exists leaves ::
              ChainSatisfied(RamMemory(c), StaleRead(), OverwrittenTrace(), OverwrittenTrace(), leaves)
  {
    hide ZeroTime, Increment, RamFactor, RunEval, Flatten, NextLeaf, PortalOps, Consumes, Clock;
    OverwrittenConsumes();
    OverwrittenInOrder();
    OverwrittenBoundaries();
    var trace := OverwrittenTrace();
    var write, read := trace[0][0], trace[1][0];
    var start := Leaf(1, 1, RamEntryVar(0, 0, ZeroTime(), false));
    SingleAccess(c, 0, 2, StaleRead()[0], write, write, start);
    var once := Mul(1, RamFactor(c)(write));
    SingleAccess(c, 1, 2, StaleRead()[1], read, read, Leaf(once, once, write));
    var twice := Mul(once, RamFactor(c)(read));
    assert ChainSatisfied(RamMemory(c), StaleRead(), trace, trace,
                          [start, Leaf(once, once, write), Leaf(twice, twice, read)]);
  }
}
