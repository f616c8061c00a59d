/** When the distributed proof of an honestly traced ROM circuit is accepted: exactly when
    the circuit's own checks pass over a plain single-assignment memory. */
module RomAcceptance {
  import opened Field
  import opened Sequences
  import opened Transcript
  import opened PortalProgram
  import opened RomPortal
  import opened Coordinator
  import opened Subcircuit
  import opened RomCompleteness
  import opened PortalMemory

  /** Every subcircuit of the distributed proof is accepted. */
  ghost predicate AllAccepted(progs: seq<seq<PortalOp>>, addrs: seq<seq<RomEntry>>, entryChal: F, trChal: F)
    requires SetupAll(progs).Some?
  {
    var times := SetupAll(progs).value.subtraces;
    && |times| == |addrs| == |progs|
    && forall i | 0 <= i < |progs| ::
         && |times[i]| == |addrs[i]| == PortalOps(progs[i])
         && AcceptedAt(progs, times, addrs, entryChal, trChal, i)
  }

  ghost predicate AcceptedAt(progs: seq<seq<PortalOp>>, times: seq<seq<RomEntry>>, addrs: seq<seq<RomEntry>>,
                             entryChal: F, trChal: F, i: nat)
    requires i < |progs| == |times| == |addrs| && |times[i]| == |addrs[i]| == PortalOps(progs[i])
  {
    var leaves := RomLeaves(times, addrs, entryChal, trChal);
    Accepted(RomMemory(entryChal, trChal), i, |progs|, progs[i], ToVars(times[i]), ToVars(addrs[i]),
             LeafToVar(CurLeaf(leaves, RomPadding, i)), Map(LeafToVar, leaves))
  }

  /** The trace can be collected, and the proof made from its sorting is accepted whatever the
      challenges. */
  ghost predicate AcceptedAlways(progs: seq<seq<PortalOp>>) {
    && SetupAll(progs).Some?
    && forall addrs, entryChal, trChal | SortedAs(addrs, SetupAll(progs).value.subtraces) ::
         AllAccepted(progs, addrs, entryChal, trChal)
  }

  /** There always is such a sorting. */
  lemma SortingExists(times: seq<seq<RomEntry>>) returns (addrs: seq<seq<RomEntry>>)
    ensures SortedAs(addrs, times)
  {
    MultisetLength(Sort(Flatten(times), RomAddrLe), Flatten(times));
    addrs := CutLike(times, Sort(Flatten(times), RomAddrLe));
  }

  /** Under the ROM argument an honest chain is accepted exactly when the programs' own
      checks pass over a plain memory. */
  lemma ChainDecidesChecks(progs: seq<seq<PortalOp>>, addrs: seq<seq<RomEntry>>, entryChal: F, trChal: F)
    requires 1 + TotalOps(progs) < U64_LIMIT && SetupAll(progs).Some?
    requires SortedAs(addrs, SetupAll(progs).value.subtraces)
    ensures RunMemAll(progs, map[]).Some?
    ensures AllAccepted(progs, addrs, entryChal, trChal) <==> RunMemAll(progs, map[]).value.checks
  {
    hide Accepted, EnforcesHold, RunMemAll, SetupAll, RomLeaves, SortedAs;
    SetupAllIsMemory(progs);
    RomChainComplete(progs, addrs, entryChal, trChal);
  }

  lemma {:induction false} TotalOpsRenamed<M, N>(f: M -> N, progs: seq<seq<Op<M>>>)
    ensures TotalOps(RenameAll(f, progs)) == TotalOps(progs)
  {
    if progs != [] {
      var n := |progs| - 1;
      TotalOpsRenamed(f, progs[..n]);
      assert RenameAll(f, progs)[..n] == RenameAll(f, progs[..n]);
    }
  }
}
