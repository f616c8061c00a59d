/** The coordinator's part of the memory argument: the address-ordered trace, the leaves of
    the execution tree, and the leaf each subcircuit starts from. Generic in the entry
    type so that it serves ROM and RAM alike. */
module Coordinator {
  import opened Field
  import opened Sequences
  import opened Transcript

  /** A leaf of the execution tree: the running evaluations after a subcircuit and the last
      entry of the address-ordered trace so far. */
  datatype Leaf<+E> = Leaf(timeEval: F, addrEval: F, last: E)

  function LastEntry<E>(padding: E, es: seq<E>): E {
    if es == [] then padding else es[|es| - 1]
  }

  /** Leaf `i` in closed form. */
  function ExecLeaf<E>(times: seq<seq<E>>, addrs: seq<seq<E>>, factor: E -> F, padding: E, i: nat): Leaf<E>
    requires i < |times| && |times| == |addrs|
  {
    Leaf(RunEval(1, Flatten(times[..i + 1]), factor),
         RunEval(1, Flatten(addrs[..i + 1]), factor),
         LastEntry(padding, Flatten(addrs[..i + 1])))
  }

  function ExecLeaves<E>(times: seq<seq<E>>, addrs: seq<seq<E>>, factor: E -> F, padding: E): (r: seq<Leaf<E>>)
    requires |times| == |addrs|
    ensures |r| == |times|
  {
    seq(|times|, i requires 0 <= i < |times| => ExecLeaf(times, addrs, factor, padding, i))
  }

  /** Flattens the subtraces, sorts the whole trace stably and cuts it back into chunks of
      the original sizes. `None` is the panic on a trace with no entry at all. */
  method SortSubtracesByAddr<E>(times: seq<seq<E>>, le: (E, E) -> bool) returns (r: Option<seq<seq<E>>>)
    ensures r.None? <==> Flatten(times) == []
    ensures r.Some? ==> SameShape(r.value, times) && Flatten(r.value) == Sort(Flatten(times), le)
  {
    var flat := Flatten(times);
    if flat == [] {
      return None;
    }
    var sorted := Sort(flat, le);
    MultisetLength(sorted, flat);
    var out := [];
    var taken: nat := 0;
    var i := 0;
    assert times[..0] == [];
    while i < |times|
      invariant 0 <= i <= |times|
      invariant ChunkedSoFar(times, sorted, i, out, taken)
    {
      ChunkStep(times, sorted, i, out, taken);
      out := out + [sorted[taken..taken + |times[i]|]];
      taken := taken + |times[i]|;
      i := i + 1;
    }
    assert times[..i] == times;
    r := Some(out);
  }

  ghost predicate ChunkedSoFar<E>(times: seq<seq<E>>, sorted: seq<E>, i: nat, out: seq<seq<E>>, taken: nat)
    requires i <= |times|
  {
    && SameShape(out, times[..i])
    && taken == |Flatten(times[..i])| <= |sorted|
    && Flatten(out) == sorted[..taken]
  }

  lemma ChunkStep<E>(times: seq<seq<E>>, sorted: seq<E>, i: nat, out: seq<seq<E>>, taken: nat)
    requires i < |times| && |sorted| == |Flatten(times)| && ChunkedSoFar(times, sorted, i, out, taken)
    ensures taken + |times[i]| <= |sorted|
    ensures ChunkedSoFar(times, sorted, i + 1, out + [sorted[taken..taken + |times[i]|]], taken + |times[i]|)
  {
    FlattenPrefix(times, i);
    FlattenPrefix(times, i + 1);
    var chunk := sorted[taken..taken + |times[i]|];
    FlattenSnoc(out, chunk);
    assert sorted[..taken] + chunk == sorted[..taken + |times[i]|];
    assert forall k | 0 <= k < i :: |out[k]| == |times[..i][k]|;
  }

  /** One subtrace: folds its entries pairwise and remembers the last address-ordered one. */
  method FoldSubtrace<E>(evals: RunningEvaluation<E>, time: seq<E>, addrs: seq<E>, before: E) returns (last: E)
    requires |time| == |addrs|
    modifies evals
    ensures evals.timeOrderedEval == RunEval(old(evals.timeOrderedEval), time, evals.factor)
    ensures evals.addrOrderedEval == RunEval(old(evals.addrOrderedEval), addrs, evals.factor)
    ensures last == LastEntry(before, addrs)
  {
    last := before;
    for j := 0 to |time|
      invariant evals.timeOrderedEval == RunEval(old(evals.timeOrderedEval), time[..j], evals.factor)
      invariant evals.addrOrderedEval == RunEval(old(evals.addrOrderedEval), addrs[..j], evals.factor)
      invariant last == LastEntry(before, addrs[..j])
    {
      evals.UpdateTimeOrdered(time[j]);
      evals.UpdateAddrOrdered(addrs[j]);
      last := addrs[j];
      assert time[..j + 1][..j] == time[..j] && addrs[..j + 1][..j] == addrs[..j];
    }
    assert time[..|time|] == time && addrs[..|addrs|] == addrs;
  }

  /** The leaf handed to subcircuit `i`: the previous leaf, or the padding leaf. */
  function CurLeaf<E>(leaves: seq<Leaf<E>>, padding: E, i: nat): Leaf<E>
    requires i <= |leaves|
  {
    if i > 0 then leaves[i - 1] else Leaf(1, 1, padding)
  }

  /** One exec-tree leaf from the one before it. */
  lemma ExecLeafStep<E>(times: seq<seq<E>>, addrs: seq<seq<E>>, factor: E -> F, padding: E, i: nat)
    requires SameShape(times, addrs) && i < |times|
    ensures var cur := CurLeaf(ExecLeaves(times, addrs, factor, padding), padding, i);
            ExecLeaves(times, addrs, factor, padding)[i]
            == Leaf(RunEval(cur.timeEval, times[i], factor), RunEval(cur.addrEval, addrs[i], factor),
                    LastEntry(cur.last, addrs[i]))
  {
    FlattenPrefix(times, i);
    FlattenPrefix(addrs, i);
    RunEvalAppend(1, Flatten(times[..i]), times[i], factor);
    RunEvalAppend(1, Flatten(addrs[..i]), addrs[i], factor);
    if i == 0 {
      assert times[..0] == [] && addrs[..0] == [];
    }
  }

  /** Walks both traces once, multiplying the running evaluations and emitting a leaf after
      every subtrace. */
  method GenerateExecTree<E>(times: seq<seq<E>>, addrs: seq<seq<E>>, factor: E -> F, padding: E)
    returns (leaves: seq<Leaf<E>>)
    requires SameShape(times, addrs)
    ensures leaves == ExecLeaves(times, addrs, factor, padding)
  {
    ghost var all := ExecLeaves(times, addrs, factor, padding);
    var evals := new RunningEvaluation(1, 1, factor);
    leaves := [];
    var last := padding;
    for i := 0 to |times|
      invariant leaves == all[..i]
      invariant evals.factor == factor
      invariant Leaf(evals.timeOrderedEval, evals.addrOrderedEval, last) == CurLeaf(all, padding, i)
    {
      ExecLeafStep(times, addrs, factor, padding, i);
      last := FoldSubtrace(evals, times[i], addrs[i], last);
      leaves := leaves + [Leaf(evals.timeOrderedEval, evals.addrOrderedEval, last)];
    }
  }
}
