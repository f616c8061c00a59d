/** Constraint systems whose witness is allocated in stages. */
module MultiStage {
  import opened Field
  import opened Sequences

  datatype Range = Range(start: nat, end: nat)

  /** The variables one stage of a synthesizer allocates. */
  datatype Stage = Stage(inputs: seq<F>, witnesses: seq<F>)

  datatype SystemState = SystemState(inputs: seq<F>, witnesses: seq<F>, ranges: seq<Range>)

  /** A fresh system holds the constant-one instance variable. */
  const InitialSystem := SystemState([1], [], [])

  function StageStep(s: SystemState, st: Stage): SystemState {
    SystemState(s.inputs + st.inputs, s.witnesses + st.witnesses,
                s.ranges + [Range(|s.witnesses|, |s.witnesses| + |st.witnesses|)])
  }

  function RunStages(stages: seq<Stage>): (s: SystemState)
    ensures |s.ranges| == |stages|
    ensures s.inputs != [] && s.inputs[0] == 1
  {
    if stages == [] then InitialSystem else StageStep(RunStages(stages[..|stages| - 1]), stages[|stages| - 1])
  }

  class MultiStageConstraintSystem {
    var instanceAssignment: seq<F>
    var witnessAssignment: seq<F>
    var variableRangeForStage: seq<Range>

    function State(): SystemState
      reads this
    {
      SystemState(instanceAssignment, witnessAssignment, variableRangeForStage)
    }

    constructor ()
      ensures State() == InitialSystem
    {
      instanceAssignment, witnessAssignment, variableRangeForStage := [1], [], [];
    }

    method InitializeStage()
      modifies this`variableRangeForStage
      ensures variableRangeForStage == old(variableRangeForStage) + [Range(|witnessAssignment|, |witnessAssignment|)]
    {
      var start := |witnessAssignment|;
      variableRangeForStage := variableRangeForStage + [Range(start, start)];
    }

    method FinalizeStage()
      requires variableRangeForStage != []
      modifies this`variableRangeForStage
      ensures var n := |old(variableRangeForStage)| - 1;
              variableRangeForStage
                   == old(variableRangeForStage)[..n]
                        + [Range(old(variableRangeForStage)[n].start, |witnessAssignment|)]
    {
      var n := |variableRangeForStage| - 1;
      variableRangeForStage := variableRangeForStage[n := variableRangeForStage[n].(end := |witnessAssignment|)];
    }

    /** One stage: the synthesizer's closure allocates the stage's variables. */
    method SynthesizeWith(st: Stage)
      modifies this
      ensures State() == StageStep(old(State()), st)
    {
      InitializeStage();
      instanceAssignment := instanceAssignment + st.inputs;
      witnessAssignment := witnessAssignment + st.witnesses;
      FinalizeStage();
    }

    /** The current stage's witness: what the last stage allocated, and nothing else. */
    method CurrentStageWitnessAssignment(ghost stages: seq<Stage>) returns (r: seq<F>)
      requires stages != [] && State() == RunStages(stages)
      ensures r == stages[|stages| - 1].witnesses
    {
      StageRangesPartition(stages);
      var range := variableRangeForStage[|variableRangeForStage| - 1];
      r := witnessAssignment[range.start..range.end];
      assert r == RangeOf(State(), |stages| - 1);
    }
  }

  // ------------------------------------------------------------- the ranges partition

  /** The ranges cover the witness from its first variable to its last, each starting where
      the one before ended. */
  ghost predicate Partition(ranges: seq<Range>, size: nat) {
    && (forall i | 0 <= i < |ranges| :: ranges[i].start <= ranges[i].end <= size)
    && (forall i | 0 <= i < |ranges| - 1 :: ranges[i].end == ranges[i + 1].start)
    && (ranges != [] ==> ranges[0].start == 0 && ranges[|ranges| - 1].end == size)
    && (ranges == [] ==> size == 0)
  }

  /** The variables of range `i`. */
  function RangeOf(s: SystemState, i: nat): seq<F>
    requires i < |s.ranges| && s.ranges[i].start <= s.ranges[i].end <= |s.witnesses|
  {
    s.witnesses[s.ranges[i].start..s.ranges[i].end]
  }

  /** However many stages run, their ranges partition the witness, and range `i` holds
      exactly what stage `i` allocated. */
  lemma {:induction false} StageRangesPartition(stages: seq<Stage>)
    ensures Partition(RunStages(stages).ranges, |RunStages(stages).witnesses|)
    ensures forall i | 0 <= i < |stages| :: RangeOf(RunStages(stages), i) == stages[i].witnesses
  {
    if stages != [] {
      var n := |stages| - 1;
      StageRangesPartition(stages[..n]);
      PartitionStep(RunStages(stages[..n]), stages[n]);
      assert RunStages(stages) == StageStep(RunStages(stages[..n]), stages[n]);
      hide RunStages, RangeOf, Partition;
      forall i | 0 <= i < |stages| ensures RangeOf(RunStages(stages), i) == stages[i].witnesses {
        if i < n {
          assert RangeOf(RunStages(stages[..n]), i) == stages[..n][i].witnesses;
        }
      }
    }
  }

  lemma PartitionStep(s: SystemState, st: Stage)
    requires Partition(s.ranges, |s.witnesses|)
    ensures Partition(StageStep(s, st).ranges, |StageStep(s, st).witnesses|)
    ensures forall i | 0 <= i < |s.ranges| :: RangeOf(StageStep(s, st), i) == RangeOf(s, i)
    ensures RangeOf(StageStep(s, st), |s.ranges|) == st.witnesses
  {
    var t := StageStep(s, st);
    forall i | 0 <= i < |s.ranges| ensures RangeOf(t, i) == RangeOf(s, i) {
      assert t.ranges[i] == s.ranges[i];
      PrefixSlice(s.witnesses, st.witnesses, s.ranges[i].start, s.ranges[i].end);
    }
  }

  lemma PrefixSlice<T>(a: seq<T>, b: seq<T>, i: nat, j: nat)
    requires i <= j <= |a|
    ensures (a + b)[i..j] == a[i..j]
  {}

  /** Two runs whose stages allocate equally many variables have the same ranges. */
  predicate SameSizes(a: seq<Stage>, b: seq<Stage>) {
    && |a| == |b|
    && forall i | 0 <= i < |a| :: |a[i].inputs| == |b[i].inputs| && |a[i].witnesses| == |b[i].witnesses|
  }

  lemma {:induction false} SameSizesSameRanges(a: seq<Stage>, b: seq<Stage>)
    requires SameSizes(a, b)
    ensures var (s, t) := (RunStages(a), RunStages(b));
            s.ranges == t.ranges && |s.inputs| == |t.inputs| && |s.witnesses| == |t.witnesses|
  {
    if a != [] {
      SameSizesSameRanges(a[..|a| - 1], b[..|b| - 1]);
    }
  }
}
