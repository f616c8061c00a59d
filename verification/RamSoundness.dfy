/** Soundness of the RAM memory argument for arbitrary traces. What one accepted subtrace
    guarantees; what the chain leaves open, namely the windows at subtrace boundaries and the
    clock; and the condition under which the reads of a whole run, in the order they are
    made, are consistent. */
module RamSoundness {
  import opened Field
  import opened Sequences
  import opened Bits
  import opened Uint32
  import opened Transcript
  import opened PortalProgram
  import opened Coordinator
  import opened Subcircuit
  import opened RamPortal
  import opened RamCompleteness
  import opened RomSoundness
  import RamChain

  function Clock(e: RamEntryVar): nat { FromBits(e.i) }

  /** How many address runs begin after entry 0 and up to entry `k`. */
  function Climb(own: seq<RamEntryVar>, k: nat): (c: nat)
    requires k < |own|
    ensures c <= k
  {
    if k == 0 then 0 else Climb(own, k - 1) + if own[k].addr == own[k - 1].addr then 0 else 1
  }

  /** The next entry is at the same address with a later stamp, or one address further. */
  predicate OrderedPair(cur: RamEntryVar, next: RamEntryVar) {
    (next.addr == cur.addr && Clock(next) > Clock(cur)) || next.addr == Add(cur.addr, 1)
  }

  predicate Ordered(own: seq<RamEntryVar>) {
    forall k | 0 <= k < |own| - 1 :: OrderedPair(own[k], own[k + 1])
  }

  lemma WindowsAreOrdered(own: seq<RamEntryVar>)
    requires RamWindows(own)
    ensures Ordered(own)
  {
    hide Add, FromBits;
    forall k | 0 <= k < |own| - 1 ensures OrderedPair(own[k], own[k + 1]) {
      assert RamWindowOk(own[k], own[k + 1]);
    }
  }

  /** Addresses are counted from the first one, modulo the field. */
  lemma {:induction false} ClimbIsAddress(own: seq<RamEntryVar>, k: nat)
    requires Ordered(own) && k < |own|
    ensures own[k].addr == Red(own[0].addr + Climb(own, k))
  {
    hide Red, Add, Clock;
    if k == 0 {
      RedOfElement(own[0].addr);
    } else {
      ClimbIsAddress(own, k - 1);
      assert OrderedPair(own[k - 1], own[k - 1 + 1]);
      RamChain.Successor(own[0].addr + Climb(own, k - 1));
    }
  }

  lemma RedOfElement(x: F)
    ensures Red(x) == x
  {
    DivisionUnique(x, 0, x);
  }

  lemma {:induction false} ClimbGrows(own: seq<RamEntryVar>, j: nat, k: nat)
    requires j <= k < |own|
    ensures Climb(own, j) <= Climb(own, k) <= Climb(own, j) + (k - j)
  {
    if j < k {
      ClimbGrows(own, j, k - 1);
    }
  }

  lemma NoWrap(a: nat, b: nat)
    requires a <= b < a + P && Red(a) == Red(b)
    ensures a == b
  {
    CongRed(a);
    CongRed(b);
    var i := MultipleOfCong(Red(a), a);
    var j := MultipleOfCong(Red(b), b);
    assert b - a == i * P - j * P == (i - j) * P;
    MultipleBounds(i - j, P);
  }

  /** In an ordered trace no longer than the field, entries at one address are contiguous. */
  lemma SameAddressSameClimb(own: seq<RamEntryVar>, j: nat, k: nat)
    requires Ordered(own) && j <= k < |own| <= P
    ensures own[j].addr == own[k].addr <==> Climb(own, j) == Climb(own, k)
  {
    hide Red, Ordered, OrderedPair, Climb, FromBits;
    ClimbIsAddress(own, j);
    ClimbIsAddress(own, k);
    ClimbGrows(own, j, k);
    if own[j].addr == own[k].addr {
      NoWrap(own[0].addr + Climb(own, j), own[0].addr + Climb(own, k));
    }
  }

  /** Entries are strictly ordered: by address run, and by time within a run. */
  lemma {:induction false} StrictlyOrdered(own: seq<RamEntryVar>, j: nat, k: nat)
    requires Ordered(own) && j < k < |own|
    ensures Climb(own, j) < Climb(own, k) || (Climb(own, j) == Climb(own, k) && Clock(own[j]) < Clock(own[k]))
    decreases k
  {
    hide Add, Clock;
    assert OrderedPair(own[k - 1], own[k - 1 + 1]);
    RamChain.AddOneMoves(own[k - 1].addr);
    if j < k - 1 {
      StrictlyOrdered(own, j, k - 1);
    }
  }

  /** Entry `j` is where the read `k` gets its value: the nearest earlier entry of the same
      address that is a write, or the subtrace's first entry. */
  predicate Supplies(own: seq<RamEntryVar>, j: nat, k: nat)
    requires j < k < |own|
  {
    && own[j].addr == own[k].addr && own[j].val == own[k].val
    && (own[j].read ==> j == 0)
    && (forall m | j < m < k :: own[m].addr == own[k].addr && own[m].read)
  }

  lemma {:induction false} FindSupplier(own: seq<RamEntryVar>, k: nat) returns (j: nat)
    requires RamWindows(own) && k < |own| && own[k].read && k > 0
    ensures j < k && Supplies(own, j, k)
    decreases k
  {
    hide Add, Clock;
    j := k - 1;
    assert RamWindowOk(own[k - 1], own[k - 1 + 1]);
    RamChain.AddOneMoves(own[k - 1].addr);
    if own[k - 1].read && k > 1 {
      j := FindSupplier(own, k - 1);
    }
  }

  /** By the stamps, `w` is the latest write to its address before `r`, and carries the value
      read. */
  predicate LatestWrite(es: seq<RamEntryVar>, w: RamEntryVar, r: RamEntryVar) {
    && w.addr == r.addr && w.val == r.val && !w.read && Clock(w) < Clock(r)
    && forall e | e in es && e.addr == r.addr && !e.read && Clock(e) < Clock(r) :: Clock(e) <= Clock(w)
  }

  /** A read whose address run begins after the subtrace's first entry, or one in the first
      run when that starts with a write, returns the latest earlier write. */
  lemma ReadSeesLatestWrite(own: seq<RamEntryVar>, k: nat) returns (j: nat)
    requires RamWindows(own) && k < |own| <= P && own[k].read
    requires own[k].addr != own[0].addr || !own[0].read
    ensures j < k && LatestWrite(own, own[j], own[k])
  {
    hide Clock, RamWindowOk, Ordered;
    assert k > 0;
    j := FindSupplier(own, k);
    WindowsAreOrdered(own);
    StrictlyOrdered(own, j, k);
    SameAddressSameClimb(own, j, k);
    forall e | e in own && e.addr == own[k].addr && !e.read && Clock(e) < Clock(own[k])
      ensures Clock(e) <= Clock(own[j])
    {
      var m :| 0 <= m < |own| && own[m] == e;
      if m > k {
        StrictlyOrdered(own, k, m);
        SameAddressSameClimb(own, k, m);
      } else if m < j {
        StrictlyOrdered(own, m, j);
        SameAddressSameClimb(own, m, j);
      }
    }
  }

  // ---------------------------------------------------------------------- the clock

  /** How many of the first `k` carries are set. */
  function SetCarries(carry: nat -> bool, k: nat): (n: nat)
    ensures n <= k
  {
    if k == 0 then 0 else SetCarries(carry, k - 1) + if carry(k - 1) then 1 else 0
  }

  /** Within a subtrace the clock advances by the number of set carries, modulo its range. */
  lemma {:induction false} ClockCountsCarries(time: seq<RamEntryVar>, carry: nat -> bool, k: nat)
    requires Steps(time, carry) && k < |time|
    ensures Clock(time[k]) == (Clock(time[0]) + SetCarries(carry, k)) % U32_LIMIT
  {
    hide FromBits, Increment;
    U32LimitIsPow2();
    if k == 0 {
      ClockInRange(time[0]);
    } else {
      ClockCountsCarries(time, carry, k - 1);
      IncrementAddsOne(time[k - 1].i);
      assert Step(time[k - 1].i, carry(k - 1)) == time[k - 1 + 1].i;
    }
  }

  lemma ClockInRange(e: RamEntryVar)
    ensures Clock(e) < U32_LIMIT
  {
    U32LimitIsPow2();
    assert FromBits(e.i) < Pow2(|e.i|);
  }

  predicate TicksAt(time: seq<RamEntryVar>, k: nat)
    requires k < |time| - 1
  {
    time[k + 1].i == Increment(time[k].i)
  }

  /** The clock ticks at every access exactly when every carry is set. */
  lemma ClockTicksIff(time: seq<RamEntryVar>, carry: nat -> bool)
    requires Steps(time, carry)
    ensures (forall k | 0 <= k < |time| - 1 :: TicksAt(time, k)) <==> (forall k | 0 <= k < |time| - 1 :: carry(k))
  {
    hide Increment;
    forall k | 0 <= k < |time| - 1 ensures TicksAt(time, k) <==> carry(k) {
      assert Step(time[k].i, carry(k)) == time[k + 1].i;
      IncrementMoves(time[k].i);
    }
    hide TicksAt;
  }

  /** What acceptance says of every single subtrace of a chain: own entries are ordered by
      address and then by stamp, each such read returns the latest write by the stamps, and
      the clock repeats or advances by one at every access. */
  lemma RamSubtraceSound(c: RamChallenges, progs: seq<seq<PortalOp>>, times: seq<seq<RamEntryVar>>,
                         addrs: seq<seq<RamEntryVar>>, leaves: seq<Leaf<RamEntryVar>>, i: nat)
    requires Consumes(progs, times, addrs) && i < |progs| && |addrs[i]| <= P
    requires ChainSatisfied(RamMemory(c), progs, times, addrs, leaves)
    ensures RamWindows(addrs[i]) && Ordered(addrs[i]) && ClockMoves(times[i])
    ensures forall k | 0 <= k < |addrs[i]| && addrs[i][k].read
              && (addrs[i][k].addr != addrs[i][0].addr || !addrs[i][0].read) ::
              exists j :: 0 <= j < k && LatestWrite(addrs[i], addrs[i][j], addrs[i][k])
  {
    hide LatestWrite, RamWindows, Ordered, ClockMoves, RamFactor, SetsAgree, EnforcesHold;
    LinkedLeaf(RamMemory(c), progs, times, addrs, leaves, i);
    assert ([leaves[i].last] + addrs[i])[1..] == addrs[i];
    WindowsAreOrdered(addrs[i]);
    forall k | 0 <= k < |addrs[i]| && addrs[i][k].read
      && (addrs[i][k].addr != addrs[i][0].addr || !addrs[i][0].read)
      ensures exists j :: 0 <= j < k && LatestWrite(addrs[i], addrs[i][j], addrs[i][k])
    {
      var j := ReadSeesLatestWrite(addrs[i], k);
    }
  }

  // ------------------------------------------------------------ across subtrace boundaries

  lemma WindowsConcat(x: seq<RamEntryVar>, y: seq<RamEntryVar>)
    ensures RamWindows(x + y) <==>
              RamWindows(x) && RamWindows(y) && (x != [] && y != [] ==> RamWindowOk(x[|x| - 1], y[0]))
  {
    hide RamWindowOk;
    if RamWindows(x + y) {
      forall k | 0 <= k < |x| - 1 ensures RamWindowOk(x[k], x[k + 1]) {
        assert RamWindowOk((x + y)[k], (x + y)[k + 1]);
      }
      forall k | 0 <= k < |y| - 1 ensures RamWindowOk(y[k], y[k + 1]) {
        assert RamWindowOk((x + y)[|x| + k], (x + y)[|x| + k + 1]);
      }
      if x != [] && y != [] {
        assert RamWindowOk((x + y)[|x| - 1], (x + y)[|x| - 1 + 1]);
      }
    }
    if RamWindows(x) && RamWindows(y) && (x != [] && y != [] ==> RamWindowOk(x[|x| - 1], y[0])) {
      forall k | 0 <= k < |x + y| - 1 ensures RamWindowOk((x + y)[k], (x + y)[k + 1]) {
        if k >= |x| {
          assert (x + y)[k] == y[k - |x|] && (x + y)[k + 1] == y[k - |x| + 1];
        }
      }
    }
  }

  /** The windows no subcircuit checks: between the last entry so far and a subtrace's first. */
  predicate BoundaryOk(addrs: seq<seq<RamEntryVar>>, i: nat)
    requires i < |addrs|
  {
    var before := Flatten(addrs[..i]);
    before != [] && addrs[i] != [] ==> RamWindowOk(before[|before| - 1], addrs[i][0])
  }

  lemma {:induction false} FlattenWindows(addrs: seq<seq<RamEntryVar>>, i: nat)
    requires i <= |addrs| && forall k | 0 <= k < |addrs| :: RamWindows(addrs[k])
    ensures RamWindows(Flatten(addrs[..i])) <==> forall k | 0 <= k < i :: BoundaryOk(addrs, k)
  {
    hide RamWindows, RamWindowOk;
    if i == 0 {
      EmptyWindows();
      assert addrs[..0] == [];
    } else {
      FlattenWindows(addrs, i - 1);
      FlattenPrefix(addrs, i - 1);
      WindowsConcat(Flatten(addrs[..i - 1]), addrs[i - 1]);
      assert (forall k | 0 <= k < i :: BoundaryOk(addrs, k))
        <==> (forall k | 0 <= k < i - 1 :: BoundaryOk(addrs, k)) && BoundaryOk(addrs, i - 1);
    }
  }

  lemma EmptyWindows()
    ensures RamWindows([])
  {}

  /** The same boundary is in order, whatever is read there. */
  predicate BoundaryOrdered(addrs: seq<seq<RamEntryVar>>, i: nat)
    requires i < |addrs|
  {
    var before := Flatten(addrs[..i]);
    before != [] && addrs[i] != [] ==> OrderedPair(before[|before| - 1], addrs[i][0])
  }

  lemma OrderedConcat(x: seq<RamEntryVar>, y: seq<RamEntryVar>)
    requires Ordered(x) && Ordered(y) && (x != [] && y != [] ==> OrderedPair(x[|x| - 1], y[0]))
    ensures Ordered(x + y)
  {
    hide OrderedPair;
    forall k | 0 <= k < |x + y| - 1 ensures OrderedPair((x + y)[k], (x + y)[k + 1]) {
      if k >= |x| {
        assert (x + y)[k] == y[k - |x|] && (x + y)[k + 1] == y[k - |x| + 1];
      }
    }
  }

  lemma {:induction false} FlattenOrdered(addrs: seq<seq<RamEntryVar>>, i: nat)
    requires i <= |addrs|
    requires forall k | 0 <= k < |addrs| :: Ordered(addrs[k]) && BoundaryOrdered(addrs, k)
    ensures Ordered(Flatten(addrs[..i]))
  {
    hide Ordered, OrderedPair;
    if i == 0 {
      NothingOrdered();
      assert addrs[..0] == [];
    } else {
      FlattenOrdered(addrs, i - 1);
      FlattenPrefix(addrs, i - 1);
      assert BoundaryOrdered(addrs, i - 1);
      OrderedConcat(Flatten(addrs[..i - 1]), addrs[i - 1]);
    }
  }

  lemma NothingOrdered()
    ensures Ordered([])
  {}

  // ------------------------------------------------------- consistency in execution order

  /** Access `j` is the latest one before `k` at its address, and carries its value. */
  predicate IsLatest(t: seq<RamEntryVar>, j: nat, k: nat)
    requires j < k < |t|
  {
    && t[j].addr == t[k].addr && t[j].val == t[k].val
    && forall q | j < q < k :: t[q].addr != t[k].addr
  }

  ghost predicate SeesLatest(t: seq<RamEntryVar>, k: nat)
    requires k < |t|
  {
    exists j :: 0 <= j < k && IsLatest(t, j, k)
  }

  /** In the order of execution, every read returns what was last written to or read from its
      address. */
  ghost predicate Consistent(t: seq<RamEntryVar>) {
    forall k | 0 <= k < |t| && t[k].read :: SeesLatest(t, k)
  }

  /** The stamps follow the order of execution: across subtrace boundaries too, and without
      wrapping round. */
  predicate StampsIncrease(t: seq<RamEntryVar>) {
    forall j, k | 0 <= j < k < |t| :: Clock(t[j]) < Clock(t[k])
  }

  predicate StartsWithWrite(es: seq<RamEntryVar>) { es != [] ==> !es[0].read }

  lemma OccursAt(t: seq<RamEntryVar>, es: seq<RamEntryVar>, m: nat) returns (k: nat)
    requires multiset(t) == multiset(es) && m < |es|
    ensures k < |t| && t[k] == es[m]
  {
    assert es[m] in es;
    MultisetMember(t, es, es[m]);
    k :| 0 <= k < |t| && t[k] == es[m];
  }

  /** A coherent sorted trace: what a read is preceded by in the sorted trace is what it is
      preceded by in time. */
  lemma SortedReadSeesLatest(es: seq<RamEntryVar>, t: seq<RamEntryVar>, k: nat)
    requires RamWindows(es) && StartsWithWrite(es) && |es| <= P
    requires StampsIncrease(t) && multiset(t) == multiset(es) && k < |t| && t[k].read
    ensures SeesLatest(t, k)
  {
    hide Clock, Ordered, Add;
    var m := OccursAt(es, t, k);
    WindowsAreOrdered(es);
    assert m > 0 && RamWindowOk(es[m - 1], es[m - 1 + 1]);
    var j := OccursAt(t, es, m - 1);
    StrictlyOrdered(es, m - 1, m);
    SameAddressSameClimb(es, m - 1, m);
    assert j < k by { StampOrder(t, k, j); }
    forall q | j < q < k ensures t[q].addr != t[k].addr {
      if t[q].addr == t[k].addr {
        var n := OccursAt(es, t, q);
        StampOrder(t, j, q);
        StampOrder(t, q, k);
        NothingInBetween(es, m, n);
      }
    }
    assert IsLatest(t, j, k);
  }

  lemma StampOrder(t: seq<RamEntryVar>, j: nat, k: nat)
    requires StampsIncrease(t) && j < |t| && k < |t|
    ensures Clock(t[j]) < Clock(t[k]) <==> j < k
  {
    hide Clock;
  }

  /** Nothing at the address of entry `m` is stamped between it and the entry before. */
  lemma NothingInBetween(es: seq<RamEntryVar>, m: nat, n: nat)
    requires Ordered(es) && 0 < m < |es| <= P && n < |es| && es[m - 1].addr == es[m].addr == es[n].addr
    ensures !(Clock(es[m - 1]) < Clock(es[n]) < Clock(es[m]))
  {
    hide Clock, Ordered;
    if n < m - 1 {
      StrictlyOrdered(es, n, m - 1);
      SameAddressSameClimb(es, n, m - 1);
    } else if n > m {
      StrictlyOrdered(es, m, n);
      SameAddressSameClimb(es, m, n);
    }
  }

  /** Stamps at one address order an ordered trace. */
  lemma PositionByStamp(es: seq<RamEntryVar>, m: nat, n: nat)
    requires Ordered(es) && m < |es| <= P && n < |es| && es[m].addr == es[n].addr && Clock(es[m]) < Clock(es[n])
    ensures m < n && Climb(es, m) == Climb(es, n)
  {
    hide Clock, Ordered;
    if n < m {
      StrictlyOrdered(es, n, m);
      SameAddressSameClimb(es, n, m);
    } else {
      SameAddressSameClimb(es, m, n);
    }
  }

  /** In a consistent run, a read of an ordered trace follows an entry of its own address, and
      carries its value. */
  lemma ConsistentWindow(es: seq<RamEntryVar>, t: seq<RamEntryVar>, m: nat)
    requires Ordered(es) && |es| <= P && StampsIncrease(t) && multiset(t) == multiset(es)
    requires Consistent(t) && m < |es| && es[m].read
    ensures m > 0 && es[m - 1].addr == es[m].addr && es[m - 1].val == es[m].val
  {
    hide Clock, Ordered, OrderedPair, Climb;
    var k := OccursAt(t, es, m);
    assert SeesLatest(t, k);
    var j :| 0 <= j < k && IsLatest(t, j, k);
    var n := OccursAt(es, t, j);
    StampOrder(t, j, k);
    PositionByStamp(es, n, m);
    ClimbBetween(es, n, m);
    var q := OccursAt(t, es, m - 1);
    if n < m - 1 {
      StrictlyOrdered(es, n, m - 1);
      SameAddressSameClimb(es, n, m - 1);
      StrictlyOrdered(es, m - 1, m);
      SameAddressSameClimb(es, m - 1, m);
      StampOrder(t, j, q);
      StampOrder(t, q, k);
    }
  }

  lemma ClimbBetween(es: seq<RamEntryVar>, n: nat, m: nat)
    requires n < m < |es| && Climb(es, n) == Climb(es, m)
    ensures Climb(es, m - 1) == Climb(es, m)
  {
    ClimbGrows(es, n, m - 1);
    ClimbGrows(es, m - 1, m);
  }

  /** The criterion: when the stamps follow the execution, an ordered rearrangement of the run
      is coherent and starts with a write exactly when the run is consistent. */
  lemma ConsistentIff(es: seq<RamEntryVar>, t: seq<RamEntryVar>)
    requires Ordered(es) && |es| <= P && StampsIncrease(t) && multiset(t) == multiset(es)
    ensures Consistent(t) <==> RamWindows(es) && StartsWithWrite(es)
  {
    hide FromBits, Ordered, StampsIncrease, SeesLatest, Add;
    if RamWindows(es) && StartsWithWrite(es) {
      forall k | 0 <= k < |t| && t[k].read ensures SeesLatest(t, k) {
        SortedReadSeesLatest(es, t, k);
      }
    }
    if Consistent(t) {
      forall k | 0 <= k < |es| - 1 ensures RamWindowOk(es[k], es[k + 1]) {
        OrderedAt(es, k);
        if es[k + 1].read {
          ConsistentWindow(es, t, k + 1);
        }
        RamChain.AddOneMoves(es[k].addr);
      }
      if es != [] && es[0].read {
        ConsistentWindow(es, t, 0);
      }
    }
  }

  lemma OrderedAt(es: seq<RamEntryVar>, k: nat)
    requires Ordered(es) && k < |es| - 1
    ensures OrderedPair(es[k], es[k + 1])
  {}

  // ------------------------------------------------------------------- the whole chain

  lemma ChainOfWindows(c: RamChallenges, progs: seq<seq<PortalOp>>, times: seq<seq<RamEntryVar>>,
                       addrs: seq<seq<RamEntryVar>>, leaves: seq<Leaf<RamEntryVar>>)
    requires Consumes(progs, times, addrs)
    requires ChainSatisfied(RamMemory(c), progs, times, addrs, leaves)
    ensures forall i | 0 <= i < |addrs| :: RamWindows(addrs[i]) && Ordered(addrs[i])
    ensures RamWindows(Flatten(addrs)) <==> forall i | 0 <= i < |addrs| :: BoundaryOk(addrs, i)
    ensures forall i | 0 <= i < |progs| ::
              SetsAgree(progs[i], [], RamVals(times[i])) && EnforcesHold(progs[i], [], RamVals(times[i]))
  {
    hide RamWindows, Ordered, RamFactor, SetsAgree, EnforcesHold, BoundaryOk, Flatten, ClockMoves;
    forall i | 0 <= i < |progs|
      ensures RamWindows(addrs[i]) && Ordered(addrs[i])
      ensures SetsAgree(progs[i], [], RamVals(times[i])) && EnforcesHold(progs[i], [], RamVals(times[i]))
    {
      LinkedLeaf(RamMemory(c), progs, times, addrs, leaves, i);
      assert ([leaves[i].last] + addrs[i])[1..] == addrs[i];
      WindowsAreOrdered(addrs[i]);
      assert Values(RamMemory(c), times[i]) == RamVals(times[i]);
    }
    FlattenWindows(addrs, |addrs|);
    assert addrs[..|addrs|] == addrs;
  }

  lemma BoundariesOrdered(addrs: seq<seq<RamEntryVar>>)
    requires forall i | 0 <= i < |addrs| :: BoundaryOk(addrs, i)
    ensures forall i | 0 <= i < |addrs| :: BoundaryOrdered(addrs, i)
  {
    hide Flatten, FromBits, Add;
    forall i | 0 <= i < |addrs| ensures BoundaryOrdered(addrs, i) {
      assert BoundaryOk(addrs, i);
    }
  }

  /** Soundness of the chain. Let all subcircuits be accepted, the address-ordered trace be a
      rearrangement of the time-ordered one, the stamps follow the execution and the subtrace
      boundaries be in order. Then every read of the run returns the latest earlier access
      exactly when the address-ordered trace starts with a write and its boundary windows,
      which no subcircuit checks, hold. */
  lemma RamChainSound(c: RamChallenges, progs: seq<seq<PortalOp>>, times: seq<seq<RamEntryVar>>,
                      addrs: seq<seq<RamEntryVar>>, leaves: seq<Leaf<RamEntryVar>>)
    requires Consumes(progs, times, addrs) && |Flatten(times)| <= P
    requires multiset(Flatten(times)) == multiset(Flatten(addrs))
    requires ChainSatisfied(RamMemory(c), progs, times, addrs, leaves)
    requires StampsIncrease(Flatten(times))
    ensures (forall i | 0 <= i < |addrs| :: BoundaryOk(addrs, i)) && StartsWithWrite(Flatten(addrs))
            ==> Consistent(Flatten(times))
    ensures (forall i | 0 <= i < |addrs| :: BoundaryOrdered(addrs, i)) ==>
              (Consistent(Flatten(times))
               <==> StartsWithWrite(Flatten(addrs)) && forall i | 0 <= i < |addrs| :: BoundaryOk(addrs, i))
    ensures forall i | 0 <= i < |progs| ::
              SetsAgree(progs[i], [], RamVals(times[i])) && EnforcesHold(progs[i], [], RamVals(times[i]))
  {
    hide RamWindows, Ordered, RamFactor, SetsAgree, EnforcesHold, BoundaryOk, BoundaryOrdered, Flatten, ClockMoves,
         Consistent, StartsWithWrite, StampsIncrease;
    ChainOfWindows(c, progs, times, addrs, leaves);
    MultisetLength(Flatten(times), Flatten(addrs));
    if forall i | 0 <= i < |addrs| :: BoundaryOk(addrs, i) {
      BoundariesOrdered(addrs);
    }
    if forall i | 0 <= i < |addrs| :: BoundaryOrdered(addrs, i) {
      FlattenOrdered(addrs, |addrs|);
      assert addrs[..|addrs|] == addrs;
      ConsistentIff(Flatten(addrs), Flatten(times));
    }
  }

  /** Runs RAM stage 1 for every request, all against one list of committed leaves, with the
      provers' choices of carries. It ends well exactly when every subcircuit's constraints
      hold under its carries and produce a committed leaf. A linked run is a chain, and so
      consistent in execution order under the conditions of `RamChainSound`. */
  method ProveAllRam(progs: seq<seq<PortalOp>>, times: seq<seq<RamEntryVar>>, addrs: seq<seq<RamEntryVar>>,
                     curs: seq<Leaf<RamEntryVar>>, c: RamChallenges, committed: seq<Leaf<RamEntryVar>>,
                     carries: seq<nat -> bool>)
    returns (nexts: Option<seq<Leaf<RamEntryVar>>>)
    requires Consumes(progs, times, addrs) && |curs| == |carries| == |progs|
    ensures nexts.None? <==> exists i | 0 <= i < |progs| ::
              var next := NextLeaf(RamMemory(c), i, |progs|, progs[i], times[i], addrs[i], curs[i]);
              next.None? || next.value !in committed || !Steps(times[i], carries[i])
    ensures nexts.Some? ==> |nexts.value| == |progs| && forall l | l in nexts.value :: l in committed
    ensures nexts.Some? && progs != [] ==> curs[0].timeEval == 1 && curs[0].addrEval == 1 && !curs[0].last.read
    ensures nexts.Some? && progs != [] && Linked(curs, nexts.value) ==>
              ChainSatisfied(RamMemory(c), progs, times, addrs, [curs[0]] + nexts.value)
    ensures nexts.Some? && progs != [] && Linked(curs, nexts.value)
            && |Flatten(times)| <= P && multiset(Flatten(times)) == multiset(Flatten(addrs))
            && StampsIncrease(Flatten(times)) && StartsWithWrite(Flatten(addrs))
            && (forall i | 0 <= i < |addrs| :: BoundaryOk(addrs, i)) ==>
              && Consistent(Flatten(times))
              && forall i | 0 <= i < |progs| ::
                   SetsAgree(progs[i], [], RamVals(times[i])) && EnforcesHold(progs[i], [], RamVals(times[i]))
  {
    hide NextLeaf, RamFactor, Consistent, SetsAgree, EnforcesHold, Flatten, ChainSatisfied, Linked, Steps, BoundaryOk,
         StampsIncrease, StartsWithWrite, RamVals;
    ghost var mem := RamMemory(c);
    var leaves := [];
    for i := 0 to |progs|
      invariant |leaves| == i
      invariant forall k | 0 <= k < i :: leaves[k] in committed && Steps(times[k], carries[k])
      invariant forall k | 0 <= k < i ::
                  NextLeaf(mem, k, |progs|, progs[k], times[k], addrs[k], curs[k]) == Some(leaves[k])
      invariant i > 0 ==> curs[0].timeEval == 1 && curs[0].addrEval == 1 && !curs[0].last.read
    {
      var next := GenerateRamConstraints(i, |progs|, progs[i], times[i], addrs[i], curs[i], c, committed, carries[i]);
      if next.None? {
        return None;
      }
      leaves := leaves + [next.value];
    }
    if progs != [] {
      ChainOfRequests(mem, progs, times, addrs, curs, leaves);
      if Linked(curs, leaves) && |Flatten(times)| <= P && multiset(Flatten(times)) == multiset(Flatten(addrs))
        && StampsIncrease(Flatten(times)) {
        RamChainSound(c, progs, times, addrs, [curs[0]] + leaves);
      }
    }
    nexts := Some(leaves);
  }

  // ------------------------------------------------------- by the prover's own stamps

  /** By the stamps, every read of the trace returns the latest earlier write to its address. */
  ghost predicate RamConsistent(es: seq<RamEntryVar>) {
    forall r | r in es && r.read :: HasLatestWrite(es, r)
  }

  ghost predicate HasLatestWrite(es: seq<RamEntryVar>, r: RamEntryVar) {
    exists w :: w in es && LatestWrite(es, w, r)
  }

  lemma CoherentTraceRamConsistent(es: seq<RamEntryVar>)
    requires RamWindows(es) && |es| <= P && (es != [] ==> !es[0].read)
    ensures RamConsistent(es)
  {
    hide LatestWrite, RamWindows;
    forall r | r in es && r.read ensures HasLatestWrite(es, r) {
      var k :| 0 <= k < |es| && es[k] == r;
      var j := ReadSeesLatestWrite(es, k);
      assert es[j] in es;
    }
  }

  lemma RamConsistentRearranged(a: seq<RamEntryVar>, b: seq<RamEntryVar>)
    requires multiset(a) == multiset(b) && RamConsistent(b)
    ensures RamConsistent(a)
  {
    hide Clock;
    forall r | r in a && r.read ensures HasLatestWrite(a, r) {
      MultisetMember(a, b, r);
      assert HasLatestWrite(b, r);
      var w :| w in b && LatestWrite(b, w, r);
      MultisetMember(a, b, w);
      forall e | e in a && e.addr == r.addr && !e.read && Clock(e) < Clock(r) ensures Clock(e) <= Clock(w) {
        MultisetMember(a, b, e);
      }
    }
  }

  /** Without any condition on the stamps the same boundary conditions still give consistency
      by the stamps, whatever order they were made in. */
  lemma RamChainStampSound(c: RamChallenges, progs: seq<seq<PortalOp>>, times: seq<seq<RamEntryVar>>,
                           addrs: seq<seq<RamEntryVar>>, leaves: seq<Leaf<RamEntryVar>>)
    requires Consumes(progs, times, addrs) && |Flatten(times)| <= P
    requires multiset(Flatten(times)) == multiset(Flatten(addrs))
    requires ChainSatisfied(RamMemory(c), progs, times, addrs, leaves)
    requires (forall i | 0 <= i < |addrs| :: BoundaryOk(addrs, i)) && StartsWithWrite(Flatten(addrs))
    ensures RamConsistent(Flatten(times))
  {
    hide RamWindows, RamFactor, SetsAgree, EnforcesHold, BoundaryOk, RamConsistent, Flatten, ClockMoves;
    ChainOfWindows(c, progs, times, addrs, leaves);
    MultisetLength(Flatten(times), Flatten(addrs));
    CoherentTraceRamConsistent(Flatten(addrs));
    RamConsistentRearranged(Flatten(times), Flatten(addrs));
  }

  // ------------------------------------------------------------ what is not checked

  lemma OneOp(ops: seq<PortalOp>, val: F)
    requires |ops| == 1 && (ops[0].Get? || (ops[0].Set? && ops[0].value([]) == val))
    ensures PortalOps(ops) == 1 && SetsAgree(ops, [], [val]) && EnforcesHold(ops, [], [val])
  {
    assert ops[1..] == [] && [val][1..] == [];
  }

  lemma OneFactor(init: F, e: RamEntryVar, factor: RamEntryVar -> F)
    ensures RunEval(init, [e], factor) == Mul(init, factor(e))
  {
    assert [e][..0] == [];
  }

  lemma OneIsCoherent(last: RamEntryVar, t: RamEntryVar, a: RamEntryVar)
    ensures RamCoherent([t], [last] + [a])
  {
    assert ([last] + [a])[1..] == [a];
  }

  /** A subcircuit with one access and no check of its own, taken by itself. */
  lemma SingleAccess(c: RamChallenges, idx: nat, n: nat, ops: seq<PortalOp>, t: RamEntryVar, a: RamEntryVar,
                     cur: Leaf<RamEntryVar>)
    requires |ops| == 1 && (ops[0].Get? || (ops[0].Set? && ops[0].value([]) == t.val))
    requires idx == 0 ==> cur.timeEval == 1 && cur.addrEval == 1 && !cur.last.read
    requires idx + 1 == n ==> Mul(cur.timeEval, RamFactor(c)(t)) == Mul(cur.addrEval, RamFactor(c)(a))
    ensures PortalOps(ops) == 1
    ensures NextLeaf(RamMemory(c), idx, n, ops, [t], [a], cur)
         == Some(Leaf(Mul(cur.timeEval, RamFactor(c)(t)), Mul(cur.addrEval, RamFactor(c)(a)), a))
  {
    hide RamFactor, RunEval, SetsAgree, EnforcesHold, PortalOps, RamCoherent, Mul;
    OneOp(ops, t.val);
    assert Values(RamMemory(c), [t]) == [t.val];
    OneFactor(cur.timeEval, t, RamFactor(c));
    OneFactor(cur.addrEval, a, RamFactor(c));
    OneIsCoherent(cur.last, t, a);
  }

  function StaleRead(): seq<seq<PortalOp>> {
    [[Set("x", (seen: seq<F>) => 0)], [Get("x")]]
  }

  function StaleTrace(): (r: seq<seq<RamEntryVar>>)
    ensures |r| == 2
  {
    [[RamEntryVar(1, 0, ZeroTime(), false)], [RamEntryVar(1, 1, Increment(ZeroTime()), true)]]
  }

  lemma StaleReadConsumes()
    ensures Consumes(StaleRead(), StaleTrace(), StaleTrace())
  {
    hide ZeroTime, Increment;
    assert StaleRead()[0][1..] == [] && StaleRead()[1][1..] == [];
  }

  lemma StaleReadInconsistent()
    ensures !Consistent(Flatten(StaleTrace()))
  {
    hide ZeroTime, Increment, Flatten;
    var trace := StaleTrace();
    FlattenTwo(trace[0], trace[1]);
    assert trace == [trace[0], trace[1]];
    var t := Flatten(trace);
    forall j | 0 <= j < 1 ensures !IsLatest(t, j, 1) {}
    assert t[1].read && !SeesLatest(t, 1);
  }

  /** Without the boundary window the chain is not sound: subcircuit 0 writes 0 to a wire,
      subcircuit 1 reads 1 from it, and both are accepted under all challenges. */
  lemma BoundaryIsUnchecked(c: RamChallenges)
    ensures Consumes(StaleRead(), StaleTrace(), StaleTrace())
    ensures !Consistent(Flatten(StaleTrace()))
    ensures exists leaves :: ChainSatisfied(RamMemory(c), StaleRead(), StaleTrace(), StaleTrace(), leaves)
  {
    hide ZeroTime, Increment, RamFactor, RunEval, Flatten, Consistent, NextLeaf, PortalOps, Consumes;
    StaleReadInconsistent();
    StaleReadConsumes();
    var trace := StaleTrace();
    var write, read := trace[0][0], trace[1][0];
    var start := Leaf(1, 1, RamEntryVar(0, 0, ZeroTime(), false));
    SingleAccess(c, 0, 2, StaleRead()[0], write, write, start);
    var once := Mul(1, RamFactor(c)(write));
    var middle := Leaf(once, once, write);
    SingleAccess(c, 1, 2, StaleRead()[1], read, read, middle);
    var twice := Mul(once, RamFactor(c)(read));
    assert ChainSatisfied(RamMemory(c), StaleRead(), trace, trace, [start, middle, Leaf(twice, twice, read)]);
  }

  function Stamped(n: nat): U32 { LeBits(n, 32) }

  lemma StampedIs(n: nat)
    requires n < U32_LIMIT
    ensures FromBits(Stamped(n)) == n
  {
    U32LimitIsPow2();
    NumberRoundTrip(n, 32);
  }

  /** Write 0, write 1, read, in three subcircuits. */
  function TwoWrites(): seq<seq<PortalOp>> {
    [[Set("x", (seen: seq<F>) => 0)], [Set("x", (seen: seq<F>) => 1)], [Get("x")]]
  }

  /** The second write is stamped before the first, and the read returns the first. */
  function BackdatedTrace(): (r: seq<seq<RamEntryVar>>)
    ensures |r| == 3
  {
    [[RamEntryVar(1, 0, Stamped(10), false)], [RamEntryVar(1, 1, Stamped(0), false)],
     [RamEntryVar(1, 0, Stamped(11), true)]]
  }

  function BackdatedSorted(): (r: seq<seq<RamEntryVar>>)
    ensures |r| == 3
  {
    [BackdatedTrace()[1], BackdatedTrace()[0], BackdatedTrace()[2]]
  }

  lemma FlattenThree<T>(a: seq<T>, b: seq<T>, d: seq<T>)
    ensures Flatten([a, b, d]) == a + b + d
  {
    FlattenTwo(a, b);
    FlattenSnoc([a, b], d);
    assert [a, b] + [d] == [a, b, d];
  }

  lemma BackdatedShape()
    ensures Flatten(BackdatedTrace()) == [BackdatedTrace()[0][0], BackdatedTrace()[1][0], BackdatedTrace()[2][0]]
    ensures Flatten(BackdatedSorted()) == [BackdatedTrace()[1][0], BackdatedTrace()[0][0], BackdatedTrace()[2][0]]
    ensures multiset(Flatten(BackdatedTrace())) == multiset(Flatten(BackdatedSorted()))
    ensures Consumes(TwoWrites(), BackdatedTrace(), BackdatedSorted())
  {
    hide Stamped, Flatten;
    var t := BackdatedTrace();
    FlattenThree(t[0], t[1], t[2]);
    FlattenThree(t[1], t[0], t[2]);
    assert t == [t[0], t[1], t[2]] && BackdatedSorted() == [t[1], t[0], t[2]];
    forall i | 0 <= i < 3 ensures PortalOps(TwoWrites()[i]) == 1 {
      assert TwoWrites()[i][1..] == [];
    }
  }

  lemma BackdatedBoundaries()
    ensures StartsWithWrite(Flatten(BackdatedSorted()))
    ensures forall i | 0 <= i < 3 :: BoundaryOk(BackdatedSorted(), i)
  {
    hide Flatten, Stamped, FromBits;
    BackdatedShape();
    StampedIs(0);
    StampedIs(10);
    StampedIs(11);
    RamChain.AddOneMoves(1);
    var es := BackdatedSorted();
    assert es[..0] == [] && es[..1] == [es[0]] && es[..2] == [es[0], es[1]];
    FlattenSnoc([], es[0]);
    assert [] + [es[0]] == [es[0]];
    FlattenTwo(es[0], es[1]);
    NothingFlat();
    forall i | 0 <= i < 3 ensures BoundaryOk(es, i) {
      if i == 1 {
        assert Flatten(es[..1]) == [es[0][0]];
      } else if i == 2 {
        assert Flatten(es[..2]) == [es[0][0], es[1][0]];
      }
    }
  }

  lemma NothingFlat()
    ensures Flatten<RamEntryVar>([]) == []
  {}

  lemma BackdatedInconsistent()
    ensures !Consistent(Flatten(BackdatedTrace()))
  {
    hide Flatten, Stamped;
    BackdatedShape();
    var t := Flatten(BackdatedTrace());
    forall j | 0 <= j < 2 ensures !IsLatest(t, j, 2) {}
    assert t[2].read && !SeesLatest(t, 2);
  }

  /** Nor does anything tie the stamps of one subtrace to those of the next. Every boundary
      window of this run holds and its sorted trace starts with a write; it is accepted under
      all challenges, and reads 0 after 1 was written. */
  lemma StampsAreUnlinked(c: RamChallenges)
    ensures Consumes(TwoWrites(), BackdatedTrace(), BackdatedSorted())
    ensures multiset(Flatten(BackdatedTrace())) == multiset(Flatten(BackdatedSorted()))
    ensures StartsWithWrite(Flatten(BackdatedSorted()))
    ensures forall i | 0 <= i < 3 :: BoundaryOk(BackdatedSorted(), i)
    ensures exists leaves :: ChainSatisfied(RamMemory(c), TwoWrites(), BackdatedTrace(), BackdatedSorted(), leaves)
    ensures !Consistent(Flatten(BackdatedTrace()))
  {
    hide Stamped, RamFactor, RunEval, Flatten, Consistent, NextLeaf, PortalOps, Consumes, BoundaryOk,
         StartsWithWrite, Mul;
    BackdatedShape();
    BackdatedBoundaries();
    BackdatedInconsistent();
    var t, es := BackdatedTrace(), BackdatedSorted();
    var x, y, z := RamFactor(c)(t[0][0]), RamFactor(c)(t[1][0]), RamFactor(c)(t[2][0]);
    var l0 := Leaf(1, 1, RamEntryVar(0, 0, Stamped(0), false));
    SingleAccess(c, 0, 3, TwoWrites()[0], t[0][0], es[0][0], l0);
    var l1 := Leaf(Mul(1, x), Mul(1, y), es[0][0]);
    SingleAccess(c, 1, 3, TwoWrites()[1], t[1][0], es[1][0], l1);
    var l2 := Leaf(Mul(Mul(1, x), y), Mul(Mul(1, y), x), es[1][0]);
    MulSwap(1, x, y);
    SingleAccess(c, 2, 3, TwoWrites()[2], t[2][0], es[2][0], l2);
    var l3 := Leaf(Mul(l2.timeEval, z), Mul(l2.addrEval, z), es[2][0]);
    assert ChainSatisfied(RamMemory(c), TwoWrites(), t, es, [l0, l1, l2, l3]);
  }

  function TwoWires(): seq<PortalOp> {
    [Set("x", (seen: seq<F>) => 0), Set("y", (seen: seq<F>) => 0)]
  }

  /** Both writes carry the stamp zero. */
  function StoppedTrace(): (r: seq<RamEntryVar>)
    ensures |r| == 2
  {
    [RamEntryVar(1, 0, ZeroTime(), false), RamEntryVar(Add(1, 1), 0, ZeroTime(), false)]
  }

  lemma StoppedRuns()
    ensures PortalOps(TwoWires()) == 2 && SetsAgree(TwoWires(), [], [0, 0]) && EnforcesHold(TwoWires(), [], [0, 0])
  {
    var ops := TwoWires();
    assert ops[1..] == [ops[1]] && ops[1..][1..] == [];
    assert [0 as F, 0][1..] == [0] && [0 as F][1..] == [];
  }

  lemma StoppedIsCoherent(last: RamEntryVar)
    ensures RamCoherent(StoppedTrace(), [last] + StoppedTrace())
  {
    hide ZeroTime, Add, Increment, FromBits;
    var time := StoppedTrace();
    RamChain.AddOneMoves(1);
    assert ([last] + time)[1..] == time;
    assert RamWindowOk(time[0], time[1]) && Moves(time[0].i, time[1].i);
  }

  /** Nor need the clock tick inside a subtrace: the increment's first carry is a witness bit.
      Writing two wires at one time is accepted under all challenges. */
  lemma ClockMayStop(c: RamChallenges)
    ensures Clock(StoppedTrace()[1]) == Clock(StoppedTrace()[0])
    ensures Consumes([TwoWires()], [StoppedTrace()], [StoppedTrace()])
    ensures exists leaves :: ChainSatisfied(RamMemory(c), [TwoWires()], [StoppedTrace()], [StoppedTrace()], leaves)
  {
    hide ZeroTime, RamFactor, RunEval, Add, SetsAgree, EnforcesHold, PortalOps, RamCoherent, TwoWires;
    var ops, time := TwoWires(), StoppedTrace();
    var start := Leaf(1, 1, RamEntryVar(0, 0, ZeroTime(), false));
    StoppedRuns();
    StoppedIsCoherent(start.last);
    assert Values(RamMemory(c), time) == [0, 0];
    var product := RunEval(1, time, RamFactor(c));
    var end := Leaf(product, product, time[1]);
    assert NextLeaf(RamMemory(c), 0, 1, ops, time, time, start) == Some(end);
    assert ChainSatisfied(RamMemory(c), [ops], [time], [time], [start, end]);
  }
}
