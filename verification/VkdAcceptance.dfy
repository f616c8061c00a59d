/** The whole key-directory circuit under the ROM memory argument: which logs can be proved
    at all, which proofs are accepted, and that every honestly served log is. */
module VkdAcceptance {
  import opened Field
  import opened Sequences
  import opened Bits
  import opened Transcript
  import opened PortalProgram
  import opened RomPortal
  import opened Coordinator
  import opened Subcircuit
  import opened RomCompleteness
  import opened PortalMemory
  import opened RomAcceptance
  import opened MerklePath
  import opened SparseTree
  import opened KeyDirectory
  import KeyBinding
  import opened VkdNames
  import opened VkdCompiler
  import opened VkdExecution
  import opened VkdCircuit

  /** The circuit as the portal managers see it, with named wires. */
  function CircuitPrograms(pp: PublicParams, updates: seq<Update>): (r: seq<seq<PortalOp>>)
    ensures |r| == 8 + 8 * |updates|
  {
    RenameAll(WireName, CircuitOps(pp, Compile(updates)))
  }

  // ------------------------------------------------------------------ size of a circuit

  lemma {:induction false} SubcircuitSize(pp: PublicParams, ps: SubCircuit)
    ensures |SubcircuitOps(pp, ps)| <= 4 * |ps|
  {
    if ps != [] {
      SubcircuitSize(pp, ps[1..]);
    }
  }

  lemma {:induction false} CircuitSize(pp: PublicParams, cs: seq<SubCircuit>)
    requires SmallSubcircuits(cs)
    ensures TotalOps(CircuitOps(pp, cs)) <= 12 * |cs|
  {
    if cs != [] {
      var n := |cs| - 1;
      CircuitSize(pp, cs[..n]);
      SubcircuitSize(pp, cs[n]);
      assert CircuitOps(pp, cs)[..n] == CircuitOps(pp, cs[..n]);
    }
  }

  /** The address counter has 64 bits. */
  lemma AddressesHave64Bits()
    ensures U64_LIMIT == Pow2(64)
  {
    assert Pow2(4) == 16;
    Pow2Add(4, 4);
    Pow2Add(8, 8);
    Pow2Add(16, 16);
    Pow2Add(32, 32);
  }

  predicate SmallSubcircuits(cs: seq<SubCircuit>) {
    forall i | 0 <= i < |cs| :: |cs[i]| <= 3
  }

  lemma {:induction false} UpdatesSmall(updates: seq<Update>)
    ensures SmallSubcircuits(CompileUpdates(updates))
  {
    if updates != [] {
      UpdatesSmall(updates[..|updates| - 1]);
    }
  }

  lemma CircuitFits(pp: PublicParams, updates: seq<Update>)
    requires |updates| < 0x100_0000_0000_0000
    ensures 1 + TotalOps(CircuitPrograms(pp, updates)) < U64_LIMIT
  {
    hide Compile, CircuitOps, CircuitPrograms, TotalOps, RenameAll;
    var cs := Compile(updates);
    CompiledSmall(updates);
    CircuitSize(pp, cs);
    TotalOpsRenamed(WireName, CircuitOps(pp, cs));
    ProgramsAreRenamed(pp, updates);
  }

  lemma CompiledSmall(updates: seq<Update>)
    ensures SmallSubcircuits(Compile(updates))
  {
    UpdatesSmall(updates);
    hide CompileUpdates;
  }

  lemma ProgramsAreRenamed(pp: PublicParams, updates: seq<Update>)
    ensures CircuitPrograms(pp, updates) == RenameAll(WireName, CircuitOps(pp, Compile(updates)))
  {
    hide RenameAll, CircuitOps, Compile;
  }

  // -------------------------------------------------------------------- the main result

  lemma NamesInjective()
    ensures Injective(WireName)
  {
    forall v, w | WireName(v) == WireName(w) ensures v == w {
      WireNamesDistinct(v, w);
    }
  }

  lemma ProgramsRun(pp: PublicParams, updates: seq<Update>)
    requires DigestsFit()
    ensures var r := RunMemAll(CircuitPrograms(pp, updates), map[]);
            && (r.Some? <==> WellWired(updates))
            && (r.Some? ==> r.value.checks == Verify(pp.initialRoot, updates, pp.finalRoot, pp.nullLeaf))
  {
    hide RunMemAll, WellWired, Verify, Compile, RunPrimitives, Holds, SameWires;
    NamesInjective();
    CompiledLogRuns(pp, updates);
    CircuitRefines(pp, Compile(updates));
    RunMemAllRenamed(WireName, CircuitOps(pp, Compile(updates)));
  }

  /** The coordinator can collect a trace exactly for a well-wired log, and then, whatever
      the challenges, all subcircuits are accepted exactly when the verifier accepts. */
  lemma AcceptedIffVerified(pp: PublicParams, updates: seq<Update>)
    requires DigestsFit() && |updates| < 0x100_0000_0000_0000
    ensures SetupAll(CircuitPrograms(pp, updates)).Some? <==> WellWired(updates)
    ensures forall addrs, entryChal, trChal
              | WellWired(updates) && SortedAs(addrs, SetupAll(CircuitPrograms(pp, updates)).value.subtraces) ::
              AllAccepted(CircuitPrograms(pp, updates), addrs, entryChal, trChal)
              <==> Verify(pp.initialRoot, updates, pp.finalRoot, pp.nullLeaf)
  {
    hide RunMemAll, WellWired, Verify, SetupAll, SortedAs, AllAccepted, CircuitPrograms, Tracks;
    var progs := CircuitPrograms(pp, updates);
    CircuitFits(pp, updates);
    SetupAllIsMemory(progs);
    ProgramsRun(pp, updates);
    forall addrs, entryChal, trChal | WellWired(updates) && SortedAs(addrs, SetupAll(progs).value.subtraces)
      ensures AllAccepted(progs, addrs, entryChal, trChal)
              <==> Verify(pp.initialRoot, updates, pp.finalRoot, pp.nullLeaf)
    {
      ChainDecidesChecks(progs, addrs, entryChal, trChal);
    }
  }

  // ------------------------------------------------------------------- honest logs

  function CounterOf(leaf: UserLeaf): nat { leaf[32] as int + 256 * (leaf[33] as int) }

  lemma LeafParts(username: Username, key: Key, counter: Counter)
    ensures UserOf(Concat(username, key, counter)) == username && CounterOf(Concat(username, key, counter)) == counter
  {}

  /** Users appended by the log are the directory's new ones, their current leaves were
      hashed, and no hashed leaf carries a counter beyond its user's. */
  ghost predicate LogFits(d: Directory, s: Served) {
    Fits(d.users, s.directory.users, Appended(s.log), Hashed(s.log))
  }

  ghost predicate Fits(known: map<Username, (Counter, Key)>, users: map<Username, (Counter, Key)>,
                       appended: set<Username>, hashed: set<UserLeaf>)
  {
    && (forall u | u in appended :: u in users && u !in known)
    && (forall u | u in users && u !in known :: u in appended)
    && (forall u | u in appended :: Concat(u, users[u].1, users[u].0) in hashed)
    && (forall l | l in hashed :: HashedBefore(users, l))
    && (forall u | u in known :: u in users)
  }

  predicate HashedBefore(users: map<Username, (Counter, Key)>, l: UserLeaf) {
    UserOf(l) in users && CounterOf(l) <= users[UserOf(l)].0
  }

  /** One user's leaf replaced by a newer one, or a newcomer's added. */
  lemma FitsNext(known: map<Username, (Counter, Key)>, users: map<Username, (Counter, Key)>, appended: set<Username>,
                 hashed: set<UserLeaf>, name: Username, key: Key, counter: Counter)
    requires Fits(known, users, appended, hashed) && name !in known
    requires name in users ==> users[name].0 <= counter
    ensures Fits(known, users[name := (counter, key)], appended + {name}, hashed + {Concat(name, key, counter)})
  {
    hide Concat, UserOf, CounterOf;
    var leaf := Concat(name, key, counter);
    LeafParts(name, key, counter);
    forall l | l in hashed + {leaf} ensures HashedBefore(users[name := (counter, key)], l) {
      if l != leaf {
        assert HashedBefore(users, l);
      }
    }
  }

  /** Only users registered in the same log may change their key. */
  predicate Registered(d: Directory, req: Request) {
    req.ChangeKey? ==> req.username !in d.users
  }

  lemma NextFits(d: Directory, s: Served, req: Request)
    requires Settled(s.directory) && LogFits(d, s) && CanApply(s.directory, req) && Registered(d, req)
    ensures Wired(s.log, Record(s.directory, req))
    ensures LogFits(d, ServeNext(s, req).value)
  {
    NextWired(d, s, req);
    NextKeeps(d, s, req);
  }

  /** A position that is free belongs to nobody known. */
  lemma NewcomerUnknown(d: Directory, req: Request)
    requires Settled(d) && CanApply(d, req)
    ensures req.Register? <==> req.username !in d.users
  {
    hide Concat, IndexOf, HashLeaf;
  }

  lemma NextWired(d: Directory, s: Served, req: Request)
    requires Settled(s.directory) && LogFits(d, s) && CanApply(s.directory, req) && Registered(d, req)
    ensures Wired(s.log, Record(s.directory, req))
  {
    hide Concat, IndexOf, HashLeaf, FullPath, Hashed, Appended, UserOf, CounterOf, Settled;
    NewcomerUnknown(s.directory, req);
    var leaf := AppliedLeaf(s.directory, req);
    RecordedFields(s.directory, req);
    LeafParts(req.username, req.key, AppliedCounter(s.directory, req));
    assert leaf in Hashed(s.log) ==> HashedBefore(s.directory.users, leaf);
  }

  lemma NextKeeps(d: Directory, s: Served, req: Request)
    requires Settled(s.directory) && LogFits(d, s) && CanApply(s.directory, req) && Registered(d, req)
    ensures LogFits(d, ServeNext(s, req).value)
  {
    hide Concat, IndexOf, HashLeaf, FullPath, Hashed, Appended, NewLeaf, Settled;
    NewcomerUnknown(s.directory, req);
    RecordedFields(s.directory, req);
    var u := Record(s.directory, req);
    HashedSnoc(s.log, u);
    NewcomerKnownElsewhere(d, s, req);
    FitsNext(d.users, s.directory.users, Appended(s.log), Hashed(s.log), req.username, req.key,
             AppliedCounter(s.directory, req));
    assert Appended(s.log + [u]) == Appended(s.log) + {req.username};
  }

  lemma NewcomerKnownElsewhere(d: Directory, s: Served, req: Request)
    requires LogFits(d, s) && Registered(d, req) && (req.Register? <==> req.username !in s.directory.users)
    ensures req.username !in d.users && (req.ChangeKey? ==> req.username in Appended(s.log))
  {
    hide Hashed, Appended, Concat;
  }

  lemma {:induction false} RegisteredLogWellWired(d: Directory, reqs: seq<Request>)
    requires Settled(d) && Serve(d, reqs).Some?
    requires forall r | r in reqs :: Registered(d, r)
    ensures WellWired(Serve(d, reqs).value.log)
    ensures LogFits(d, Serve(d, reqs).value)
  {
    if reqs != [] {
      var n := |reqs| - 1;
      RegisteredLogWellWired(d, reqs[..n]);
      RecordedLogVerifies(d, reqs[..n]);
      var s := Serve(d, reqs[..n]).value;
      assert reqs[n] in reqs;
      hide LogFits, Wired, Settled, Registered;
      NextFits(d, s, reqs[n]);
      var log := ServeNext(s, reqs[n]).value.log;
      assert log[..n] == s.log;
    }
  }

  /** Whoever was in the directory stays in it, and no log can append them: their position is
      taken. */
  lemma {:induction false} AppendedAreNew(d: Directory, reqs: seq<Request>)
    requires Settled(d) && Serve(d, reqs).Some?
    ensures forall u | u in d.users :: u in Serve(d, reqs).value.directory.users
    ensures forall u | u in Appended(Serve(d, reqs).value.log) :: u !in d.users
  {
    hide Settled, Appended, Record;
    if reqs == [] {
      NothingAppended();
    } else {
      var n := |reqs| - 1;
      AppendedAreNew(d, reqs[..n]);
      RecordedLogVerifies(d, reqs[..n]);
      var s := Serve(d, reqs[..n]).value;
      NewcomerUnknown(s.directory, reqs[n]);
      AppendedSnoc(s, reqs[n]);
    }
  }

  lemma NothingAppended()
    ensures Appended([]) == {}
  {}

  lemma AppendedSnoc(s: Served, req: Request)
    requires CanApply(s.directory, req)
    ensures Appended(s.log + [Record(s.directory, req)])
         == Appended(s.log) + if req.Register? then {req.username} else {}
  {
    hide FullPath, IndexOf;
    var log := s.log + [Record(s.directory, req)];
    assert log[..|s.log|] == s.log;
  }

  /** A log served from a directory is well wired exactly when every key it changes belongs to
      a user it registered itself. */
  lemma {:induction false} ServedLogWellWired(d: Directory, reqs: seq<Request>)
    requires Settled(d) && Serve(d, reqs).Some?
    ensures WellWired(Serve(d, reqs).value.log) <==> forall r | r in reqs :: Registered(d, r)
  {
    hide Settled, Wired, Registered, WellWired, Serve;
    if forall r | r in reqs :: Registered(d, r) {
      RegisteredLogWellWired(d, reqs);
    }
    if reqs != [] && WellWired(Serve(d, reqs).value.log) {
      var n := |reqs| - 1;
      ServedFront(d, reqs);
      var s := Serve(d, reqs[..n]).value;
      ServedLogWellWired(d, reqs[..n]);
      AppendedAreNew(d, reqs[..n]);
      WiredIsRegistered(d, s, reqs[n]);
      forall r | r in reqs ensures Registered(d, r) {
        assert r in reqs[..n] || r == reqs[n];
      }
    }
  }

  /** What a well-wired log says of its front and its last update. */
  lemma ServedFront(d: Directory, reqs: seq<Request>)
    requires reqs != [] && Serve(d, reqs).Some? && WellWired(Serve(d, reqs).value.log)
    ensures var n := |reqs| - 1;
            && Serve(d, reqs[..n]).Some?
            && var s := Serve(d, reqs[..n]).value;
               && WellWired(s.log) && CanApply(s.directory, reqs[n]) && Wired(s.log, Record(s.directory, reqs[n]))
  {
    hide Wired, Record, CanApply, Apply;
    var n := |reqs| - 1;
    var s := Serve(d, reqs[..n]).value;
    assert Serve(d, reqs) == ServeNext(s, reqs[n]);
    assert Serve(d, reqs).value.log == s.log + [Record(s.directory, reqs[n])];
    assert (s.log + [Record(s.directory, reqs[n])])[..|s.log|] == s.log;
  }

  lemma WiredIsRegistered(d: Directory, s: Served, req: Request)
    requires CanApply(s.directory, req) && Wired(s.log, Record(s.directory, req))
    requires forall u | u in Appended(s.log) :: u !in d.users
    ensures Registered(d, req)
  {
    hide FullPath, IndexOf, Appended, Hashed, NewLeaf;
  }

  /** The distributed circuit of a served log: its trace can be collected exactly when every
      key it changes belongs to a user it registered itself, and then every subcircuit is
      accepted. */
  lemma ServedLogAccepted(d: Directory, reqs: seq<Request>)
    requires DigestsFit() && |reqs| < 0x100_0000_0000_0000
    requires Settled(d) && Serve(d, reqs).Some?
    ensures (forall r | r in reqs :: Registered(d, r)) ==> AcceptedAlways(ServedPrograms(d, reqs))
    ensures (exists r :: r in reqs && !Registered(d, r)) ==> SetupAll(ServedPrograms(d, reqs)).None?
  {
    hide RunMemAll, WellWired, Verify, SetupAll, SortedAs, AllAccepted, CircuitPrograms, Settled, LogFits, Registered;
    var s := Serve(d, reqs).value;
    ServedLogWellWired(d, reqs);
    RecordedLogVerifies(d, reqs);
    AcceptedIffVerified(PublicParams(RootOf(d), RootOf(s.directory), DefaultLeafHash()), s.log);
  }

  /** The other way: the distributed proof of any log whatever, between a directory's root and
      another, is accepted only if the directory records exactly that log and ends at that
      root, unless some update of the log exhibits a collision. */
  lemma AcceptedLogIsServed(d: Directory, updates: seq<Update>, finalRoot: Digest)
    requires DigestsFit() && |updates| < 0x100_0000_0000_0000
    requires Settled(d) && KeyBinding.Owned(d)
    requires AcceptedAlways(CircuitPrograms(PublicParams(RootOf(d), finalRoot, DefaultLeafHash()), updates))
    ensures (var s := Serve(d, KeyBinding.RequestsOf(updates));
             s.Some? && s.value.log == updates && RootOf(s.value.directory) == finalRoot)
         || exists k :: 0 <= k < |updates| && KeyBinding.CollidesAt(d, updates, k)
  {
    hide RunMemAll, WellWired, SetupAll, SortedAs, AllAccepted, CircuitPrograms, Settled, RunLog, KeyBinding.Owned,
         KeyBinding.CollidesAt;
    var pp := PublicParams(RootOf(d), finalRoot, DefaultLeafHash());
    AcceptedIffVerified(pp, updates);
    var addrs := SortingExists(SetupAll(CircuitPrograms(pp, updates)).value.subtraces);
    assert AllAccepted(CircuitPrograms(pp, updates), addrs, 0, 0);
    KeyBinding.VerifiedLogIsServed(d, updates);
  }

  /** The circuit of a served log, between the roots before and after it. */
  function ServedPrograms(d: Directory, reqs: seq<Request>): seq<seq<PortalOp>>
    requires Serve(d, reqs).Some?
  {
    var s := Serve(d, reqs).value;
    CircuitPrograms(PublicParams(RootOf(d), RootOf(s.directory), DefaultLeafHash()), s.log)
  }

  /** The failing case: a user of the directory changes a key. The log verifies, but its
      circuit reads the hash of the old leaf, which no subcircuit sets. */
  lemma KnownUserCannotRekey(key: Key)
    requires DigestsFit()
    ensures var (d, reqs) := (GenesisDirectory(), [ChangeKey(GenesisUser, key)]);
            && Serve(d, reqs).Some?
            && Verify(RootOf(d), Serve(d, reqs).value.log, RootOf(Serve(d, reqs).value.directory), DefaultLeafHash())
            && SetupAll(ServedPrograms(d, reqs)).None?
  {
    hide SetupAll, SortedAs, AllAccepted, CircuitPrograms, Settled, IndexOf, RootOf, Verify, Record, Concat, HashLeaf;
    var d, reqs := GenesisDirectory(), [ChangeKey(GenesisUser, key)];
    GenesisSettled();
    assert reqs[..0] == [];
    assert Serve(d, reqs[..0]) == Some(Served(d, []));
    RecordedLogVerifies(d, reqs);
    ServedLogAccepted(d, reqs);
    assert reqs[0] in reqs && !Registered(d, reqs[0]);
  }

  // -------------------------------------------------------------- the random instance

  lemma {:induction false} RandomRequestsRegistered(n: nat)
    requires GenesisUser != FirstUser
    ensures forall r | r in RandomRequests(n) :: Registered(GenesisDirectory(), r)
  {
    if n > 0 {
      RandomRequestsRegistered(n - 1);
    }
  }

  /** A random instance has exactly the declared number of subcircuits, and the distributed
      proof of it is accepted. */
  lemma RandomInstanceAccepted(logNumSubcircuits: nat)
    requires logNumSubcircuits >= 4 && NumKeyChanges(logNumSubcircuits) <= 65535
    requires IndexOf(GenesisUser) != IndexOf(FirstUser) && DigestsFit()
    ensures NumKeyChanges(logNumSubcircuits) >= 0
    ensures var d := GenesisDirectory();
            var served := Serve(d, RandomRequests(NumKeyChanges(logNumSubcircuits)));
            && served.Some?
            && var progs := ServedPrograms(d, RandomRequests(NumKeyChanges(logNumSubcircuits)));
               && |progs| == Pow2(logNumSubcircuits) && AcceptedAlways(progs)
  {
    hide SetupAll, SortedAs, AllAccepted, CircuitPrograms, Settled, Serve, RandomRequests, NumKeyChanges, IndexOf,
         Pow2, DigestsFit, RootOf;
    NumKeyChangesNonNegative(logNumSubcircuits);
    SubcircuitCount(logNumSubcircuits);
    var n: nat := NumKeyChanges(logNumSubcircuits);
    UsersDiffer();
    RandomLogIs(n);
    RandomRequestsRegistered(n);
    GenesisSettled();
    ServedLogAccepted(GenesisDirectory(), RandomRequests(n));
  }

  lemma UsersDiffer()
    ensures IndexOf(GenesisUser) != IndexOf(FirstUser) ==> GenesisUser != FirstUser
  {}

  lemma SubcircuitCount(n: nat)
    requires n >= 4
    ensures 8 + 8 * (NumKeyChanges(n) + 1) == Pow2(n)
  {
    assert Pow2(4) == 16;
    Pow2Add(4, n - 4);
    hide Pow2;
    Eighths(Pow2(n - 4));
  }

  lemma Eighths(k: nat)
    ensures (16 * k - 8) / 8 == 2 * k - 1
  {}
}
