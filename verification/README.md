# Hekaton

A Dafny model of Hekaton, a distributed proof system that cuts a large circuit into
subcircuits, proves them on separate workers, and joins the proofs by a memory argument.
The model states what the protocol's parts promise each other and proves it for every
circuit, every split, every trace and every challenge.

## The parts

- **Portal memory (ROM).** The coordinator records a time-ordered trace of named wires,
  sorts it by address, re-chunks it and computes one leaf per subcircuit (`RomPortal`,
  `Coordinator`, `Transcript`). Workers replay their chunk under constraints
  (`Subcircuit`). Completeness of the whole chain is in `RomCompleteness`, soundness in
  `RomSoundness`. Soundness is first stated for a rearranged trace and then without that
  hypothesis, by counting the challenges under which a bad trace can pass (`Polynomial`).
  `PortalMemory` and `RomAcceptance` reduce "the distributed proof is accepted" to "the
  program runs over a plain single-assignment memory and its checks hold".
- **Portal memory (RAM).** The same with overwritable wires, 32-bit time stamps and read
  flags (`Uint32`, `RamPortal`, `RamCompleteness`, `RamChain`, `RamAcceptance`, `RamSoundness`,
  `RamPrograms`, `RamCounting`). The prover's free choices, here the first carry of each increment, are
  parameters of its manager.
- **Verifiable key directory.** A sparse Merkle tree refines the full tree (`MerklePath`,
  `SparseTree`); update logs are recorded and verified (`KeyDirectory`), and a verified log is
  the one a directory recorded (`KeyBinding`); a compiler turns a log into primitive
  subcircuits over portal wires (`VkdCompiler`, `VkdNames`, `VkdLayout`), whose meaning is given
  on digests (`VkdExecution`), then on field elements (`VkdCircuit`), then natively
  (`VkdTrace`). `VkdAcceptance` puts compiler and memory argument together.
- **Commit-and-prove Groth16.** Staged constraint systems, keys, commitments, proofs and the
  verifier, in the exponent (`MultiStage`, `CpGroth16`).
- **Circuits and plumbing.** The bitonic sorting gadget (`BitonicNetwork`, `BitonicGadget`),
  the level-order Merkle circuit (`TreeMath`, `TreeHashCircuit`, `TreeTrace`), aggregation
  (`Aggregation`), and the scatter/compute/gather layout (`Distribution`).

`Field`, `Sequences`, `Bits` and `BitArithmetic` hold the shared mathematics.

## How it is modelled

- The scalar field is the integers modulo a prime `P` about which nothing else is known, so
  every result holds for every prime field. Where digests or table keys must fit the field
  this is a hypothesis (`DigestsFit`), or a range condition on the keys.
- Objects whose methods update fields are classes with `modifies` clauses; loops are loops.
  Each method is proved against a function of its inputs or old state, and the lemmas are
  about those functions. A panic or a failing `unwrap` is `None` or `false`.
- A subcircuit is a program of gets, sets and checks whose wire names are fixed and whose
  written values and checks depend on the values read. A constraint is a conjunct of
  `satisfied`.
- The Merkle tree over the leaves is membership in the list of leaves: a subcircuit proves
  that its next leaf is some committed leaf, at an index nobody looks at. That subcircuit i
  starts from the next leaf of subcircuit i - 1 is not proved by any subcircuit; soundness is
  stated for runs that are linked in this way, and `RomSoundness.MembershipHasNoIndex` shows
  that it is needed.
- Leaves are compared as values. The source compares their field encodings, which is the same
  except for RAM leaves over a field of fewer than 2^32 elements, where different stamps can
  have one encoding.
- Hash functions are uninterpreted. Binding results name the colliding inputs instead of
  assuming injectivity.
- Group elements are exponents: integers compared modulo `P`. A pairing is a product.
- 64-bit address counters overflow into a panic; 32-bit time stamps wrap around.
- The directory's depth is any of 32, 64, 128 and 256; the source has 128.

## Where code and comments differ

The model follows the code.

- The RAM transcript's padding test is described as "all fields are 0"
  (`distributed-prover/src/transcript/ram_transcript.rs:303`). It chains `and` on results,
  so only the last one, the read flag, is tested. The ROM test looks at the address only.
- An `InnerHash` is described as 31 bytes; the constant is 27
  (`distributed-prover/src/vkd/sparse_tree.rs:40-42`).
- `structured_scalar_power` is described as starting with 0; it starts with 1, and returns
  one element for length zero (`distributed-prover/src/pairing_ops.rs:41-48`).
- The RAM prover manager compares entries from the second own entry on, so the first entry
  of each subtrace is never compared with the one before it
  (`RamSoundness.BoundaryIsUnchecked`).
- The clock of a RAM subtrace is checked inside the subtrace only, and the increment gadget's
  first carry is a free witness bit (`distributed-prover/src/uint32.rs:81`). So stamps may
  repeat (`RamSoundness.ClockMayStop`) and need not follow the order of the subtraces
  (`RamSoundness.StampsAreUnlinked`). `RamSoundness.RamChainSound` proves consistency in
  execution order under conditions that can be read off the two traces: stamps that increase
  along the run, boundary windows that hold, and a sorted trace that starts with a write.
  Given increasing stamps and ordered boundaries, the other conditions are also necessary.
- The RAM prover manager never looks at the read flag of the access it serves, so a get can be
  served from an entry that says "write" (`RamPrograms.ReadFlagsAreUnbound`).
- The representatives of the key-directory circuit are fixed indices. They are right exactly for
  logs that append first and change a key second, if they do the one or the other at all
  (`VkdLayout.RepresentativesIff`); random instances do (`VkdLayout.RandomInstanceStartsAsTable`).
- A compiled key-directory log can only change keys of users registered in the same log; the
  verifier accepts any (`VkdAcceptance.ServedLogWellWired`, `KnownUserCannotRekey`).
- The sorting gadget pads with zero rows and then cuts, which drops the largest rows unless
  the number of rows is a power of two; `BitonicGadget.TruncationLosesRows` says exactly
  when nothing is lost.

## Model

| member | source | states |
|---|---|---|
| Transcript.RunEvalPermutation | distributed-prover/src/transcript/rom_transcript.rs:78-107 | Two traces that are rearrangements of each other have the same running product, from any start and for any factor |
| Polynomial.RootPolyDeterminesRoots | distributed-prover/src/transcript/rom_transcript.rs:78-107 | The products of (X - entry) of two traces are the same polynomial if and only if the encoded entries form the same multiset |
| Polynomial.RootBound | distributed-prover/src/transcript/rom_transcript.rs:89-91 | A non-zero polynomial has fewer roots than coefficients, over any prime field |
| Polynomial.AgreementBound | distributed-prover/src/transcript/rom_transcript.rs:89-91 | Two traces of one length whose encoded entries differ as multisets have equal running products at fewer challenges than entries |
| RomPortal.SetupRomPortalManager.StartSubtrace | distributed-prover/src/portal_manager/rom_portal_manager.rs:59-62 | Opens an empty subtrace after the existing ones |
| RomPortal.SetupRomPortalManager.Get | distributed-prover/src/portal_manager/rom_portal_manager.rs:67-86 | Logs and returns the entry of a set wire; panics on an unset one and then changes nothing |
| RomPortal.SetupRomPortalManager.Set | distributed-prover/src/portal_manager/rom_portal_manager.rs:88-111 | Gives a new wire the next address and logs it; panics on a wire that is already set |
| RomPortal.RunSubcircuitSetup | distributed-prover/src/tree_hash_circuit.rs:656-673 | Drives the setup manager through one subcircuit; the resulting manager state is the specification run |
| RomPortal.CollectSubtraces | distributed-prover/src/tree_hash_circuit.rs:645-676 | All subcircuits in order, a fresh subtrace each; gives the collected trace or the panic |
| RomPortal.RomProverPortalManager.Get | distributed-prover/src/portal_manager/rom_portal_manager.rs:132-173 | Pops one time-ordered entry, advances both evaluations and conjoins exactly the window constraints between neighbouring address-ordered entries |
| RomPortal.RomProverPortalManager.Set | distributed-prover/src/portal_manager/rom_portal_manager.rs:177-181 | A pop whose value must equal the one being set |
| RomPortal.RunSubcircuitProver | distributed-prover/src/subcircuit_circuit.rs:219-234 | Drives the prover manager through one subcircuit; state and values read are those of the specification run |
| RomPortal.RunProverMeaning | distributed-prover/src/portal_manager/rom_portal_manager.rs:132-181 | Closed form of a replay: the evaluations absorb exactly the consumed entries, and all constraints hold if and only if the writes agree with the trace, the circuit's checks pass and every remaining window is coherent |
| Coordinator.SortSubtracesByAddr | distributed-prover/src/coordinator.rs:92-119 | The result has the shape of the input and flattens to its stable sort; it panics exactly on a trace without entries |
| Sequences.SortStable | distributed-prover/src/coordinator.rs:103-110 | The sort is stable: elements that tie keep their order |
| Coordinator.FoldSubtrace | distributed-prover/src/coordinator.rs:147-153 | Folds one subtrace pair into both evaluations and finds its last address-ordered entry |
| Coordinator.GenerateExecTree | distributed-prover/src/coordinator.rs:125-174 | The leaves the loop emits are the running products of all prefixes, with the last address-ordered entry of each |
| Coordinator.ExecLeafStep | distributed-prover/src/coordinator.rs:143-161 | Leaf i follows from leaf i - 1 and subtrace i alone, empty subtraces included |
| Subcircuit.GenerateConstraints | distributed-prover/src/subcircuit_circuit.rs:193-264 | One stage-1 subcircuit: it is satisfied if and only if the specification accepts it, and then produces the specified next leaf, which is one of the committed leaves; the first subcircuit starts from running products of one and address zero, the last one ends with equal products |
| RomCompleteness.SetupAllTrace | distributed-prover/src/portal_manager/rom_portal_manager.rs:67-111 | What every honest setup run keeps: addresses are dense, one value per address, each subcircuit logs one entry per access, and writes agree with the log |
| RomCompleteness.SortedTraceWindows | distributed-prover/src/portal_manager/rom_portal_manager.rs:141-166 | In the sorted honest trace with the padding in front, each address is the previous one or one more, with equal values on equal addresses |
| RomCompleteness.FinalEvalsAgree | distributed-prover/src/subcircuit_circuit.rs:245-255 | The last leaf of an honest run carries equal time-ordered and address-ordered evaluations |
| RomCompleteness.RomSubcircuitComplete | distributed-prover/src/subcircuit_circuit.rs:193-264 | From the coordinator's leaf i - 1, which at the start is the zero entry with products of one, subcircuit i produces exactly leaf i if its own checks hold on the recorded values, and fails otherwise: the memory argument itself never fails |
| RomCompleteness.RomChainComplete | distributed-prover/src/coordinator.rs:468-501 | For every program the setup manager accepts, any split into subcircuits and any challenges, every subcircuit of the chain is accepted exactly when its own checks hold on the recorded values, which are those read during setup |
| RomCompleteness.ReplayReadsTheSame | distributed-prover/src/portal_manager/rom_portal_manager.rs:132-173 | A worker replaying a subcircuit of an honest run reads exactly what the coordinator read when running it |
| RomSoundness.ChainWindows | distributed-prover/src/coordinator.rs:468-485 | A satisfied chain checks every window of the whole address-ordered trace, across subcircuit boundaries and empty subtraces |
| RomSoundness.SameAddrSameVal | distributed-prover/src/portal_manager/rom_portal_manager.rs:141-166 | In a coherent trace shorter than the field, equal addresses carry equal values: the "same or plus one" test cannot wrap around |
| RomSoundness.RomChainSound | distributed-prover/src/subcircuit_circuit.rs:193-264 | If all subcircuits of a linked chain are satisfied and the address-ordered trace is a rearrangement of the time-ordered one, any two accesses to one address anywhere in the run carry one value, and all writes and checks hold on the recorded values |
| RomSoundness.ProveAll | distributed-prover/src/subcircuit_circuit.rs:357-402 | All stage-1 subcircuits against one list of committed leaves: the run ends well exactly when every subcircuit is satisfied and produces a committed leaf, and if the requests are linked it is consistent, address by address, with all writes and checks as recorded |
| RomSoundness.OwnLeafIffChain | distributed-prover/src/coordinator.rs:468-501 | With the requests the coordinator makes, satisfied subcircuits make its leaves a chain if and only if each of them produced its own committed leaf |
| RomSoundness.MembershipHasNoIndex | distributed-prover/src/subcircuit_circuit.rs:248-255 | Membership is less than that: two subcircuits that produce each other's committed leaf are accepted under all challenges, one writing 0 to an address and the other reading 1 from it |
| RomSoundness.EncodingCollidesOnce | distributed-prover/src/transcript/rom_transcript.rs:84-87 | Two different entries are encoded alike under at most one entry challenge |
| RomSoundness.BadEntryChalsBound | distributed-prover/src/transcript/rom_transcript.rs:84-87 | Different traces are encoded to equal multisets under at most as many entry challenges as entries |
| RomSoundness.RomSoundnessError | distributed-prover/src/subcircuit_circuit.rs:245-255 | For an inconsistent time-ordered trace of n entries, all but at most n entry challenges leave fewer than n trace challenges under which any choice of leaves satisfies the chain; no rearrangement is assumed |
| RomSoundness.WireConsistency | distributed-prover/src/portal_manager/rom_portal_manager.rs:132-173 | If the trace uses one address per wire name, two accesses to one wire carry one value |
| RomSoundness.WireNamesAreNotBound | distributed-prover/src/portal_manager/rom_portal_manager.rs:132-132 | Without that, an accepted run can write 1 to a wire and read 0 from it: the prover manager ignores names |
| PortalMemory.SetupAllIsMemory | distributed-prover/src/portal_manager/rom_portal_manager.rs:67-111 | Setup refuses exactly the programs that a single-assignment memory refuses, and the checks on the recorded values are the checks of that memory run |
| PortalMemory.RunMemAllRenamed | distributed-prover/src/portal_manager/rom_portal_manager.rs:67-111 | Renaming wires injectively changes neither success nor checks |
| RomAcceptance.ChainDecidesChecks | distributed-prover/src/subcircuit_circuit.rs:193-264 | The whole distributed proof is accepted, under any challenges, exactly when the plain memory run passes all checks |
| RomAcceptance.SortingExists | distributed-prover/src/coordinator.rs:92-119 | Every trace has an address-ordered counterpart of the same shape |
| Uint32.IncrementInPlace | distributed-prover/src/uint32.rs:160-171 | The native ripple changes the bits to those of the increment, wrapping to zero at 2^32 |
| Uint32.IncrementVarInPlace | distributed-prover/src/uint32.rs:80-88 | The gadget increments when its first carry, a witness bit the prover chooses, is set, and leaves the bits alone when it is not |
| Uint32.CarriedIs | distributed-prover/src/uint32.rs:80-88 | The ripple under a set carry is the native increment, under a clear one the identity |
| Uint32.IncrementAddsOne | distributed-prover/src/uint32.rs:80-88 | The bitwise increment adds one modulo 2^n, for every width |
| Uint32.IsGreaterThan | distributed-prover/src/uint32.rs:91-109 | The bit-by-bit comparison decides the order of the numbers, for every width |
| Uint32.Representation | distributed-prover/src/uint32.rs:132-143 | The fold gives the number the bits stand for |
| RamPortal.AddressManager.NameToAddr | distributed-prover/src/portal_manager/ram_portal_manager.rs:43-54 | Known names keep their address, new ones get the next; panics on overflow |
| RamPortal.SetupRamPortalManager.Get | distributed-prover/src/portal_manager/ram_portal_manager.rs:93-121 | Logs a read with the wire's current value and ticks the clock |
| RamPortal.SetupRamPortalManager.Set | distributed-prover/src/portal_manager/ram_portal_manager.rs:123-143 | Logs a write, overwrites the wire and ticks the clock |
| RamPortal.CollectRamSubtraces | distributed-prover/src/portal_manager/ram_portal_manager.rs:84-143 | All subcircuits in order, a fresh subtrace each; gives the collected trace or the panic |
| RamPortal.RamProverPortalManager.CheckWindow | distributed-prover/src/portal_manager/ram_portal_manager.rs:184-211 | The constraints between two address-ordered entries, with the bit comparison read as an order of numbers |
| RamPortal.RamProverPortalManager.CheckClock | distributed-prover/src/portal_manager/ram_portal_manager.rs:217-227 | The next time-ordered entry carries the stamp incremented or repeated, as the witnessed carry says |
| RamPortal.RamProverPortalManager.Get | distributed-prover/src/portal_manager/ram_portal_manager.rs:161-232 | Pops one entry and conjoins exactly the RAM checks of that access for the prover's carry; the first window is one entry later than in ROM |
| RamPortal.RamProverPortalManager.Set | distributed-prover/src/portal_manager/ram_portal_manager.rs:234-238 | A pop whose value must equal the one being set |
| RamCompleteness.RunRamProverMeaning | distributed-prover/src/portal_manager/ram_portal_manager.rs:161-238 | Closed form of a RAM replay: constraints hold if and only if writes agree, checks pass, the own entries' windows are coherent and every stamp steps as its carry says |
| RamCompleteness.CarriesExistIff | distributed-prover/src/portal_manager/ram_portal_manager.rs:217-227 | Some carries satisfy the clock constraints exactly when the clock repeats or advances by one at every access |
| RamCompleteness.GenerateRamConstraints | distributed-prover/src/subcircuit_circuit.rs:193-264 | One stage-1 subcircuit over RAM is satisfied exactly when the specification accepts it and the prover witnesses the carries its stamps step by; its next leaf is then a committed one, and the first subcircuit starts from products of one and an entry that is no read |
| RamCompleteness.RamSetupAllTrace | distributed-prover/src/portal_manager/ram_portal_manager.rs:43-143 | What every honest RAM run keeps: dense addresses, consecutive time stamps, every read returns the latest write, every address is first written, and the entries say "read" exactly at the gets |
| RamChain.SortedNeighbours | distributed-prover/src/coordinator.rs:103-110 | Sorting an honest trace by address and time leaves only neighbours that the prover accepts, and the first entry of every address is a write |
| RamChain.RamSubcircuitComplete | distributed-prover/src/subcircuit_circuit.rs:193-264 | From leaf i - 1, which at the start is the zero entry with products of one, subcircuit i of an honest RAM run produces exactly leaf i or fails by its own checks, with all carries set and read flags at its gets |
| RamChain.RamChainComplete | distributed-prover/src/subcircuit_circuit.rs:193-264 | For any honest run of at most 2^32 accesses, every subcircuit is accepted exactly when its own checks hold on the recorded values |
| RamAcceptance.RamSetupIsMap | distributed-prover/src/portal_manager/ram_portal_manager.rs:93-143 | One subcircuit of setup reads what a plain overwritable map gives, refuses exactly reads of unset wires, and records a trace on which the checks are those of the map run |
| RamAcceptance.ReplayReadsMap | distributed-prover/src/portal_manager/ram_portal_manager.rs:161-232 | A worker replaying a subcircuit of an honest run reads what the map holds at that point of the run |
| RamAcceptance.RamChainDecidesChecks | distributed-prover/src/subcircuit_circuit.rs:193-264 | A run of at most 2^32 accesses can be traced exactly when no wire is read before it is written, and then its distributed proof is accepted, for all challenges, exactly when the overwritable-map run passes every check |
| RamSoundness.StrictlyOrdered | distributed-prover/src/portal_manager/ram_portal_manager.rs:184-215 | Entries whose neighbours are at one address with growing stamps, or one address apart, climb strictly by address run and then by stamp; the own entries of an accepted subtrace are of this kind |
| RamSoundness.ReadSeesLatestWrite | distributed-prover/src/portal_manager/ram_portal_manager.rs:184-215 | In an accepted subtrace of at most p entries, a read whose address run begins after the first own entry, or with a write, returns the value of the latest earlier-stamped write to that address |
| RamSoundness.ClockCountsCarries | distributed-prover/src/portal_manager/ram_portal_manager.rs:217-227 | Inside a subtrace the clock advances by the number of set carries, modulo 2^32 |
| RamSoundness.ClockTicksIff | distributed-prover/src/portal_manager/ram_portal_manager.rs:217-227 | The clock ticks at every access exactly when the prover sets every carry |
| RamSoundness.ClockMayStop | distributed-prover/src/uint32.rs:81-81 | It need not: two writes with one stamp are accepted under all challenges |
| RamSoundness.RamSubtraceSound | distributed-prover/src/portal_manager/ram_portal_manager.rs:161-232 | What acceptance of a chain says of each single subtrace: its own entries are coherent and ordered, such reads return the latest write by the stamps, and the clock repeats or advances by one |
| RamSoundness.RamChainSound | distributed-prover/src/portal_manager/ram_portal_manager.rs:169-227 | Across the chain, in execution order: when stamps increase along the run and subtrace boundaries are in order, every read returns the latest earlier access if and only if the sorted trace starts with a write and its boundary windows, which no subcircuit checks, hold |
| RamSoundness.ProveAllRam | distributed-prover/src/subcircuit_circuit.rs:357-402 | All RAM stage-1 subcircuits against one list of committed leaves: the run ends well exactly when every subcircuit is satisfied under its carries and produces a committed leaf, and if the requests are linked it is consistent in execution order under the same conditions |
| RamPrograms.RamProgramSound | distributed-prover/src/portal_manager/ram_portal_manager.rs:161-238 | What that means for the programs: if entries say "read" at the gets and wires correspond to addresses, every get of the run returns the value of the latest earlier access to its wire, and all writes and checks hold |
| RamPrograms.OverwrittenIsNotLatest | distributed-prover/src/portal_manager/ram_portal_manager.rs:161-238 | A value overwritten in between is not the latest, whether by wires, by addresses or by stamps |
| RamPrograms.ReadFlagsAreUnbound | distributed-prover/src/portal_manager/ram_portal_manager.rs:161-232 | The flags are not checked: writing 0 to a wire and getting 1 from it is accepted under all challenges, with increasing stamps, coherent boundaries and a consistent trace, because the get is served from an entry that says "write" |
| RamSoundness.ConsistentIff | distributed-prover/src/portal_manager/ram_portal_manager.rs:184-215 | The criterion behind it: for stamps that increase along the run, an ordered rearrangement is coherent and starts with a write if and only if every read of the run returns the latest earlier access |
| RamSoundness.RamChainStampSound | distributed-prover/src/portal_manager/ram_portal_manager.rs:169-215 | With no condition on the stamps, the boundary conditions give the latest earlier-stamped write |
| RamSoundness.StampsAreUnlinked | distributed-prover/src/portal_manager/ram_portal_manager.rs:217-227 | That is not execution order: a run meeting every boundary condition reads 0 after 1 was written, accepted under all challenges, because nothing ties the stamps of one subtrace to the next |
| RamCounting.BadTriplesBound | distributed-prover/src/transcript/ram_transcript.rs:102-139 | Different traces are packed to equal multisets under at most n * p^2 of the p^3 challenge triples |
| RamCounting.RamSoundnessError | distributed-prover/src/transcript/ram_transcript.rs:102-139 | For an inconsistent run of n accesses whose stamps increase and whose boundaries are coherent, all but at most n * p^2 of the p^3 entry challenges leave fewer than n trace challenges under which any choice of leaves satisfies the chain; no rearrangement is assumed |
| RamSoundness.BoundaryIsUnchecked | distributed-prover/src/portal_manager/ram_portal_manager.rs:169-180 | Without the boundary windows it is false: a write of 0 in one subcircuit and a read of 1 in the next are both accepted under all challenges |
| MerklePath.ComputeRootLoop | distributed-prover/src/vkd/sparse_tree.rs:208-225 | The native loop computes the recursive root of a path |
| MerklePath.ComputeRootVarLoop | distributed-prover/src/vkd/sparse_tree_constraints.rs:45-57 | The circuit loop computes its own recursive root, with the opposite bit convention |
| MerklePath.CircuitRootIsNativeRoot | distributed-prover/src/vkd/sparse_tree_constraints.rs:45-57 | On flipped bits the circuit's root is the encoding of the native root |
| MerklePath.ChainRootsIsRoot | distributed-prover/src/vkd/sparse_tree.rs:239-250 | Chaining the root computation over any segments of a path gives the root of the whole path |
| MerklePath.PathBinding | distributed-prover/src/vkd/sparse_tree.rs:227-236 | Two values verifying under one root and index are equal, and so are their paths, or the paths exhibit a collision of the node hash, for any depth |
| MerklePath.DigestRoundTrip | distributed-prover/src/vkd/util.rs:19-37 | A 27-byte digest survives the conversion to a field element and back |
| SparseTree.HashLeafBytes | distributed-prover/src/vkd/hash.rs:49-52 | The bits of a leaf digest are the bits of the first 27 bytes of the hash of the whole leaf |
| SparseTree.HashLeafBinds | distributed-prover/src/vkd/hash.rs:49-52 | Two leaves have one digest if and only if their hashes agree on 27 bytes |
| Bits.Split | distributed-prover/src/vkd/util.rs:40-59 | Fails exactly on other factors than 2, 4, 8 and 16; otherwise the pieces concatenate back to the input, and have equal length when the factor divides it |
| SparseTree.ToBitVector | distributed-prover/src/vkd/sparse_tree.rs:24-37 | The loop yields the index bits from the leaf up, true for a left child |
| SparseTree.InitialHashes | distributed-prover/src/vkd/sparse_tree.rs:72-78 | The default hash of every level, from root to leaf |
| SparseTree.SparseMerkleTree.constructor | distributed-prover/src/vkd/sparse_tree.rs:71-88 | A new tree represents the empty leaf map |
| SparseTree.SparseMerkleTree.Insert | distributed-prover/src/vkd/sparse_tree.rs:98-141 | The stored nodes are the old ones with the leaf and its ancestors rehashed; whenever a root is then stored (always for a position in the tree) they represent the leaf map with the new leaf, and the root is its full-tree root |
| SparseTree.SparseMerkleTree.LookupInternalNode | distributed-prover/src/vkd/sparse_tree.rs:143-153 | Stored hash, or the default of that level |
| SparseTree.SparseMerkleTree.LookupPath | distributed-prover/src/vkd/sparse_tree.rs:155-168 | The looked-up siblings are those of the full tree |
| SparseTree.InsertRepresents | distributed-prover/src/vkd/sparse_tree.rs:98-141 | Rehashing one path keeps "every stored-or-default node is the full-tree node of the leaf map" |
| SparseTree.RunRepresentsFullTree | distributed-prover/src/vkd/sparse_tree.rs:98-141 | After any sequence of inserts every stored-or-default node, the root included, is the recursive hash of the final leaf map |
| SparseTree.RootIgnoresHistory | distributed-prover/src/vkd/sparse_tree.rs:98-141 | Two insert sequences with the same final leaf map give the same root |
| SparseTree.PathVerifies | distributed-prover/src/vkd/sparse_tree.rs:155-168 | In every reachable tree the looked-up path verifies the current leaf, or the default leaf at an unoccupied index |
| SparseTree.PathUpdates | distributed-prover/src/vkd/vkd.rs:245-252 | The path looked up before an insert computes, from the new leaf, the root after it |
| SparseTree.RootBinds | distributed-prover/src/vkd/sparse_tree.rs:98-141 | Equal roots of two leaf maps mean equal leaves at every index, or a collision of the node hash |
| KeyDirectory.ConcatInjective | distributed-prover/src/vkd/vkd.rs:101-106 | Different (username, key, counter) triples give different leaves |
| KeyDirectory.VerifyLoop | distributed-prover/src/vkd/vkd.rs:216-275 | The verifier loop computes the specified run of the log |
| KeyDirectory.RecordedLogVerifies | distributed-prover/src/vkd/vkd.rs:135-214 | For any sequence of registrations at free positions and key changes of existing users, the recorded log verifies from the old root to the new one |
| KeyBinding.DirectoryBinds | distributed-prover/src/vkd/sparse_tree.rs:98-141 | A root stands for one table of users, keys and counters: equal tables have equal roots, and different tables under one root exhibit two colliding nodes, or two different leaves with one digest, at some user's position |
| KeyBinding.RequestMovesRoot | distributed-prover/src/vkd/vkd.rs:135-214 | No registration and no key change leaves the root alone, short of such a collision |
| KeyBinding.VerifiedStepIsRecorded | distributed-prover/src/vkd/vkd.rs:227-266 | An update that starts from a directory's root is exactly what the directory would record, path included, and leads to its next root, or it exhibits a collision |
| KeyBinding.VerifiedLogIsServed | distributed-prover/src/vkd/vkd.rs:216-275 | A log that verifies from a directory's root is the log that the directory records for the requests it stands for, and ends at that directory's root, unless some update exhibits a collision |
| KeyBinding.VerifyIff | distributed-prover/src/vkd/vkd.rs:216-275 | Both directions: barring collisions `verify` accepts exactly the logs the directory records, with exactly its roots |
| KeyDirectory.BuildLog | distributed-prover/src/vkd/vkd.rs:135-214 | Recording each path before its insert yields that log, and leaves the tree representing the new directory |
| KeyDirectory.Random | distributed-prover/src/vkd/vkd.rs:122-214 | The random instance is an honest log with the stated number of updates, one registration and then key changes that name the counter and key before them, and it verifies |
| KeyDirectory.RandomLogIs | distributed-prover/src/vkd/vkd.rs:143-214 | What it asks for can be served when the two users' positions differ and the counter does not overflow; the log's bytes, counters and keys are given update by update |
| VkdNames.WireNamesDistinct | distributed-prover/src/vkd/vkd_circuits.rs:99-195 | Different node addresses and index parts have different portal names |
| VkdNames.DecimalReadsBack | distributed-prover/src/vkd/vkd_circuits.rs:146-195 | Numbers in names are decimal, without leading zeros |
| VkdNames.HexReadsBack | distributed-prover/src/vkd/vkd_circuits.rs:411-413 | Bytes in names are hexadecimal, high digit first: each pair of digits reads back as the byte |
| VkdCompiler.GetNodeAddresses | distributed-prover/src/vkd/vkd.rs:316-360 | Input and output addresses of the four segments of a path |
| VkdCompiler.BuildUpdate | distributed-prover/src/vkd/vkd.rs:362-617 | Eight subcircuits for one update, in the order of the source |
| VkdCompiler.CompileLog | distributed-prover/src/vkd/vkd.rs:362-617 | The generated list is the specified circuit; panics exactly on an empty log |
| VkdCompiler.Compile | distributed-prover/src/vkd/vkd.rs:362-617 | Exactly 8 + 8 * updates subcircuits |
| VkdLayout.KindsOfUpdate | distributed-prover/src/vkd/vkd.rs:383-617 | Which primitives share a subcircuit: an append hashes its leaf, sets the index and starts its old path in its first subcircuit and closes that path with the equality in its fourth; a key change makes the equality, hashes the new leaf and starts the new path in its fifth; all others hold one path segment |
| VkdLayout.SevenKinds | distributed-prover/src/vkd/vkd_constraints.rs:199-216 | Every subcircuit of a compiled log has one of the seven kinds, computes at most one path segment, and has a representative among the unique subcircuits |
| VkdLayout.RepresentativesIff | distributed-prover/src/vkd/vkd_constraints.rs:199-216 | Every subcircuit has the kind of its representative if and only if any append in the log means that the first update is one, and any key change that the second is one |
| VkdLayout.RepresentativeFits | distributed-prover/src/vkd/vkd_constraints.rs:199-216 | Then a subcircuit and its representative make the same accesses and checks in the same order, so one proving key and one subtrace length fit both |
| VkdLayout.RandomInstanceStartsAsTable | distributed-prover/src/vkd/vkd.rs:143-214 | Random instances are of that form |
| VkdExecution.PathRuns | distributed-prover/src/vkd/vkd_constraints.rs:115-165 | The four segment primitives compute the root of the whole path, setting each of their wires once |
| VkdExecution.UpdatesRun | distributed-prover/src/vkd/vkd.rs:362-617 | After each update, the previous-root wire carries the verifier's root, and the checks made so far are the verifier's |
| VkdExecution.CompiledLogRuns | distributed-prover/src/vkd/vkd.rs:362-617 | Compiler correctness: the compiled log runs over single-assignment wires exactly when it is well wired, and all its equality checks hold exactly when `verify` accepts the log |
| VkdCircuit.LimbsAgree | distributed-prover/src/vkd/util.rs:81-106 | Index limbs taken from the hashed bytes and from the bit vector are the same field elements |
| VkdCircuit.LimbBits | distributed-prover/src/vkd/util.rs:71-78 | The low bits of a limb are the flipped segment of the user's bit vector |
| VkdCircuit.PrimitiveRefines | distributed-prover/src/vkd/vkd_constraints.rs:247-352 | Each primitive's constraints, reading and setting field-valued wires, refine its meaning on digests |
| VkdCircuit.CircuitRefines | distributed-prover/src/vkd/vkd_constraints.rs:237-352 | So does the whole circuit, with the same success and the same checks |
| VkdTrace.SplitIndex | distributed-prover/src/vkd/util.rs:81-106 | The native split of a user's index into limbs and bit segments |
| VkdTrace.TraceSubcircuit | distributed-prover/src/vkd/vkd_constraints.rs:85-190 | Tracing one subcircuit natively leaves the setup manager as running its constraints would |
| VkdTrace.GetPortalSubtraces | distributed-prover/src/vkd/vkd_constraints.rs:70-181 | For a non-empty log the natively computed portal trace is the trace of the circuit's own constraint programs, and panics exactly where they would; an empty log panics |
| VkdAcceptance.CircuitFits | distributed-prover/src/vkd/vkd_constraints.rs:195-197 | A log below 2^56 updates cannot overflow the address counter |
| VkdAcceptance.ProgramsRun | distributed-prover/src/vkd/vkd_constraints.rs:237-352 | With named wires: every name is set exactly once and before any read if and only if the log is well wired, and then the checks hold exactly when `verify` does |
| VkdAcceptance.AcceptedIffVerified | distributed-prover/src/subcircuit_circuit.rs:193-264 | End to end: the trace of a compiled log can be collected exactly when it is well wired, and then, for all challenges, all subcircuits are accepted exactly when `verify` accepts the log |
| VkdAcceptance.ServedLogWellWired | distributed-prover/src/vkd/vkd.rs:135-214 | A log served from a directory is well wired if and only if every key it changes belongs to a user it registered itself |
| VkdAcceptance.ServedLogAccepted | distributed-prover/src/vkd/vkd.rs:135-214 | Such a log is accepted by the distributed circuit under all challenges; for any other served log no trace can be collected |
| VkdAcceptance.AcceptedLogIsServed | distributed-prover/src/subcircuit_circuit.rs:193-264 | The other way: an accepted distributed proof of any log, between a directory's root and another, means the directory records exactly that log and ends at that root, unless some update exhibits a collision |
| VkdAcceptance.KnownUserCannotRekey | distributed-prover/src/vkd/vkd.rs:362-617 | The failing case: when a user of the directory changes a key, the log verifies but its circuit reads a leaf hash that no subcircuit sets |
| VkdAcceptance.RandomInstanceAccepted | distributed-prover/src/vkd/vkd.rs:142-143 | A random instance has exactly 2^log subcircuits for log >= 4, and its distributed proof is accepted |
| MultiStage.MultiStageConstraintSystem.SynthesizeWith | cp-groth16/src/constraint_synthesizer.rs:67-80 | One stage appends its variables and its range |
| MultiStage.MultiStageConstraintSystem.CurrentStageWitnessAssignment | cp-groth16/src/constraint_synthesizer.rs:96-99 | After any number of stages, the slice of the last range is exactly what the last stage allocated |
| MultiStage.StageRangesPartition | cp-groth16/src/constraint_synthesizer.rs:53-75 | However many stages run, the ranges partition the witness and range i holds what stage i allocated |
| CpGroth16.KeyFacts | cp-groth16/src/generator.rs:93-117 | The generated committer keys fit any run whose stages have the sizes of setup, and hold each stage's combined scalars over its delta |
| CpGroth16.CommitmentBuilder.Commit | cp-groth16/src/committer.rs:55-98 | Commits to exactly the current stage's variables under that stage's key and advances the stage; panics on a missing key or a wrong length |
| CpGroth16.CommitmentHides | cp-groth16/src/committer.rs:78-97 | A stage commitment is hiding: any other witness of the stage has the same commitment under some randomness |
| CpGroth16.CommitmentFixesRandomness | cp-groth16/src/committer.rs:78-97 | ... and under only one |
| CpGroth16.CommitmentBuilder.Prove | cp-groth16/src/committer.rs:100-122 | Proves the last stage and takes the commitments' randomness back out of C |
| CpGroth16.ProveLastStage | cp-groth16/src/prover.rs:84-155 | The accumulated proof elements, with the second copy of B skipped when r is zero and a last committer key of the wrong length silently contributing zero |
| CpGroth16.WrongKeyIgnored | cp-groth16/src/prover.rs:84-155 | With a last committer key of the wrong length, the proof is the one for a last stage that allocated nothing |
| CpGroth16.ProofElements | cp-groth16/src/prover.rs:158-171 | The elements as inner products over the full assignment, the constant one included |
| CpGroth16.CommitAndProve | cp-groth16/src/committer.rs:55-122 | A whole run of the builder yields the honest proof |
| CpGroth16.PrepareInputs | cp-groth16/src/verifier.rs:47-61 | The accumulated input element; malformed exactly for a wrong number of inputs |
| CpGroth16.HonestProofVerifies | cp-groth16/src/verifier.rs:23-44 | For any number of stages, any r, s and commitment randomness, the honest commitments and proof satisfy the pairing equation if and only if the assignment satisfies the QAP identity |
| BitonicNetwork.NetworkIsRecursive | distributed-prover/src/test_circuit copy.rs:108-137 | The layered comparator loops compute the recursive bitonic sort |
| BitonicNetwork.NetworkSorts | distributed-prover/src/test_circuit copy.rs:108-137 | For any power-of-two input and any strict weak order, the output is a rearrangement in non-descending order (by the 0-1 principle) |
| BitonicNetwork.NetworkOfAgreeing | distributed-prover/src/test_circuit copy.rs:108-137 | The network gives one output for any two orders that agree on its input |
| BitonicGadget.SmallerBitIsLess | distributed-prover/src/test_circuit copy.rs:162-162 | For two field elements of at most (P - 1) / 2, the lowest bit of their doubled difference decides their order |
| BitonicGadget.HalfInRange | distributed-prover/src/test_circuit copy.rs:162-162 | Of two opposite elements other than zero exactly one is in that range |
| BitonicGadget.OutOfRangeBit | distributed-prover/src/test_circuit copy.rs:162-162 | Out of range the bit is wrong: it does not put 0 below the largest element |
| BitonicGadget.CompareRows | distributed-prover/src/test_circuit copy.rs:150-175 | The constraint-style comparison is lexicographic in the bits that the field comparisons read; its constraints hold exactly when the compared keys are in range, and then it is the lexicographic order of the numbers |
| BitonicGadget.LayerInPlace | distributed-prover/src/test_circuit copy.rs:113-135 | One layer of swaps in the row array is the network's layer for the comparisons the gadget makes |
| BitonicGadget.Construct | distributed-prover/src/test_circuit copy.rs:75-147 | The whole gadget in place: zero padding, network, truncation; satisfied exactly when all keys are in the comparison range, and then the output is the sort by the numbers |
| BitonicGadget.SortedIsSorted | distributed-prover/src/test_circuit copy.rs:75-147 | The output is sorted for any number of rows |
| BitonicGadget.PowerOfTwoIsPermutation | distributed-prover/src/test_circuit copy.rs:75-147 | For a power-of-two number of rows the output is a permutation of the input |
| BitonicGadget.TruncationLosesRows | distributed-prover/src/test_circuit copy.rs:82-140 | For any other number it is one if and only if all sort keys are zero and the rows at the positions then cut off are zero rows; the largest rows are lost otherwise |
| BitonicGadget.CheckSorted | distributed-prover/src/test_circuit copy.rs:185-237 | The checking gadget accepts exactly the sorted tables with keys in range; panics on an empty table |
| BitonicGadget.SortAndCheck | distributed-prover/src/test_circuit copy.rs:75-237 | Sorting then checking is accepted exactly when the keys are in range, and then the output is sorted by the numbers |
| TreeMath.RootIdx | distributed-prover/src/tree_hash_circuit.rs:564-575 | The root index, by the number of internal nodes |
| TreeMath.SubcircuitIdxToNodeIdx | distributed-prover/src/tree_hash_circuit.rs:43-64 | The search by levels returns the node of the subcircuit, and panics exactly beyond the root |
| TreeMath.SubcircuitsAreNodes | distributed-prover/src/tree_hash_circuit.rs:43-64 | Subcircuit indices and tree nodes correspond one to one |
| TreeMath.InTreeIff | distributed-prover/src/tree_hash_circuit.rs:545-575 | The tree's nodes are exactly the indices below 2 * leaves - 1 |
| TreeMath.Children | distributed-prover/src/tree_hash_circuit.rs:549-562 | The children by bit tricks are the two nodes one level down (Appendix C of RFC 9420) |
| TreeMath.ChildrenEarlier | distributed-prover/src/tree_hash_circuit.rs:43-64 | Both children of a node are in the tree and have smaller subcircuit indices |
| TreeHashCircuit.CalculateRoot | distributed-prover/src/tree_hash_circuit.rs:484-522 | The level-by-level loop is the pairwise fold of the hashed leaves, and panics exactly when their number is not a power of two |
| TreeHashCircuit.RootExists | distributed-prover/src/tree_hash_circuit.rs:484-522 | The fold has a result exactly for a power of two many leaves |
| TreeHashCircuit.RootIsTreeNode | distributed-prover/src/tree_hash_circuit.rs:484-522 | Its result is the recursive hash of the top node |
| TreeHashCircuit.CircuitRuns | distributed-prover/src/tree_hash_circuit.rs:258-346 | After t subcircuits the portal wires hold exactly the hashes of the first t nodes, and the check made at the root is the comparison with the recursive hash |
| TreeHashCircuit.TreeAcceptedIffRoot | distributed-prover/src/tree_hash_circuit.rs:258-346 | The trace can always be collected, and the distributed proof is accepted exactly when the public root is the one `calculate_root` computes |
| TreeTrace.GetPortalSubtraces | distributed-prover/src/tree_hash_circuit.rs:358-479 | The natively computed portal trace, leaves then parents then padding, is the trace of the circuit's own constraint programs, and panics exactly where they would |
| TreeTrace.CheckIsSilent | distributed-prover/src/tree_hash_circuit.rs:337-342 | The root check leaves no trace |
| Aggregation.StructuredScalarPower | distributed-prover/src/pairing_ops.rs:42-48 | The powers 1, s, s^2, ...; one element even for length zero |
| Aggregation.VerifierEquation | distributed-prover/src/aggregation.rs:207-216 | The aggregated equation is the verifier's equation of a two-stage proof |
| Aggregation.TwistComplete | distributed-prover/src/aggregation.rs:224-281 | If every per-proof equation holds, the twisted diagonal equation holds for every twist |
| Aggregation.DiagonalIsEval | distributed-prover/src/aggregation.rs:262-281 | The diagonal equation says that the polynomial of the proofs' defects vanishes at the twist |
| Aggregation.TwistSound | distributed-prover/src/aggregation.rs:262-281 | If one per-proof equation fails, fewer twists than proofs satisfy the diagonal equation |
| Aggregation.CombinedProduct | distributed-prover/src/aggregation.rs:285-334 | The twisted product of the combined vectors is the sum of s^i * t^j * cross[i][j] over all sixteen cross terms |
| Aggregation.DiagonalIsCross | distributed-prover/src/aggregation.rs:274-281 | The twisted equation that is checked is the one of the four cross terms on the diagonal |
| Distribution.PackRoundTrip | mpi-snark/src/lib.rs:74-112 | Packing into 256-byte blocks and unpacking gives the bytes back with zero padding to the next multiple |
| Distribution.SerializeToPackedVec | mpi-snark/src/lib.rs:74-112 | The packing loop yields the least number of 256-byte cells; position by position they hold the bytes and then zeros |
| Distribution.ConstructPartition | mpi-snark/src/lib.rs:9-30 | Counts and displacements from the accumulator scan, and the flattened buffer |
| Distribution.Regions | mpi-snark/src/lib.rs:9-30 | Regions are disjoint, in order, and each holds its own rank's part |
| Distribution.ComputeResponses | mpi-snark/src/bin/node.rs:659-724 | Chunk by chunk equals the sequential zip-map; panics exactly for zero threads or no request |
| Distribution.EvenShares | mpi-snark/src/bin/node.rs:644-657 | Chunks and thread pools are the largest that do not overrun: one chunk a thread, or one request a chunk with the threads shared out |
| Distribution.ScatterDelivers | mpi-snark/src/lib.rs:9-30 | Every worker decodes exactly its own item from its region |
| Distribution.Gather | mpi-snark/src/lib.rs:33-55 | The gathered buffer is the concatenation of the ranks' messages |
| Distribution.GatherDecodes | mpi-snark/src/lib.rs:58-66 | Decoding exact chunks of it gives the workers' answers in order |
| Distribution.OrderIsPreserved | mpi-snark/src/bin/node.rs:382-445 | Chunked, scattered, computed, gathered and flattened, result i answers request i |

## Left out

- Hash internals: SHA-256 and Poseidon, and the witnessed truncation of a hash to 216 bits
  inside the circuit, are not modelled; the circuit's node hash is the native one on digests
  and its value on larger field elements plays no role.
- Elliptic curves, pairings, TIPA, KZG and the R1CS-to-QAP reduction: the QAP identity at
  the trapdoor point is the condition the Groth16 result is an equivalence with.
- Fiat-Shamir and zero knowledge: challenges are arbitrary field values. The bad
  ones are counted, for ROM and RAM.
- CpGroth16.ProveLastStage: takes the part of the H vector that matches the H query, and
  queries as long as the assignment; the source truncates the longer of the two.
- CpGroth16.CommitmentBuilder.Prove: the source checks the number of commitment randomizers
  itself and panics; here it is a precondition.
- RomSoundness.RomChainSound: that every subcircuit consumes exactly its subtrace is a
  hypothesis, because the check of it is disabled in the source
  (`distributed-prover/src/subcircuit_circuit.rs:237-240`).
- RamCounting.RamSoundnessError: asks for a field of at least 2^32 elements, so that stamps
  are told apart by their encodings.
- VkdAcceptance.RandomInstanceAccepted: assumes that the two fixed users hash to different
  positions, and fewer than 2^16 key changes, beyond which the 16-bit counter overflows.
- KeyDirectory.Random: iterating the map of users is not needed, because only one user's key
  ever changes.
- VkdCompiler.CompileLog: the empty log is a panic (subtraction below zero in a checked
  build); the wrap-around of an unchecked build is not modelled, nor are the bookkeeping
  fields of primitives that nothing reads and their byte serialization.
- SparseTree.SparseMerkleTree.Insert: insertion above the leaf level is not modelled.
- Distribution.ComputeResponses: threads are joined in the order they are spawned, so their
  scheduling is not modelled, nor are the sizes of their pools.
- Serialization formats, files, command lines, MPI calls, timers and benches.
- `distributed-prover/src/test_circuit.rs`, the filter circuits, the VM circuit and the
  construction of the aggregation key: nothing that is not covered by the parts above.
