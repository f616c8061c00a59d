/** The verifiable key directory: its update log, the direct verifier of a log, and the way
    a log is recorded against the tree. */
module KeyDirectory {
  import opened Sequences
  import opened Bits
  import opened MerklePath
  import opened SparseTree

  type Username = Bytes32
  type Key = Bytes32
  type Counter = x: int | 0 <= x < 65536
  type UserLeaf = s: seq<Byte> | |s| == 66 witness Fill(0, 66)

  /** The tree depths the directory may be built with; the source's is 128. Nothing below
      depends on which one it is. */
  type TreeDepth = d: nat | d == 32 || d == 64 || d == 128 || d == 256 witness 128

  const DEPTH: TreeDepth

  /** An authentication path of a leaf. */
  type Path = s: seq<Digest> | |s| == DEPTH witness NoSiblings(DEPTH)

  function NoSiblings(n: nat): (r: seq<Digest>)
    ensures |r| == n
  {
    if n == 0 then [] else [0] + NoSiblings(n - 1)
  }

  /** A counter that can still be incremented in 16 bits; the source panics on any other. */
  type OldCounter = x: int | 0 <= x < 65535

  datatype Update =
    | Rekey(username: Username, counter: OldCounter, key1: Key, path: Path, key2: Key)
    | Append(username: Username, key: Key, path: Path)

  /** The tree leaf of a user: name, counter in two little-endian bytes, key. */
  function Concat(username: Username, key: Key, counter: Counter): UserLeaf {
    username + [counter % 256, counter / 256] + key
  }

  lemma ConcatInjective(u: Username, k: Key, c: Counter, u': Username, k': Key, c': Counter)
    requires Concat(u, k, c) == Concat(u', k', c')
    ensures u == u' && k == k' && c == c'
  {
    var a, b := Concat(u, k, c), Concat(u', k', c');
    assert a[..32] == u && b[..32] == u';
    assert a[34..] == k && b[34..] == k';
    assert a[32] == c % 256 && a[33] == c / 256 && b[32] == c' % 256 && b[33] == c' / 256;
  }

  /** A user's position: the first 16 bytes of the name's hash. */
  function IndexOf(username: Username): nat {
    LeValue(Hash(username)[..DEPTH / 8])
  }

  lemma IndexInRange(username: Username)
    ensures IndexOf(username) < Pow2(DEPTH)
  {
    assert 8 * (DEPTH / 8) == DEPTH && DEPTH / 8 <= 32;
    LeValueBound(Hash(username)[..DEPTH / 8]);
  }

  function IndexBits(username: Username): (r: seq<bool>)
    ensures |r| == DEPTH
  {
    BitVector(IndexOf(username), DEPTH)
  }

  // ------------------------------------------------------------------- the verifier

  /** The node an update's path is first checked with. */
  function OldNode(u: Update, nullLeaf: Digest): Digest {
    if u.Rekey? then HashLeaf(Concat(u.username, u.key1, u.counter)) else nullLeaf
  }

  /** The leaf an update puts in the tree. */
  function NewLeaf(u: Update): UserLeaf
  {
    if u.Rekey? then Concat(u.username, u.key2, u.counter + 1) else Concat(u.username, u.key, 0)
  }

  function OldRoot(u: Update, nullLeaf: Digest): Digest
  {
    ComputeRoot(OldNode(u, nullLeaf), IndexBits(u.username), u.path)
  }

  function NewRoot(u: Update): Digest
  {
    ComputeRoot(HashLeaf(NewLeaf(u)), IndexBits(u.username), u.path)
  }

  /** The root after the log, and whether every step started from the root before it. */
  function RunLog(initialRoot: Digest, updates: seq<Update>, nullLeaf: Digest): (bool, Digest)
  {
    if updates == [] then (true, initialRoot)
    else
      var n := |updates| - 1;
      var (ok, root) := RunLog(initialRoot, updates[..n], nullLeaf);
      (ok && OldRoot(updates[n], nullLeaf) == root, NewRoot(updates[n]))
  }

  function Verify(initialRoot: Digest, updates: seq<Update>, finalRoot: Digest, nullLeaf: Digest): bool
  {
    var (ok, root) := RunLog(initialRoot, updates, nullLeaf);
    root == finalRoot && ok
  }

  method VerifyLoop(initialRoot: Digest, updates: seq<Update>, finalRoot: Digest, nullLeaf: Digest) returns (r: bool)
    ensures r == Verify(initialRoot, updates, finalRoot, nullLeaf)
  {
    hide Concat, IndexOf, HashLeaf, ComputeRoot, BitVector;
    var res := true;
    var root := initialRoot;
    for i := 0 to |updates|
      invariant (res, root) == RunLog(initialRoot, updates[..i], nullLeaf)
    {
      assert updates[..i + 1][..i] == updates[..i];
      var u := updates[i];
      var bits := ToBitVector(Index(IndexOf(u.username), DEPTH));
      match u {
        case Rekey(username, counter, key1, path, key2) =>
          var claimed := ComputeRootLoop(HashLeaf(Concat(username, key1, counter)), bits, path);
          res := res && claimed == root;
          root := ComputeRootLoop(HashLeaf(Concat(username, key2, counter + 1)), bits, path);
        case Append(username, key, path) =>
          var claimed := ComputeRootLoop(nullLeaf, bits, path);
          res := res && claimed == root;
          root := ComputeRootLoop(HashLeaf(Concat(username, key, 0)), bits, path);
      }
    }
    assert updates[..|updates|] == updates;
    r := root == finalRoot && res;
  }

  // -------------------------------------------------------------- recording a log

  datatype Request = Register(username: Username, key: Key) | ChangeKey(username: Username, key: Key)

  /** The known users and the leaf hashes of the tree. */
  datatype Directory = Directory(users: map<Username, (Counter, Key)>, hashes: map<nat, Digest>)

  /** A new user takes an unoccupied position; a known user's counter must not overflow. */
  predicate CanApply(d: Directory, req: Request) {
    match req
    case Register(username, _) => IndexOf(username) !in d.hashes
    case ChangeKey(username, _) => username in d.users && d.users[username].0 < 65535
  }

  function Apply(d: Directory, req: Request): Directory
    requires CanApply(d, req)
  {
    Directory(d.users[req.username := (AppliedCounter(d, req), req.key)],
              d.hashes[IndexOf(req.username) := HashLeaf(AppliedLeaf(d, req))])
  }

  function AppliedCounter(d: Directory, req: Request): Counter
    requires CanApply(d, req)
  {
    if req.Register? then 0 else d.users[req.username].0 + 1
  }

  function AppliedLeaf(d: Directory, req: Request): UserLeaf
    requires CanApply(d, req)
  {
    Concat(req.username, req.key, AppliedCounter(d, req))
  }

  /** The log entry: the path is looked up before the leaf is replaced. */
  function Record(d: Directory, req: Request): Update
    requires CanApply(d, req)
  {
    var path := FullPath(d.hashes, IndexOf(req.username), 0, DEPTH);
    match req
    case Register(username, key) => Append(username, key, path)
    case ChangeKey(username, key) => Rekey(username, d.users[username].0, d.users[username].1, path, key)
  }

  lemma RecordedFields(d: Directory, req: Request)
    requires CanApply(d, req)
    ensures Record(d, req).username == req.username
    ensures Record(d, req).path == FullPath(d.hashes, IndexOf(req.username), 0, DEPTH)
    ensures NewLeaf(Record(d, req)) == AppliedLeaf(d, req)
  {
    hide Concat, IndexOf, FullPath;
  }

  /** Every known user's leaf sits at that user's own position. */
  ghost predicate Settled(d: Directory) {
    && (forall u | u in d.users ::
          IndexOf(u) in d.hashes && d.hashes[IndexOf(u)] == HashLeaf(Concat(u, d.users[u].1, d.users[u].0)))
    && (forall u, v | u in d.users && v in d.users && IndexOf(u) == IndexOf(v) :: u == v)
  }

  datatype Served = Served(directory: Directory, log: seq<Update>)

  /** Serving the requests in order; `None` when one of them cannot be applied. */
  function Serve(d: Directory, reqs: seq<Request>): (r: Option<Served>)
    ensures r.Some? ==> |r.value.log| == |reqs|
  {
    if reqs == [] then Some(Served(d, []))
    else match Serve(d, reqs[..|reqs| - 1])
      case None => None
      case Some(s) => ServeNext(s, reqs[|reqs| - 1])
  }

  function ServeNext(s: Served, req: Request): Option<Served> {
    if CanApply(s.directory, req)
    then Some(Served(Apply(s.directory, req), s.log + [Record(s.directory, req)]))
    else None
  }

  lemma {:induction false} ServePrefix(d: Directory, reqs: seq<Request>, i: nat)
    requires i <= |reqs| && Serve(d, reqs).Some?
    ensures Serve(d, reqs[..i]).Some?
  {
    if i < |reqs| {
      ServePrefix(d, reqs[..|reqs| - 1], i);
      assert reqs[..|reqs| - 1][..i] == reqs[..i];
    } else {
      assert reqs[..i] == reqs;
    }
  }

  function RootOf(d: Directory): Digest { FullNode(d.hashes, DEPTH, 0) }

  lemma ApplySettles(d: Directory, req: Request)
    requires Settled(d) && CanApply(d, req)
    ensures Settled(Apply(d, req))
  {}

  /** One request: the recorded entry starts from the tree's root. */
  lemma RecordedStepStarts(d: Directory, req: Request)
    requires Settled(d) && CanApply(d, req)
    ensures OldRoot(Record(d, req), DefaultLeafHash()) == RootOf(d)
  {
    var index := IndexOf(req.username);
    IndexInRange(req.username);
    PathVerifies(d.hashes, index, DEPTH);
    assert OldNode(Record(d, req), DefaultLeafHash())
         == if index in d.hashes then d.hashes[index] else DefaultLeafHash();
  }

  /** ... and ends at the root with the new leaf in place. */
  lemma RecordedStepEnds(d: Directory, req: Request)
    requires CanApply(d, req)
    ensures NewRoot(Record(d, req)) == RootOf(Apply(d, req))
  {
    var index := IndexOf(req.username);
    IndexInRange(req.username);
    var h := HashLeaf(AppliedLeaf(d, req));
    PathUpdates(d.hashes, index, DEPTH, h);
    RecordedFields(d, req);
  }

  lemma RunLogSnoc(initialRoot: Digest, log: seq<Update>, u: Update, nullLeaf: Digest)
    ensures RunLog(initialRoot, log + [u], nullLeaf)
         == (RunLog(initialRoot, log, nullLeaf).0 && OldRoot(u, nullLeaf) == RunLog(initialRoot, log, nullLeaf).1,
             NewRoot(u))
  {
    assert (log + [u])[..|log|] == log;
  }

  /** A log recorded from the tree always verifies against the final root. */
  lemma {:induction false} RecordedLogVerifies(d: Directory, reqs: seq<Request>)
    requires Settled(d) && Serve(d, reqs).Some?
    ensures var s := Serve(d, reqs).value;
            && Settled(s.directory)
            && RunLog(RootOf(d), s.log, DefaultLeafHash()) == (true, RootOf(s.directory))
            && Verify(RootOf(d), s.log, RootOf(s.directory), DefaultLeafHash())
  {
    if reqs != [] {
      var n := |reqs| - 1;
      RecordedLogVerifies(d, reqs[..n]);
      var before := Serve(d, reqs[..n]).value;
      RecordedLogStep(d, before, reqs[n]);
    }
  }

  lemma RecordedLogStep(d: Directory, s: Served, req: Request)
    requires Settled(s.directory) && CanApply(s.directory, req)
    requires RunLog(RootOf(d), s.log, DefaultLeafHash()) == (true, RootOf(s.directory))
    ensures var s' := ServeNext(s, req).value;
            && Settled(s'.directory)
            && RunLog(RootOf(d), s'.log, DefaultLeafHash()) == (true, RootOf(s'.directory))
  {
    ApplySettles(s.directory, req);
    RecordedStepStarts(s.directory, req);
    RecordedStepEnds(s.directory, req);
    RunLogSnoc(RootOf(d), s.log, Record(s.directory, req), DefaultLeafHash());
  }

  lemma ServeNothing(d: Directory, reqs: seq<Request>)
    ensures Serve(d, reqs[..0]) == Some(Served(d, []))
  {}

  lemma ServeOneMore(d: Directory, reqs: seq<Request>, i: nat)
    requires i < |reqs| && Serve(d, reqs[..i + 1]).Some?
    ensures Serve(d, reqs[..i]).Some? && Serve(d, reqs[..i + 1]) == ServeNext(Serve(d, reqs[..i]).value, reqs[i])
    ensures CanApply(Serve(d, reqs[..i]).value.directory, reqs[i])
  {
    hide CanApply;
    assert reqs[..i + 1][..i] == reqs[..i];
  }

  /** Serves the requests against the tree, recording the log. */
  method BuildLog(tree: SparseMerkleTree, reqs: seq<Request>, users: map<Username, (Counter, Key)>, ghost d: Directory)
    returns (updates: seq<Update>)
    requires tree.treeDepth == DEPTH && tree.Holds(d.hashes) && users == d.users
    requires Serve(d, reqs).Some?
    modifies tree
    ensures updates == Serve(d, reqs).value.log
    ensures tree.Holds(Serve(d, reqs).value.directory.hashes)
  {
    hide CanApply, Apply, Record, Concat, IndexOf, HashLeaf, Serve;
    updates := [];
    var known := users;
    var i := 0;
    ghost var now := d;
    ServeNothing(d, reqs);
    while i < |reqs|
      invariant 0 <= i <= |reqs|
      invariant Serve(d, reqs[..i]) == Some(Served(now, updates))
      invariant known == now.users && tree.Holds(now.hashes)
    {
      ServePrefix(d, reqs, i + 1);
      ServeOneMore(d, reqs, i);
      var u, counter := ServeOne(tree, reqs[i], known, now);
      updates := updates + [u];
      known := known[reqs[i].username := (counter, reqs[i].key)];
      now := Apply(now, reqs[i]);
      i := i + 1;
    }
    assert reqs[..i] == reqs;
  }

  method ServeOne(tree: SparseMerkleTree, req: Request, known: map<Username, (Counter, Key)>, ghost d: Directory)
    returns (u: Update, counter: Counter)
    requires tree.treeDepth == DEPTH && tree.Holds(d.hashes) && known == d.users
    requires CanApply(d, req)
    modifies tree
    ensures u == Record(d, req)
    ensures Apply(d, req).users == known[req.username := (counter, req.key)]
    ensures tree.Holds(Apply(d, req).hashes)
  {
    hide Concat, IndexOf, FullPath, HashLeaf, Settled;
    IndexInRange(req.username);
    var index := IndexOf(req.username);
    var path := tree.LookupPath(index, d.hashes);
    match req {
      case Register(username, key) =>
        counter := 0;
        u := Append(username, key, path);
      case ChangeKey(username, key) =>
        var (oldCounter, key1) := known[username];
        counter := oldCounter + 1;
        u := Rekey(username, oldCounter, key1, path, key);
    }
    assert u == Record(d, req);
    var leaf := Concat(req.username, req.key, counter);
    assert Apply(d, req).hashes == d.hashes[index := HashLeaf(leaf)];
    InsertLeaf(tree, index, leaf, d.hashes);
  }

  method InsertLeaf(tree: SparseMerkleTree, index: nat, leaf: UserLeaf, ghost hashes: map<nat, Digest>)
    requires tree.treeDepth == DEPTH && index < Pow2(DEPTH) && tree.Holds(hashes)
    modifies tree
    ensures tree.Holds(hashes[index := HashLeaf(leaf)])
  {
    hide HashLeaf, FullNode;
    var _ := tree.Insert(index, LeafValue(leaf), hashes);
  }

  // -------------------------------------------------------------- the random instance

  function Repeat(b: Byte): Bytes32 {
    seq(32, _ => b)
  }

  const GenesisUser: Username := Repeat(0)
  const GenesisKey: Key := Repeat(0)
  const FirstUser: Username := Repeat(8)
  const FirstKey: Key := Repeat(0)

  /** What a random instance asks for: one registration, then `n` key changes. */
  function RandomRequests(n: nat): (r: seq<Request>)
    ensures |r| == n + 1
  {
    if n == 0 then [Register(FirstUser, FirstKey)]
    else RandomRequests(n - 1) + [ChangeKey(FirstUser, Repeat((n - 1) % 256))]
  }

  function GenesisDirectory(): Directory {
    Directory(map[GenesisUser := (0, GenesisKey)],
              map[IndexOf(GenesisUser) := HashLeaf(Concat(GenesisUser, GenesisKey, 0))])
  }

  /** The same byte throughout. */
  predicate Made(s: Bytes32, b: int) {
    forall i | 0 <= i < 32 :: s[i] == b
  }

  /** The key that update `k` installs: zeros at first, then the number of the change. */
  function NewByte(k: nat): int { if k == 0 then 0 else (k - 1) % 256 }

  /** The log of a random instance: one user's registration and key changes, each naming the
      counter and the key before it. */
  predicate IsRandomLog(log: seq<Update>) {
    && log != []
    && log[0].Append? && Made(log[0].username, 8) && Made(log[0].key, 0)
    && forall k | 1 <= k < |log| ::
         && log[k].Rekey? && Made(log[k].username, 8) && log[k].counter == k - 1
         && Made(log[k].key1, NewByte(k - 1)) && Made(log[k].key2, NewByte(k))
  }

  lemma MadeOf(b: Byte)
    ensures Made(Repeat(b), b)
  {}

  /** After update `n` the random user is there with that counter and key. */
  predicate RandomSoFar(s: Served, n: nat) {
    && |s.log| == n + 1 && IsRandomLog(s.log)
    && FirstUser in s.directory.users && s.directory.users[FirstUser].0 == n
    && Made(s.directory.users[FirstUser].1, NewByte(n))
  }

  lemma RandomStep(s: Served, n: nat, key: Key)
    requires RandomSoFar(s, n) && n < 65535 && Made(key, NewByte(n + 1))
    ensures ServeNext(s, ChangeKey(FirstUser, key)).Some?
    ensures RandomSoFar(ServeNext(s, ChangeKey(FirstUser, key)).value, n + 1)
  {
    hide IndexOf, Concat, HashLeaf, FullPath, Made, NewByte, Repeat;
    MadeOf(8);
    var t := ServeNext(s, ChangeKey(FirstUser, key)).value;
    assert t.log[..n + 1] == s.log;
    forall k | 1 <= k < |t.log|
      ensures && t.log[k].Rekey? && Made(t.log[k].username, 8) && t.log[k].counter == k - 1
              && Made(t.log[k].key1, NewByte(k - 1)) && Made(t.log[k].key2, NewByte(k))
    {
      assert k <= n ==> t.log[k] == s.log[k];
    }
  }

  lemma RandomStart()
    requires IndexOf(GenesisUser) != IndexOf(FirstUser)
    ensures Serve(GenesisDirectory(), RandomRequests(0)).Some?
    ensures RandomSoFar(Serve(GenesisDirectory(), RandomRequests(0)).value, 0)
  {
    hide IndexOf, Concat, HashLeaf, FullPath, Made, Repeat;
    MadeOf(8);
    MadeOf(0);
    assert RandomRequests(0)[..0] == [];
  }

  /** The requests of a random instance can be served as long as the two users' positions
      differ and the counter does not overflow, and they give that log. */
  lemma {:induction false} RandomLogIs(n: nat)
    requires IndexOf(GenesisUser) != IndexOf(FirstUser) && n <= 65535
    ensures Serve(GenesisDirectory(), RandomRequests(n)).Some?
    ensures RandomSoFar(Serve(GenesisDirectory(), RandomRequests(n)).value, n)
  {
    hide GenesisDirectory, ServeNext, RandomSoFar, Made, Repeat;
    if n == 0 {
      RandomStart();
    } else {
      RandomLogIs(n - 1);
      assert RandomRequests(n)[..n] == RandomRequests(n - 1);
      MadeOf((n - 1) % 256);
      RandomStep(Serve(GenesisDirectory(), RandomRequests(n - 1)).value, n - 1, Repeat((n - 1) % 256));
    }
  }

  function NumKeyChanges(logNumSubcircuits: nat): int {
    (Pow2(logNumSubcircuits) - 8) / 8 - 1
  }

  /** A random instance: genesis user in the tree, one append, then key changes. */
  method Random(logNumSubcircuits: nat) returns (initialRoot: Digest, updates: seq<Update>, finalRoot: Digest)
    requires logNumSubcircuits >= 4 && NumKeyChanges(logNumSubcircuits) <= 65535
    requires IndexOf(GenesisUser) != IndexOf(FirstUser)
    ensures NumKeyChanges(logNumSubcircuits) >= 0
    ensures Serve(GenesisDirectory(), RandomRequests(NumKeyChanges(logNumSubcircuits))).Some?
    ensures updates == Serve(GenesisDirectory(), RandomRequests(NumKeyChanges(logNumSubcircuits))).value.log
    ensures IsRandomLog(updates) && |updates| == NumKeyChanges(logNumSubcircuits) + 1
    ensures initialRoot == RootOf(GenesisDirectory())
    ensures Verify(initialRoot, updates, finalRoot, DefaultLeafHash())
  {
    hide Concat, IndexOf, FullPath, HashLeaf, Settled, Serve, RandomRequests, FullNode, RunLog, Verify, IsRandomLog;
    NumKeyChangesNonNegative(logNumSubcircuits);
    var n: nat := NumKeyChanges(logNumSubcircuits);
    var tree := new SparseMerkleTree(DEPTH);
    IndexInRange(GenesisUser);
    ghost var d := GenesisDirectory();
    InsertLeaf(tree, IndexOf(GenesisUser), Concat(GenesisUser, GenesisKey, 0), map[]);
    assert tree.Holds(d.hashes);
    initialRoot := tree.root;
    RandomLogIs(n);
    GenesisSettled();
    RecordedLogVerifies(d, RandomRequests(n));
    updates := BuildLog(tree, RandomRequests(n), map[GenesisUser := (0, GenesisKey)], d);
    finalRoot := tree.root;
  }

  /** The directory before the log: one user, all zeros, whose key was never changed. */
  lemma GenesisSettled()
    ensures Settled(GenesisDirectory())
    ensures |GenesisDirectory().users| == |GenesisDirectory().hashes| == 1
    ensures forall u | u in GenesisDirectory().users ::
              Made(u, 0) && GenesisDirectory().users[u].0 == 0 && Made(GenesisDirectory().users[u].1, 0)
  {
    hide IndexOf, Concat, HashLeaf, Repeat;
    MadeOf(0);
  }

  lemma NumKeyChangesNonNegative(n: nat)
    requires n >= 4
    ensures NumKeyChanges(n) >= 0
  {
    Pow2Add(4, n - 4);
    assert Pow2(4) == 16;
  }
}
