/** What a root of the key directory binds: the users, their keys and counters, and the only
    way to a verified log. Each result names the colliding inputs if there are any. */
module KeyBinding {
  import opened Sequences
  import opened Bits
  import opened MerklePath
  import opened SparseTree
  import opened KeyDirectory

  /** Every occupied position is a known user's. */
  ghost predicate Owned(d: Directory) {
    forall i | i in d.hashes :: HasOwner(d, i)
  }

  ghost predicate HasOwner(d: Directory, i: nat) {
    exists u :: u in d.users && IndexOf(u) == i
  }

  /** The bytes at a position: its owner's leaf, or the initial leaf value. */
  ghost function LeafAt(d: Directory, i: nat): seq<Byte>
    requires Owned(d)
  {
    if i in d.hashes then
      assert HasOwner(d, i);
      var u :| u in d.users && IndexOf(u) == i;
      Concat(u, d.users[u].1, d.users[u].0)
    else InitialLeafValue
  }

  /** A position nobody owns holds 32 zero bytes, which is no user's leaf. */
  lemma NobodysLeaf(d: Directory, i: nat)
    requires Owned(d)
    ensures i !in d.hashes ==> |LeafAt(d, i)| == 32 && forall k | 0 <= k < 32 :: LeafAt(d, i)[k] == 0
    ensures i in d.hashes ==> |LeafAt(d, i)| == 66
  {
    if i in d.hashes {
      assert HasOwner(d, i);
    }
  }

  lemma GenesisOwned()
    ensures Owned(GenesisDirectory())
  {
    assert HasOwner(GenesisDirectory(), IndexOf(GenesisUser)) by {
      assert GenesisUser in GenesisDirectory().users;
    }
  }

  lemma ApplyOwns(d: Directory, req: Request)
    requires Owned(d) && CanApply(d, req)
    ensures Owned(Apply(d, req))
  {
    hide IndexOf, Concat, HashLeaf;
    var d' := Apply(d, req);
    forall i | i in d'.hashes ensures HasOwner(d', i) {
      if i == IndexOf(req.username) {
        assert req.username in d'.users;
      } else {
        assert HasOwner(d, i);
        var u :| u in d.users && IndexOf(u) == i;
        assert u in d'.users;
      }
    }
  }

  /** All directories that can be served from a proper one are proper. */
  lemma {:induction false} ServedOwned(d: Directory, reqs: seq<Request>)
    requires Settled(d) && Owned(d) && Serve(d, reqs).Some?
    ensures Settled(Serve(d, reqs).value.directory) && Owned(Serve(d, reqs).value.directory)
  {
    hide Settled, Owned, Apply, CanApply, Record;
    if reqs != [] {
      ServedOwned(d, reqs[..|reqs| - 1]);
      var before := Serve(d, reqs[..|reqs| - 1]).value.directory;
      ApplySettles(before, reqs[|reqs| - 1]);
      ApplyOwns(before, reqs[|reqs| - 1]);
    }
  }

  // ---------------------------------------------------------------- leaves and users

  lemma LeafIsHashed(d: Directory, i: nat)
    requires Settled(d) && Owned(d)
    ensures FullNode(d.hashes, 0, i) == HashLeaf(LeafAt(d, i))
  {
    hide IndexOf, Concat, HashLeaf;
    if i in d.hashes {
      assert HasOwner(d, i);
    }
  }

  lemma LeafOfUser(d: Directory, u: Username)
    requires Settled(d) && Owned(d)
    ensures u in d.users ==> LeafAt(d, IndexOf(u)) == Concat(u, d.users[u].1, d.users[u].0)
  {
    hide IndexOf, Concat, HashLeaf;
    if u in d.users {
      assert IndexOf(u) in d.hashes;
      assert HasOwner(d, IndexOf(u));
    }
  }

  /** Which leaf is whose: a leaf of 66 bytes at a position is the entry of a known user. */
  lemma LeafTellsUser(d: Directory, i: nat, u: Username, key: Key, counter: Counter)
    requires Settled(d) && Owned(d) && LeafAt(d, i) == Concat(u, key, counter)
    ensures u in d.users && d.users[u] == (counter, key) && i == IndexOf(u)
  {
    assert i in d.hashes;
    assert HasOwner(d, i);
    hide IndexOf;
    var v :| v in d.users && IndexOf(v) == i && LeafAt(d, i) == Concat(v, d.users[v].1, d.users[v].0);
    ConcatInjective(u, key, counter, v, d.users[v].1, d.users[v].0);
  }

  lemma SameLeavesInclude(d: Directory, e: Directory)
    requires Settled(d) && Owned(d) && Settled(e) && Owned(e)
    requires forall u | u in d.users :: LeafAt(d, IndexOf(u)) == LeafAt(e, IndexOf(u))
    ensures forall u | u in d.users :: u in e.users && e.users[u] == d.users[u]
  {
    hide Settled, Owned, IndexOf, Concat;
    forall u | u in d.users ensures u in e.users && e.users[u] == d.users[u] {
      LeafOfUser(d, u);
      LeafTellsUser(e, IndexOf(u), u, d.users[u].1, d.users[u].0);
    }
  }

  // --------------------------------------------------------------------- what a root binds

  /** At this position the two directories exhibit a collision of nodes or of leaves. */
  ghost predicate CollideAt(d: Directory, e: Directory, i: nat)
    requires Owned(d) && Owned(e)
  {
    || IsCollision(TreeCollision(d.hashes, e.hashes, DEPTH, i).0, TreeCollision(d.hashes, e.hashes, DEPTH, i).1)
    || LeafCollision(LeafAt(d, i), LeafAt(e, i))
  }

  lemma PositionBinds(d: Directory, e: Directory, i: nat)
    requires Settled(d) && Owned(d) && Settled(e) && Owned(e)
    requires RootOf(d) == RootOf(e) && i < Pow2(DEPTH)
    ensures LeafAt(d, i) == LeafAt(e, i) || CollideAt(d, e, i)
  {
    hide Settled, Owned, LeafAt, FullNode, HashLeaf, Hash;
    AncestorBelow(i, DEPTH, DEPTH);
    RootBinds(d.hashes, e.hashes, DEPTH, i);
    LeafIsHashed(d, i);
    LeafIsHashed(e, i);
    HashLeafBinds(LeafAt(d, i), LeafAt(e, i));
  }

  lemma DifferentLeaf(d: Directory, e: Directory) returns (u: Username)
    requires Settled(d) && Owned(d) && Settled(e) && Owned(e) && d.users != e.users
    ensures (u in d.users || u in e.users) && LeafAt(d, IndexOf(u)) != LeafAt(e, IndexOf(u))
  {
    hide Settled, Owned, LeafAt, IndexOf;
    if forall u | u in d.users || u in e.users :: LeafAt(d, IndexOf(u)) == LeafAt(e, IndexOf(u)) {
      SameLeavesInclude(d, e);
      SameLeavesInclude(e, d);
      SameEntries(d.users, e.users);
    }
    u :| (u in d.users || u in e.users) && LeafAt(d, IndexOf(u)) != LeafAt(e, IndexOf(u));
  }

  lemma SameEntries<K, V>(m: map<K, V>, n: map<K, V>)
    requires forall k | k in m :: k in n && n[k] == m[k]
    requires forall k | k in n :: k in m
    ensures m == n
  {}

  lemma SameUsersSameRoot(d: Directory, e: Directory)
    requires Settled(d) && Owned(d) && Settled(e) && Owned(e) && d.users == e.users
    ensures RootOf(d) == RootOf(e)
  {
    hide Settled, Owned, FullNode;
    SameUsersSameHashes(d, e);
  }

  lemma SameUsersSameHashes(d: Directory, e: Directory)
    requires Settled(d) && Owned(d) && Settled(e) && Owned(e) && d.users == e.users
    ensures d.hashes == e.hashes
  {
    hide IndexOf, Concat, HashLeaf;
    forall i | i in d.hashes || i in e.hashes
      ensures i in d.hashes && i in e.hashes && d.hashes[i] == e.hashes[i]
    {
      assert i in d.hashes ==> HasOwner(d, i);
      assert i in e.hashes ==> HasOwner(e, i);
    }
  }

  /** A root stands for one table of users with their keys and counters: equal tables have
      equal roots, and different tables under one root exhibit, at some user's position, two
      colliding nodes or two different leaves with one digest. */
  lemma DirectoryBinds(d: Directory, e: Directory)
    requires Settled(d) && Owned(d) && Settled(e) && Owned(e)
    ensures d.users == e.users ==> RootOf(d) == RootOf(e)
    ensures RootOf(d) == RootOf(e) && d.users != e.users ==>
              exists u :: (u in d.users || u in e.users) && CollideAt(d, e, IndexOf(u))
  {
    hide Settled, Owned, CollideAt, RootOf, IndexOf;
    if d.users == e.users {
      SameUsersSameRoot(d, e);
    } else if RootOf(d) == RootOf(e) {
      var u := DifferentLeaf(d, e);
      IndexInRange(u);
      PositionBinds(d, e, IndexOf(u));
    }
  }

  /** No request leaves the root alone, short of a collision. */
  lemma RequestMovesRoot(d: Directory, req: Request)
    requires Settled(d) && Owned(d) && CanApply(d, req) && RootOf(Apply(d, req)) == RootOf(d)
    ensures Owned(Apply(d, req))
    ensures exists u :: (u in d.users || u in Apply(d, req).users) && CollideAt(d, Apply(d, req), IndexOf(u))
  {
    ApplySettles(d, req);
    ApplyOwns(d, req);
    assert d.users != Apply(d, req).users by {
      if req.username in d.users {
        assert req.Register? ==> IndexOf(req.username) in d.hashes;
      }
    }
    hide Settled, Owned, CollideAt, Apply, RootOf;
    DirectoryBinds(d, Apply(d, req));
  }

  // ------------------------------------------------------------------- what verifies

  function RequestOf(u: Update): Request {
    match u
    case Rekey(username, _, _, _, key2) => ChangeKey(username, key2)
    case Append(username, key, _) => Register(username, key)
  }

  function RequestsOf(log: seq<Update>): (r: seq<Request>)
    ensures |r| == |log|
  {
    if log == [] then [] else RequestsOf(log[..|log| - 1]) + [RequestOf(log[|log| - 1])]
  }

  /** The leaf an update claims to find at its position. */
  function ClaimedLeaf(u: Update): seq<Byte> {
    if u.Rekey? then Concat(u.username, u.key1, u.counter) else InitialLeafValue
  }

  lemma ClaimedLeafIsHashed(u: Update)
    ensures OldNode(u, DefaultLeafHash()) == HashLeaf(ClaimedLeaf(u))
  {}

  /** The update's claim and the directory's own leaf and path exhibit a collision. */
  ghost predicate ClaimCollides(d: Directory, u: Update)
    requires Owned(d)
  {
    var i := IndexOf(u.username);
    var met := PathCollision(HashLeaf(ClaimedLeaf(u)), u.path, FullNode(d.hashes, 0, i),
                             FullPath(d.hashes, i, 0, DEPTH), IndexBits(u.username));
    IsCollision(met.0, met.1) || LeafCollision(ClaimedLeaf(u), LeafAt(d, i))
  }

  lemma ClaimBinds(d: Directory, u: Update)
    requires Settled(d) && Owned(d) && OldRoot(u, DefaultLeafHash()) == RootOf(d)
    ensures (ClaimedLeaf(u) == LeafAt(d, IndexOf(u.username))
             && u.path == FullPath(d.hashes, IndexOf(u.username), 0, DEPTH)) || ClaimCollides(d, u)
  {
    hide Settled, Owned, LeafAt, HashLeaf, Hash, FullPath, ClaimedLeaf, BitVector, DefaultLeafHash, Concat, OldNode;
    var i := IndexOf(u.username);
    IndexInRange(u.username);
    ClaimedLeafIsHashed(u);
    OccupiedOrDefault(d.hashes, i);
    PathVerifies(d.hashes, i, DEPTH);
    LeafIsHashed(d, i);
    PathBinding(HashLeaf(ClaimedLeaf(u)), u.path, FullNode(d.hashes, 0, i), FullPath(d.hashes, i, 0, DEPTH),
                IndexBits(u.username));
    HashLeafBinds(ClaimedLeaf(u), LeafAt(d, i));
  }

  lemma OccupiedOrDefault(leaves: map<nat, Digest>, i: nat)
    ensures FullNode(leaves, 0, i) == if i in leaves then leaves[i] else DefaultLeafHash()
  {}

  /** An update that starts from the directory's root is what the directory would record for
      the request it stands for, short of a collision. */
  lemma VerifiedStepIsRecorded(d: Directory, u: Update)
    requires Settled(d) && Owned(d) && OldRoot(u, DefaultLeafHash()) == RootOf(d)
    ensures (CanApply(d, RequestOf(u)) && Record(d, RequestOf(u)) == u && NewRoot(u) == RootOf(Apply(d, RequestOf(u))))
         || ClaimCollides(d, u)
  {
    hide Settled, Owned, HashLeaf, Hash, FullPath, FullNode, IndexOf, Concat, BitVector, OldRoot, NewRoot, RootOf,
         ClaimCollides;
    ClaimBinds(d, u);
    if !ClaimCollides(d, u) {
      var i := IndexOf(u.username);
      match u {
        case Rekey(username, counter, key1, _, _) => LeafTellsUser(d, i, username, key1, counter);
        case Append(_, _, _) =>
      }
      assert CanApply(d, RequestOf(u));
      RecordedStepEnds(d, RequestOf(u));
    }
  }

  ghost predicate CollidesAt(d: Directory, log: seq<Update>, k: nat)
    requires k < |log| && Settled(d) && Owned(d)
  {
    && Serve(d, RequestsOf(log[..k])).Some?
    && (ServedOwned(d, RequestsOf(log[..k]));
        ClaimCollides(Serve(d, RequestsOf(log[..k])).value.directory, log[k]))
  }

  /** A log that verifies from a directory's root is the log that directory records when it
      serves the requests the log stands for, unless some update exhibits a collision. */
  lemma {:induction false} VerifiedLogIsServed(d: Directory, log: seq<Update>)
    requires Settled(d) && Owned(d) && RunLog(RootOf(d), log, DefaultLeafHash()).0
    ensures (var s := Serve(d, RequestsOf(log));
             s.Some? && s.value.log == log
             && RootOf(s.value.directory) == RunLog(RootOf(d), log, DefaultLeafHash()).1)
         || exists k :: 0 <= k < |log| && CollidesAt(d, log, k)
  {
    hide Settled, Owned, RootOf, OldRoot, NewRoot, CanApply, Apply, Record, ClaimCollides, DefaultLeafHash;
    if log != [] {
      var n := |log| - 1;
      VerifiedLogIsServed(d, log[..n]);
      if k :| 0 <= k < n && CollidesAt(d, log[..n], k) {
        assert log[..n][..k] == log[..k];
        assert CollidesAt(d, log, k);
      } else {
        ServedOwned(d, RequestsOf(log[..n]));
        var s := Serve(d, RequestsOf(log[..n])).value;
        VerifiedStepIsRecorded(s.directory, log[n]);
        if ClaimCollides(s.directory, log[n]) {
          assert CollidesAt(d, log, n);
        } else {
          assert RequestsOf(log)[..n] == RequestsOf(log[..n]);
          assert log == log[..n] + [log[n]];
        }
      }
    }
  }

  /** The verifier decides whether a directory could have recorded the log: both ways, short
      of a collision. */
  lemma VerifyIff(d: Directory, log: seq<Update>, finalRoot: Digest)
    requires Settled(d) && Owned(d)
    requires forall k | 0 <= k < |log| :: !CollidesAt(d, log, k)
    ensures Verify(RootOf(d), log, finalRoot, DefaultLeafHash()) <==>
              var s := Serve(d, RequestsOf(log));
              s.Some? && s.value.log == log && RootOf(s.value.directory) == finalRoot
  {
    hide Settled, Owned, RootOf, RunLog, CollidesAt, Serve, DefaultLeafHash;
    if Verify(RootOf(d), log, finalRoot, DefaultLeafHash()) {
      VerifiedLogIsServed(d, log);
    }
    if Serve(d, RequestsOf(log)).Some? {
      RecordedLogVerifies(d, RequestsOf(log));
    }
  }
}
