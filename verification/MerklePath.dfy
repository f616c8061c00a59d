/** Authentication paths: computing a root natively and in the circuit, which read the index
    bits the opposite way round, in one piece or segment by segment. */
module MerklePath {
  import opened Field
  import opened Sequences
  import opened Bits

  /** A 27-byte digest, as the number it spells in little-endian order. */
  type Digest = x: int | 0 <= x < DIGEST_BOUND

  const DIGEST_BOUND: nat := 0x1_000000_000000000000_000000000000_000000000000_000000000000

  /** The two-to-one hash. It has no defining value: nothing is assumed about it. */
  const HashInner: (Digest, Digest) -> Digest

  // ------------------------------------------------------------- digests as field elements

  function ToField(d: Digest): F { Red(d) }

  function FromField(f: F): Digest { f % DIGEST_BOUND }

  /** The field is large enough to hold a digest. */
  predicate DigestsFit() { DIGEST_BOUND <= P }

  lemma DigestRoundTrip(d: Digest)
    requires DigestsFit()
    ensures ToField(d) == d && FromField(ToField(d)) == d
  {
    DivisionUnique(d, 0, d);
  }

  function ToFields(ds: seq<Digest>): (r: seq<F>)
    ensures |r| == |ds|
  {
    if ds == [] then [] else [ToField(ds[0])] + ToFields(ds[1..])
  }

  // ------------------------------------------------------------------- computing roots

  /** One level up: a `true` bit puts the current node on the left. */
  function Step(h: Digest, bit: bool, sibling: Digest): Digest {
    if bit then HashInner(h, sibling) else HashInner(sibling, h)
  }

  function ComputeRoot(h: Digest, bits: seq<bool>, path: seq<Digest>): Digest
    requires |path| <= |bits|
    decreases |path|
  {
    if path == [] then h else ComputeRoot(Step(h, bits[0], path[0]), bits[1..], path[1..])
  }

  method ComputeRootLoop(h: Digest, bits: seq<bool>, path: seq<Digest>) returns (r: Digest)
    requires |path| <= |bits|
    ensures r == ComputeRoot(h, bits, path)
  {
    r := h;
    for i := 0 to |path|
      invariant ComputeRoot(r, bits[i..], path[i..]) == ComputeRoot(h, bits, path)
    {
      r := if bits[i] then HashInner(r, path[i]) else HashInner(path[i], r);
      assert path[i..][1..] == path[i + 1..] && bits[i..][1..] == bits[i + 1..];
    }
  }

  function HashInnerVar(l: F, r: F): F {
    ToField(HashInner(FromField(l), FromField(r)))
  }

  /** The circuit's version: a `true` bit puts the current node on the right. */
  function ComputeRootVar(node: F, index: seq<bool>, path: seq<F>): F
    requires |path| <= |index|
    decreases |path|
  {
    if path == [] then node
    else
      var lc := if index[0] then path[0] else node;
      var rc := if index[0] then node else path[0];
      ComputeRootVar(HashInnerVar(lc, rc), index[1..], path[1..])
  }

  method ComputeRootVarLoop(node: F, index: seq<bool>, path: seq<F>) returns (r: F)
    requires |path| <= |index|
    ensures r == ComputeRootVar(node, index, path)
  {
    r := node;
    for i := 0 to |path|
      invariant ComputeRootVar(r, index[i..], path[i..]) == ComputeRootVar(node, index, path)
    {
      var lc := if index[i] then path[i] else r;
      var rc := if index[i] then r else path[i];
      r := HashInnerVar(lc, rc);
      assert path[i..][1..] == path[i + 1..] && index[i..][1..] == index[i + 1..];
    }
  }

  function Flip(bits: seq<bool>): (r: seq<bool>)
    ensures |r| == |bits| && forall i | 0 <= i < |bits| :: r[i] == !bits[i]
  {
    seq(|bits|, i requires 0 <= i < |bits| => !bits[i])
  }

  /** Circuit and native roots agree once the bits are read the other way round. */
  lemma {:induction false} CircuitRootIsNativeRoot(h: Digest, bits: seq<bool>, path: seq<Digest>)
    requires DigestsFit() && |path| <= |bits|
    ensures ComputeRootVar(ToField(h), Flip(bits), ToFields(path)) == ToField(ComputeRoot(h, bits, path))
    decreases |path|
  {
    if path != [] {
      DigestRoundTrip(h);
      DigestRoundTrip(path[0]);
      CircuitRootIsNativeRoot(Step(h, bits[0], path[0]), bits[1..], path[1..]);
      assert Flip(bits)[1..] == Flip(bits[1..]);
      assert ToFields(path)[1..] == ToFields(path[1..]);
    }
  }

  /** Chaining the computation across two segments gives the unsplit root. */
  lemma {:induction false} RootOfSegments(h: Digest, bits: seq<bool>, bits': seq<bool>, path: seq<Digest>,
                                          path': seq<Digest>)
    requires |bits| == |path| && |path'| <= |bits'|
    ensures ComputeRoot(h, bits + bits', path + path') == ComputeRoot(ComputeRoot(h, bits, path), bits', path')
    decreases |path|
  {
    if path == [] {
      assert bits + bits' == bits' && path + path' == path';
    } else {
      assert (bits + bits')[1..] == bits[1..] + bits' && (path + path')[1..] == path[1..] + path';
      RootOfSegments(Step(h, bits[0], path[0]), bits[1..], bits', path[1..], path');
    }
  }

  /** Any number of segments. */
  function ChainRoots(h: Digest, bits: seq<seq<bool>>, paths: seq<seq<Digest>>): Digest
    requires SameShape(bits, paths)
  {
    if bits == [] then h
    else ComputeRoot(ChainRoots(h, bits[..|bits| - 1], paths[..|paths| - 1]), bits[|bits| - 1], paths[|paths| - 1])
  }

  lemma {:induction false} ChainRootsIsRoot(h: Digest, bits: seq<seq<bool>>, paths: seq<seq<Digest>>)
    requires SameShape(bits, paths)
    ensures |Flatten(bits)| == |Flatten(paths)|
    ensures ChainRoots(h, bits, paths) == ComputeRoot(h, Flatten(bits), Flatten(paths))
  {
    if bits != [] {
      var n := |bits| - 1;
      ChainRootsIsRoot(h, bits[..n], paths[..n]);
      RootOfSegments(h, Flatten(bits[..n]), bits[n], Flatten(paths[..n]), paths[n]);
    }
  }

  // ------------------------------------------------------------------------- binding

  type Pair = (Digest, Digest)

  function StepInput(h: Digest, bit: bool, sibling: Digest): Pair {
    if bit then (h, sibling) else (sibling, h)
  }

  predicate IsCollision(a: Pair, b: Pair) {
    a != b && HashInner(a.0, a.1) == HashInner(b.0, b.1)
  }

  /** The first level at which two different walks meet. */
  function PathCollision(h: Digest, path: seq<Digest>, h': Digest, path': seq<Digest>, bits: seq<bool>): (Pair, Pair)
    requires |path| == |path'| <= |bits|
    decreases |path|
  {
    if path == [] then ((h, h), (h', h'))
    else
      var (a, b) := (StepInput(h, bits[0], path[0]), StepInput(h', bits[0], path'[0]));
      if IsCollision(a, b) then (a, b)
      else PathCollision(HashInner(a.0, a.1), path[1..], HashInner(b.0, b.1), path'[1..], bits[1..])
  }

  /** Two different values, or two different paths, under one root at one index yield an
      explicit hash collision. */
  lemma {:induction false} PathBinding(h: Digest, path: seq<Digest>, h': Digest, path': seq<Digest>, bits: seq<bool>)
    requires |path| == |path'| <= |bits|
    requires ComputeRoot(h, bits, path) == ComputeRoot(h', bits, path')
    ensures (h == h' && path == path')
         || IsCollision(PathCollision(h, path, h', path', bits).0, PathCollision(h, path, h', path', bits).1)
    ensures h != h' || path != path' ==>
              var (x, y) := PathCollision(h, path, h', path', bits);
              x != y && HashInner(x.0, x.1) == HashInner(y.0, y.1)
    decreases |path|
  {
    if path != [] {
      var a, b := StepInput(h, bits[0], path[0]), StepInput(h', bits[0], path'[0]);
      if !IsCollision(a, b) {
        PathBinding(HashInner(a.0, a.1), path[1..], HashInner(b.0, b.1), path'[1..], bits[1..]);
      }
    }
  }
}
