/** The 32-bit counters that time-stamp RAM entries: bit vectors, incremented in place and
    compared bit by bit, natively and as circuit gadgets. */
module Uint32 {
  import opened Field
  import opened Bits

  type U32 = s: seq<bool> | |s| == 32 witness LeBits(0, 32)

  const U32_LIMIT: nat := 0x1_0000_0000

  lemma U32LimitIsPow2()
    ensures Pow2(32) == U32_LIMIT
  {
    assert Pow2(8) == 256;
    Pow2Add(8, 8);
    Pow2Add(16, 16);
  }

  /** Adding one by rippling a carry from the lowest bit. */
  function Increment(bits: seq<bool>): (r: seq<bool>)
    ensures |r| == |bits|
  {
    if bits == [] then [] else if bits[0] then [false] + Increment(bits[1..]) else [true] + bits[1..]
  }

  /** It is addition modulo the range. */
  lemma {:induction false} IncrementAddsOne(bits: seq<bool>)
    ensures FromBits(Increment(bits)) == if FromBits(bits) + 1 == Pow2(|bits|) then 0 else FromBits(bits) + 1
  {
    if bits != [] && bits[0] {
      IncrementAddsOne(bits[1..]);
      assert Increment(bits)[1..] == Increment(bits[1..]);
    }
  }

  /** Bit vectors of one length are equal exactly when their numbers are. */
  lemma ValueDetermines(a: seq<bool>, b: seq<bool>)
    requires |a| == |b| && FromBits(a) == FromBits(b)
    ensures a == b
  {
    BitsRoundTrip(a);
    BitsRoundTrip(b);
  }

  /** The native increment stops at the first bit that was clear. */
  method IncrementInPlace(bits: array<bool>)
    modifies bits
    ensures bits[..] == Increment(old(bits[..]))
  {
    ghost var was := bits[..];
    var carry := true;
    var index := 0;
    while index < bits.Length
      invariant 0 <= index <= bits.Length
      invariant carry ==> Rippled(was, bits[..], index)
      invariant !carry ==> bits[..] == Increment(was)
    {
      if carry {
        RippleStep(was, bits[..], index);
        carry := bits[index];
        bits[index] := !bits[index];
      } else {
        break;
      }
      index := index + 1;
    }
    if carry {
      RippledAll(was, bits[..]);
    }
  }

  /** The carry has passed `index` set bits, clearing them. */
  ghost predicate Rippled(was: seq<bool>, now: seq<bool>, index: nat) {
    && |was| == |now| && index <= |was|
    && (forall k | 0 <= k < index :: was[k] && !now[k])
    && (forall k | index <= k < |was| :: now[k] == was[k])
  }

  lemma {:induction false} IncrementAt(was: seq<bool>, now: seq<bool>, index: nat)
    requires Rippled(was, now, index)
    ensures index < |was| && !was[index] ==> Increment(was) == now[index := true]
    ensures index == |was| ==> Increment(was) == now
    decreases index
  {
    if index == 0 {
      if was != [] && !was[0] {
        assert now[0 := true] == [true] + was[1..];
      }
    } else {
      IncrementAt(was[1..], now[1..], index - 1);
      assert now == [false] + now[1..];
      if index < |was| && !was[index] {
        assert now[index := true] == [false] + now[1..][index - 1 := true];
      }
    }
  }

  lemma RippleStep(was: seq<bool>, now: seq<bool>, index: nat)
    requires Rippled(was, now, index) && index < |was|
    ensures was[index] ==> Rippled(was, now[index := false], index + 1)
    ensures !was[index] ==> now[index := true] == Increment(was)
    ensures now[index] == was[index]
  {
    IncrementAt(was, now, index);
  }

  lemma RippledAll(was: seq<bool>, now: seq<bool>)
    requires Rippled(was, now, |was|)
    ensures now == Increment(was)
  {
    IncrementAt(was, now, |was|);
  }

  /** The gadget's result for a first carry: the source makes that carry a witness bit the
      prover is free to choose. */
  function Carried(bits: seq<bool>, carry: bool): (r: seq<bool>)
    ensures |r| == |bits|
  {
    if bits == [] then [] else [bits[0] != carry] + Carried(bits[1..], bits[0] && carry)
  }

  /** A set carry increments, a clear one changes nothing. */
  lemma {:induction false} CarriedIs(bits: seq<bool>, carry: bool)
    ensures Carried(bits, carry) == if carry then Increment(bits) else bits
  {
    if bits != [] {
      CarriedIs(bits[1..], bits[0] && carry);
    }
  }

  /** The gadget has no early exit: it rewrites every bit under the carry. */
  method IncrementVarInPlace(bits: array<bool>, firstCarry: bool)
    modifies bits
    ensures bits[..] == if firstCarry then Increment(old(bits[..])) else old(bits[..])
  {
    hide Carried, Increment;
    ghost var was := bits[..];
    var carry := firstCarry;
    for index := 0 to bits.Length
      invariant bits[index..] == was[index..]
      invariant bits[..index] + Carried(was[index..], carry) == Carried(was, firstCarry)
    {
      CarryStep(bits[..index], was, index, carry);
      var prevBit := bits[index];
      bits[index] := if carry then !bits[index] else bits[index];
      carry := if prevBit then carry else false;
      assert bits[..index + 1] == bits[..index] + [bits[index]];
    }
    NothingCarried(bits[..bits.Length], carry);
    assert was[bits.Length..] == [] && bits[..bits.Length] == bits[..];
    CarriedIs(was, firstCarry);
  }

  lemma CarryStep(done: seq<bool>, was: seq<bool>, index: nat, carry: bool)
    requires index < |was|
    ensures done + Carried(was[index..], carry)
         == done + [was[index] != carry] + Carried(was[index + 1..], was[index] && carry)
  {
    assert was[index..][1..] == was[index + 1..];
  }

  lemma NothingCarried(done: seq<bool>, carry: bool)
    ensures done + Carried([], carry) == done
  {}

  /** No number is its own successor. */
  lemma IncrementMoves(bits: seq<bool>)
    requires bits != []
    ensures Increment(bits) != bits
  {
    assert Increment(bits)[0] != bits[0];
  }

  /** The comparison gadget: the highest differing bit decides. */
  method IsGreaterThan(a: seq<bool>, b: seq<bool>) returns (greater: bool)
    requires |a| == |b|
    ensures greater <==> FromBits(a) > FromBits(b)
  {
    greater := false;
    var foundDifference := false;
    var n := |a|;
    assert a[n..] == b[n..] == [];
    while n > 0
      invariant 0 <= n <= |a|
      invariant foundDifference <==> a[n..] != b[n..]
      invariant greater <==> FromBits(a[n..]) > FromBits(b[n..])
    {
      n := n - 1;
      TopBits(a, b, n);
      var aGreaterB := a[n] && !b[n];
      var difference := a[n] != b[n];
      var foundANewDifference := !foundDifference && difference;
      greater := if foundANewDifference then aGreaterB else greater;
      foundDifference := foundDifference || foundANewDifference;
    }
    assert a[0..] == a && b[0..] == b;
  }

  lemma TopBits(a: seq<bool>, b: seq<bool>, n: nat)
    requires |a| == |b| && n < |a|
    ensures a[n..] == b[n..] <==> a[n] == b[n] && a[n + 1..] == b[n + 1..]
    ensures a[n + 1..] == b[n + 1..] ==> (FromBits(a[n..]) > FromBits(b[n..]) <==> a[n] && !b[n])
    ensures a[n + 1..] != b[n + 1..] ==>
              (FromBits(a[n..]) > FromBits(b[n..]) <==> FromBits(a[n + 1..]) > FromBits(b[n + 1..]))
  {
    assert a[n..] == [a[n]] + a[n + 1..] && b[n..] == [b[n]] + b[n + 1..];
    if FromBits(a[n + 1..]) == FromBits(b[n + 1..]) {
      ValueDetermines(a[n + 1..], b[n + 1..]);
    }
  }

  /** The native number, or-ing in one power of two per set bit. */
  method Representation(bits: U32) returns (r: nat)
    ensures r == FromBits(bits) < U32_LIMIT
  {
    r := 0;
    assert bits[..0] == [];
    for index := 0 to 32
      invariant r == FromBits(bits[..index])
    {
      LowBits(bits, index);
      r := if bits[index] then r + Pow2(index) else r;
    }
    assert bits[..32] == bits;
    U32LimitIsPow2();
  }

  lemma {:induction false} LowBits(bits: seq<bool>, n: nat)
    requires n < |bits|
    ensures FromBits(bits[..n + 1]) == FromBits(bits[..n]) + if bits[n] then Pow2(n) else 0
    decreases n
  {
    if n > 0 {
      LowBits(bits[1..], n - 1);
      assert bits[..n + 1][1..] == bits[1..][..n] && bits[..n][1..] == bits[1..][..n - 1];
    }
  }
}
