/** Portal trace entries and the running products that accumulate them. */
module Transcript {
  import opened Field
  import opened Sequences

  /** A ROM trace entry as the coordinator records it; `addr` is a 64-bit counter. */
  datatype RomEntry = RomEntry(addr: nat, val: F)

  /** The same entry as witnessed in a circuit: both parts are field elements. */
  datatype RomEntryVar = RomEntryVar(addr: F, val: F)

  const RomPadding := RomEntry(0, 0)

  function ToVar(e: RomEntry): RomEntryVar {
    RomEntryVar(Red(e.addr), e.val)
  }

  function ToVars(es: seq<RomEntry>): seq<RomEntryVar> {
    seq(|es|, i requires 0 <= i < |es| => ToVar(es[i]))
  }

  /** The padding test looks at the address alone. */
  predicate RomIsPadding(e: RomEntryVar) { e.addr == 0 }

  /** An entry packed into one field element under the challenge `entryChal`. */
  function RomEncode(entryChal: F, e: RomEntryVar): F {
    Add(e.val, Mul(entryChal, e.addr))
  }

  /** The factor `X - entry` at `X == trChal`. */
  function RomFactor(entryChal: F, trChal: F): RomEntryVar -> F {
    (e: RomEntryVar) => Sub(trChal, RomEncode(entryChal, e))
  }

  /** The running evaluation after the entries `es`. */
  function RunEval<E>(init: F, es: seq<E>, factor: E -> F): F {
    if es == [] then init else Mul(RunEval(init, es[..|es| - 1], factor), factor(es[|es| - 1]))
  }

  /** The pair of running products; `factor` has the challenges built in. */
  class RunningEvaluation<E> {
    var timeOrderedEval: F
    var addrOrderedEval: F
    const factor: E -> F

    constructor (timeEval: F, addrEval: F, factor: E -> F)
      ensures timeOrderedEval == timeEval && addrOrderedEval == addrEval && this.factor == factor
    {
      timeOrderedEval, addrOrderedEval := timeEval, addrEval;
      this.factor := factor;
    }

    method UpdateTimeOrdered(e: E)
      modifies this`timeOrderedEval
      ensures timeOrderedEval == Mul(old(timeOrderedEval), factor(e))
    {
      timeOrderedEval := Mul(timeOrderedEval, factor(e));
    }

    method UpdateAddrOrdered(e: E)
      modifies this`addrOrderedEval
      ensures addrOrderedEval == Mul(old(addrOrderedEval), factor(e))
    {
      addrOrderedEval := Mul(addrOrderedEval, factor(e));
    }
  }

  // ------------------------------------------------------------ running products

  lemma {:induction false} RunEvalAppend<E>(init: F, a: seq<E>, b: seq<E>, factor: E -> F)
    ensures RunEval(init, a + b, factor) == RunEval(RunEval(init, a, factor), b, factor)
  {
    if b == [] {
      assert a + b == a;
    } else {
      var n := |b| - 1;
      assert (a + b)[..|a + b| - 1] == a + b[..n];
      RunEvalAppend(init, a, b[..n], factor);
    }
  }

  lemma RunEvalFlattenStep<E>(init: F, ss: seq<seq<E>>, i: nat, factor: E -> F)
    requires i < |ss|
    ensures RunEval(init, Flatten(ss[..i + 1]), factor)
         == RunEval(RunEval(init, Flatten(ss[..i]), factor), ss[i], factor)
  {
    FlattenPrefix(ss, i);
    RunEvalAppend(init, Flatten(ss[..i]), ss[i], factor);
  }

  /** Any one factor of the product may be moved to the end. */
  lemma {:induction false} RunEvalMoveLast<E>(init: F, s: seq<E>, j: nat, factor: E -> F)
    requires j < |s|
    ensures RunEval(init, s, factor)
         == Mul(RunEval(init, s[..j] + s[j + 1..], factor), factor(s[j]))
  {
    var n := |s| - 1;
    var rest := s[..j] + s[j + 1..];
    if j == n {
      assert rest == s[..n];
    } else {
      RunEvalMoveLast(init, s[..n], j, factor);
      assert rest[..|rest| - 1] == s[..n][..j] + s[..n][j + 1..];
      assert rest[|rest| - 1] == s[n];
      MulSwap(RunEval(init, rest[..|rest| - 1], factor), factor(s[j]), factor(s[n]));
    }
  }

  /** The product does not depend on the order of the entries. */
  lemma {:induction false} RunEvalPermutation<E>(init: F, a: seq<E>, b: seq<E>, factor: E -> F)
    requires multiset(a) == multiset(b)
    ensures RunEval(init, a, factor) == RunEval(init, b, factor)
  {
    MultisetLength(a, b);
    if a != [] {
      var n := |a| - 1;
      MultisetMember(a, b, a[n]);
      var j :| 0 <= j < |b| && b[j] == a[n];
      var b' := b[..j] + b[j + 1..];
      MultisetRemoveAt(b, j);
      assert a == a[..n] + [a[n]];
      assert multiset(a[..n]) == multiset(b');
      RunEvalPermutation(init, a[..n], b', factor);
      RunEvalMoveLast(init, b, j, factor);
    }
  }

  /** A zero factor annihilates the product. */
  lemma {:induction false} RunEvalZero<E>(init: F, s: seq<E>, factor: E -> F)
    requires RunEval(init, s, factor) == 0 && init != 0
    ensures exists i :: 0 <= i < |s| && factor(s[i]) == 0
  {
    if s != [] {
      var n := |s| - 1;
      NoZeroDivisors(RunEval(init, s[..n], factor), factor(s[n]));
      if factor(s[n]) != 0 {
        RunEvalZero(init, s[..n], factor);
      }
    }
  }
}
