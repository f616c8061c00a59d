/** Facts about sequences shared by the whole development: flattening, chunking and
    sorting by a total preorder. */
module Sequences {

  datatype Option<+T> = None | Some(value: T)

  function Map<A, B>(f: A -> B, s: seq<A>): (r: seq<B>)
    ensures |r| == |s| && forall i | 0 <= i < |s| :: r[i] == f(s[i])
  {
    if s == [] then [] else Map(f, s[..|s| - 1]) + [f(s[|s| - 1])]
  }

  function Reverse<T>(s: seq<T>): (r: seq<T>)
    ensures |r| == |s| && forall i | 0 <= i < |s| :: r[i] == s[|s| - 1 - i]
  {
    if s == [] then [] else [s[|s| - 1]] + Reverse(s[..|s| - 1])
  }

  function Flatten<T>(ss: seq<seq<T>>): seq<T> {
    if ss == [] then [] else Flatten(ss[..|ss| - 1]) + ss[|ss| - 1]
  }

  lemma {:induction false} FlattenPrefix<T>(ss: seq<seq<T>>, i: nat)
    requires i <= |ss|
    ensures Flatten(ss[..i]) <= Flatten(ss)
    ensures i < |ss| ==> Flatten(ss[..i + 1]) == Flatten(ss[..i]) + ss[i]
  {
    if i < |ss| {
      assert ss[..i + 1][..i] == ss[..i];
      if i + 1 < |ss| {
        var front := ss[..|ss| - 1];
        assert front[..i + 1] == ss[..i + 1] && front[..i] == ss[..i];
        FlattenPrefix(front, i);
      } else {
        assert ss[..i + 1] == ss;
      }
    } else {
      assert ss[..i] == ss;
    }
  }

  lemma FlattenSnoc<T>(ss: seq<seq<T>>, s: seq<T>)
    ensures Flatten(ss + [s]) == Flatten(ss) + s
  {
    assert (ss + [s])[..|ss|] == ss;
  }

  lemma FlattenTwo<T>(a: seq<T>, b: seq<T>)
    ensures Flatten([a, b]) == a + b
  {
    FlattenSnoc([], a);
    FlattenSnoc([a], b);
    assert [] + [a] == [a] && [a] + [b] == [a, b];
  }

  lemma {:induction false} FlattenAppend<T>(a: seq<seq<T>>, b: seq<seq<T>>)
    ensures Flatten(a + b) == Flatten(a) + Flatten(b)
  {
    if b == [] {
      assert a + b == a;
    } else {
      var n := |b| - 1;
      assert (a + b)[..|a + b| - 1] == a + b[..n];
      FlattenAppend(a, b[..n]);
    }
  }

  /** Where the `i`-th part sits inside the flattened whole. */
  lemma FlattenSlice<T>(ss: seq<seq<T>>, i: nat)
    requires i < |ss|
    ensures var off := |Flatten(ss[..i])|;
            off + |ss[i]| <= |Flatten(ss)| && Flatten(ss)[off..off + |ss[i]|] == ss[i]
  {
    FlattenPrefix(ss, i);
    FlattenPrefix(ss, i + 1);
    var off := |Flatten(ss[..i])|;
    var upto := Flatten(ss[..i + 1]);
    assert upto[off..] == ss[i];
    assert Flatten(ss)[..|upto|] == upto;
    assert Flatten(ss)[off..off + |ss[i]|] == upto[off..];
  }

  predicate SameShape<A, B>(xs: seq<seq<A>>, ys: seq<seq<B>>) {
    |xs| == |ys| && forall i | 0 <= i < |xs| :: |xs[i]| == |ys[i]|
  }

  lemma {:induction false} SameShapeLength<A, B>(xs: seq<seq<A>>, ys: seq<seq<B>>)
    requires SameShape(xs, ys)
    ensures |Flatten(xs)| == |Flatten(ys)|
  {
    if xs != [] {
      SameShapeLength(xs[..|xs| - 1], ys[..|ys| - 1]);
    }
  }

  // -------------------------------------------------------------------- sorting

  predicate SortedBy<T>(s: seq<T>, le: (T, T) -> bool) {
    forall i, j | 0 <= i < j < |s| :: le(s[i], s[j])
  }

  ghost predicate TotalPreorder<T(!new)>(le: (T, T) -> bool) {
    && (forall a, b :: le(a, b) || le(b, a))
    && (forall a, b, c :: le(a, b) && le(b, c) ==> le(a, c))
  }

  /** Stable insertion: `x` goes after every element that is not above it. */
  function Insert<T>(s: seq<T>, x: T, le: (T, T) -> bool): (r: seq<T>)
    ensures multiset(r) == multiset(s) + multiset{x}
  {
    if s == [] then [x]
    else if le(s[|s| - 1], x) then s + [x]
    else
      assert s == s[..|s| - 1] + [s[|s| - 1]];
      Insert(s[..|s| - 1], x, le) + [s[|s| - 1]]
  }

  /** The stable sort of `s`. */
  function Sort<T>(s: seq<T>, le: (T, T) -> bool): (r: seq<T>)
    ensures multiset(r) == multiset(s)
  {
    if s == [] then []
    else
      assert s == s[..|s| - 1] + [s[|s| - 1]];
      Insert(Sort(s[..|s| - 1], le), s[|s| - 1], le)
  }

  lemma {:induction false} InsertSorted<T(!new)>(s: seq<T>, x: T, le: (T, T) -> bool)
    requires TotalPreorder(le) && SortedBy(s, le)
    ensures SortedBy(Insert(s, x, le), le)
  {
    if s != [] {
      var n := |s| - 1;
      if le(s[n], x) {
        assert forall i | 0 <= i < n :: le(s[i], x) by {
          assert forall i | 0 <= i < n :: le(s[i], s[n]);
        }
      } else {
        InsertSorted(s[..n], x, le);
        var r := Insert(s[..n], x, le);
        forall i | 0 <= i < |r| ensures le(r[i], s[n]) {
          assert r[i] in multiset(s[..n]) + multiset{x};
          if r[i] != x {
            assert r[i] in s[..n];
          }
        }
      }
    }
  }

  lemma {:induction false} SortSorted<T(!new)>(s: seq<T>, le: (T, T) -> bool)
    requires TotalPreorder(le)
    ensures SortedBy(Sort(s, le), le)
  {
    if s != [] {
      SortSorted(s[..|s| - 1], le);
      InsertSorted(Sort(s[..|s| - 1], le), s[|s| - 1], le);
    }
  }

  /** The elements that the order does not tell apart from `x`, in order. */
  function Ties<T>(s: seq<T>, x: T, le: (T, T) -> bool): seq<T> {
    if s == [] then []
    else
      var n := |s| - 1;
      Ties(s[..n], x, le) + if le(x, s[n]) && le(s[n], x) then [s[n]] else []
  }

  lemma {:induction false} InsertStable<T(!new)>(s: seq<T>, y: T, x: T, le: (T, T) -> bool)
    requires TotalPreorder(le)
    ensures Ties(Insert(s, y, le), x, le) == Ties(s, x, le) + if le(x, y) && le(y, x) then [y] else []
  {
    if s == [] {
      assert [y][..0] == [];
    } else {
      var n := |s| - 1;
      if le(s[n], y) {
        assert (s + [y])[..|s|] == s;
      } else {
        InsertStable(s[..n], y, x, le);
        var rest := Insert(s[..n], y, le);
        assert (rest + [s[n]])[..|rest|] == rest;
      }
    }
  }

  /** Sorting keeps the order of elements that tie. */
  lemma {:induction false} SortStable<T(!new)>(s: seq<T>, x: T, le: (T, T) -> bool)
    requires TotalPreorder(le)
    ensures Ties(Sort(s, le), x, le) == Ties(s, x, le)
  {
    if s != [] {
      SortStable(s[..|s| - 1], x, le);
      InsertStable(Sort(s[..|s| - 1], le), s[|s| - 1], x, le);
    }
  }

  lemma MultisetMember<T>(a: seq<T>, b: seq<T>, x: T)
    requires multiset(a) == multiset(b)
    ensures x in a <==> x in b
  {
    assert x in a <==> x in multiset(a);
    assert x in b <==> x in multiset(b);
  }

  lemma MultisetLength<T>(a: seq<T>, b: seq<T>)
    requires multiset(a) == multiset(b)
    ensures |a| == |b|
  {
    assert |multiset(a)| == |a| && |multiset(b)| == |b|;
  }

  /** Removing one occurrence from each of two rearrangements. */
  lemma MultisetRemoveAt<T>(s: seq<T>, j: nat)
    requires j < |s|
    ensures multiset(s[..j] + s[j + 1..]) == multiset(s) - multiset{s[j]}
  {
    assert s == s[..j] + [s[j]] + s[j + 1..];
  }

  /** Undoing the removal on both sides. */
  lemma MultisetRestoreAt<T>(a: seq<T>, b: seq<T>, j: nat)
    requires a != [] && j < |b| && b[j] == a[|a| - 1]
    requires multiset(a[..|a| - 1]) == multiset(b[..j] + b[j + 1..])
    ensures multiset(a) == multiset(b)
  {
    assert a == a[..|a| - 1] + [a[|a| - 1]];
    MultisetRemoveAt(b, j);
  }

  /** Any sequence of the right length can be cut to a given shape. */
  lemma {:induction false} CutLike<T>(shape: seq<seq<T>>, flat: seq<T>) returns (cut: seq<seq<T>>)
    requires |flat| == |Flatten(shape)|
    ensures SameShape(cut, shape) && Flatten(cut) == flat
  {
    cut := [];
    if shape != [] {
      var n := |shape| - 1;
      var at := |Flatten(shape[..n])|;
      var front := CutLike(shape[..n], flat[..at]);
      cut := front + [flat[at..]];
      FlattenSnoc(front, flat[at..]);
      forall k | 0 <= k < |cut| ensures |cut[k]| == |shape[k]| {
        assert k < n ==> |front[k]| == |shape[..n][k]|;
      }
    }
  }
}
