/** The portal wires of the key directory's circuits and the strings that name them. */
module VkdNames {
  import opened Sequences
  import opened Bits
  import opened SparseTree
  import opened KeyDirectory

  datatype NodeAddress =
    | PathRoot(pathId: nat, updateIdx: nat)
    | LeafHash(leaf: UserLeaf)
    | NullLeaf
    | FinalRoot
    | InitialRoot
    | IntermediateRoot(indicator: nat, pathId: nat, updateIdx: nat)

  /** A wire carries a tree node, or one part of a user's position. */
  datatype Wire = Node(addr: NodeAddress) | IndexPart(indicator: nat, username: Username)

  function Digit(n: nat): (c: char)
    requires n < 10
    ensures '0' <= c <= '9'
  {
    '0' + n as char
  }

  function Decimal(n: nat): (r: string)
    ensures ' ' !in r
  {
    if n < 10 then [Digit(n)] else Decimal(n / 10) + [Digit(n % 10)]
  }

  function HexDigit(n: nat): (c: char)
    requires n < 16
  {
    if n < 10 then '0' + n as char else 'a' + (n - 10) as char
  }

  function Hex(bytes: seq<Byte>): string {
    if bytes == [] then [] else [HexDigit(bytes[0] / 16), HexDigit(bytes[0] % 16)] + Hex(bytes[1..])
  }

  function NodeName(a: NodeAddress): string {
    match a
    case PathRoot(i, j) => "path root " + (Decimal(i) + " " + Decimal(j))
    case LeafHash(leaf) => "leaf hash " + Hex(leaf)
    case NullLeaf => "null leaf"
    case FinalRoot => "final root"
    case InitialRoot => "initial root"
    case IntermediateRoot(i, p, u) => "intermediate root " + (Decimal(p) + " " + (Decimal(i) + " " + Decimal(u)))
  }

  /** The name used with the portal manager. */
  function WireName(w: Wire): string {
    match w
    case Node(a) => NodeName(a)
    case IndexPart(i, username) => "index " + (Decimal(i) + " " + Hex(username))
  }

  // -------------------------------------------------------------------- reading names

  function DigitValue(c: char): int {
    if '0' <= c <= '9' then c as int - '0' as int
    else if 'a' <= c <= 'f' then c as int - 'a' as int + 10
    else -1
  }

  function DecimalValue(s: string): int {
    if s == [] then 0 else 10 * DecimalValue(s[..|s| - 1]) + DigitValue(s[|s| - 1])
  }

  /** Numbers are written in decimal, without leading zeros. */
  lemma {:induction false} DecimalReadsBack(n: nat)
    ensures DecimalValue(Decimal(n)) == n
    ensures |Decimal(n)| > 0 && (Decimal(n)[0] == '0' ==> n == 0)
  {
    if n < 10 {
      assert Decimal(n)[..0] == [];
    } else {
      DecimalReadsBack(n / 10);
      assert Decimal(n)[..|Decimal(n)| - 1] == Decimal(n / 10);
    }
  }

  lemma HexDigitReadsBack(n: nat)
    requires n < 16
    ensures DigitValue(HexDigit(n)) == n
  {}

  /** Bytes are written in lower-case hexadecimal, high digit first. */
  lemma {:induction false} HexReadsBack(bytes: seq<Byte>, i: nat)
    requires i < |bytes|
    ensures |Hex(bytes)| == 2 * |bytes|
    ensures bytes[i] == 16 * DigitValue(Hex(bytes)[2 * i]) + DigitValue(Hex(bytes)[2 * i + 1])
    decreases |bytes|
  {
    hide DigitValue, HexDigit;
    HexDigitReadsBack(bytes[0] / 16);
    HexDigitReadsBack(bytes[0] % 16);
    if |bytes| > 1 {
      HexReadsBack(bytes[1..], if i > 0 then i - 1 else 0);
      var rest := Hex(bytes[1..]);
      assert i > 0 ==> Hex(bytes)[2 * i] == rest[2 * (i - 1)] && Hex(bytes)[2 * i + 1] == rest[2 * (i - 1) + 1];
    }
  }

  /** Path roots are named by path and update, intermediate roots by path, segment and update. */
  lemma NameSamples()
    ensures NodeName(PathRoot(1, 23)) == "path root 1 23"
    ensures NodeName(IntermediateRoot(0, 1, 23)) == "intermediate root 1 0 23"
    ensures NodeName(NullLeaf) == "null leaf" && NodeName(InitialRoot) == "initial root"
    ensures NodeName(FinalRoot) == "final root"
  {
    assert Decimal(23) == Decimal(2) + ['3'];
    assert Decimal(0) == "0" && Decimal(1) == "1" && Decimal(23) == "23";
  }

  // ------------------------------------------------------------------- injectivity

  lemma {:induction false} DecimalInjective(m: nat, n: nat)
    requires Decimal(m) == Decimal(n)
    ensures m == n
  {
    var a, b := Decimal(m), Decimal(n);
    assert a[|a| - 1] == b[|b| - 1];
    if m >= 10 && n >= 10 {
      assert a[..|a| - 1] == Decimal(m / 10) && b[..|b| - 1] == Decimal(n / 10);
      DecimalInjective(m / 10, n / 10);
    } else {
      DecimalNonEmpty(m / 10);
      DecimalNonEmpty(n / 10);
    }
  }

  lemma DecimalNonEmpty(n: nat)
    ensures |Decimal(n)| >= 1
  {}

  lemma {:induction false} HexInjective(a: seq<Byte>, b: seq<Byte>)
    requires Hex(a) == Hex(b)
    ensures a == b
  {
    if a != [] && b != [] {
      assert Hex(a)[0] == Hex(b)[0] && Hex(a)[1] == Hex(b)[1];
      assert Hex(a)[2..] == Hex(a[1..]) && Hex(b)[2..] == Hex(b[1..]);
      HexInjective(a[1..], b[1..]);
      assert a == [a[0]] + a[1..] && b == [b[0]] + b[1..];
    }
  }

  /** Text before the first space is determined. */
  lemma {:induction false} CutAtSpace(a: string, b: string, x: string, y: string)
    requires ' ' !in a && ' ' !in b && a + " " + x == b + " " + y
    ensures a == b && x == y
  {
    var s, t := a + " " + x, b + " " + y;
    assert s[|a|] == ' ' && t[|b|] == ' ';
    assert forall k | 0 <= k < |a| :: s[k] == a[k] != ' ';
    assert forall k | 0 <= k < |b| :: t[k] == b[k] != ' ';
    assert s[..|a|] == a && t[..|b|] == b && s[|a| + 1..] == x && t[|b| + 1..] == y;
  }

  lemma SamePrefix(p: string, x: string, y: string)
    requires p + x == p + y
    ensures x == y
  {
    assert (p + x)[|p|..] == x && (p + y)[|p|..] == y;
  }

  /** The first and third letters tell the kinds of wire apart. */
  function Kind(w: Wire): (char, char) {
    match w
    case Node(PathRoot(_, _)) => ('p', 't')
    case Node(LeafHash(_)) => ('l', 'a')
    case Node(NullLeaf) => ('n', 'l')
    case Node(FinalRoot) => ('f', 'n')
    case Node(InitialRoot) => ('i', 'i')
    case Node(IntermediateRoot(_, _, _)) => ('i', 't')
    case IndexPart(_, _) => ('i', 'd')
  }

  lemma NameShowsKind(w: Wire)
    ensures |WireName(w)| >= 3 && (WireName(w)[0], WireName(w)[2]) == Kind(w)
  {
    hide Decimal, Hex;
  }

  /** Distinct wires have distinct names. */
  lemma WireNamesDistinct(v: Wire, w: Wire)
    requires WireName(v) == WireName(w)
    ensures v == w
  {
    hide Decimal, Hex;
    NameShowsKind(v);
    NameShowsKind(w);
    match v
    case Node(PathRoot(i, j)) => TwoNumbers("path root ", i, j, w.addr.pathId, w.addr.updateIdx);
    case Node(LeafHash(leaf)) => {
      SamePrefix("leaf hash ", Hex(leaf), Hex(w.addr.leaf));
      HexInjective(leaf, w.addr.leaf);
    }
    case Node(IntermediateRoot(i, p, u)) => ThreeNumbers(i, p, u, w.addr.indicator, w.addr.pathId, w.addr.updateIdx);
    case IndexPart(i, username) => NumberAndHex(i, username, w.indicator, w.username);
    case _ =>
  }

  lemma TwoNumbers(prefix: string, i: nat, j: nat, i': nat, j': nat)
    requires prefix + (Decimal(i) + " " + Decimal(j)) == prefix + (Decimal(i') + " " + Decimal(j'))
    ensures i == i' && j == j'
  {
    SamePrefix(prefix, Decimal(i) + " " + Decimal(j), Decimal(i') + " " + Decimal(j'));
    CutAtSpace(Decimal(i), Decimal(i'), Decimal(j), Decimal(j'));
    DecimalInjective(i, i');
    DecimalInjective(j, j');
  }

  lemma ThreeNumbers(i: nat, p: nat, u: nat, i': nat, p': nat, u': nat)
    requires NodeName(IntermediateRoot(i, p, u)) == NodeName(IntermediateRoot(i', p', u'))
    ensures i == i' && p == p' && u == u'
  {
    hide Decimal;
    var x, y := Decimal(i) + " " + Decimal(u), Decimal(i') + " " + Decimal(u');
    SamePrefix("intermediate root ", Decimal(p) + " " + x, Decimal(p') + " " + y);
    CutAtSpace(Decimal(p), Decimal(p'), x, y);
    DecimalInjective(p, p');
    TwoNumbers("", i, u, i', u');
  }

  lemma NumberAndHex(i: nat, u: Username, i': nat, u': Username)
    requires WireName(IndexPart(i, u)) == WireName(IndexPart(i', u'))
    ensures i == i' && u == u'
  {
    hide Decimal, Hex;
    SamePrefix("index ", Decimal(i) + " " + Hex(u), Decimal(i') + " " + Hex(u'));
    CutAtSpace(Decimal(i), Decimal(i'), Hex(u), Hex(u'));
    DecimalInjective(i, i');
    HexInjective(u, u');
  }
}
