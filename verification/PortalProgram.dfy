/** What a subcircuit does with its portal manager. The wire names and the order of the
    accesses are fixed by the circuit; the values written and the circuit's own checks
    depend on the values it has read so far. */
module PortalProgram {
  import opened Field

  datatype Op<N> =
    | Get(name: N)
    | Set(name: N, value: seq<F> -> F)
    | Enforce(check: seq<F> -> bool)

  /** Portal wires are named by strings. */
  type PortalOp = Op<string>

  /** How many trace entries the program consumes. */
  function PortalOps<N>(ops: seq<Op<N>>): nat {
    if ops == [] then 0 else (if ops[0].Enforce? then 0 else 1) + PortalOps(ops[1..])
  }

  /** Every written value is the one recorded in `vals`, reading `vals` as the answers
      the portal gave, one per access. */
  predicate SetsAgree<N>(ops: seq<Op<N>>, seen: seq<F>, vals: seq<F>)
    requires |vals| == PortalOps(ops)
  {
    ops == [] ||
    match ops[0]
    case Get(_) => SetsAgree(ops[1..], seen + [vals[0]], vals[1..])
    case Set(_, value) => value(seen) == vals[0] && SetsAgree(ops[1..], seen, vals[1..])
    case Enforce(_) => SetsAgree(ops[1..], seen, vals)
  }

  /** The circuit's own checks all pass on the answers `vals`. */
  predicate EnforcesHold<N>(ops: seq<Op<N>>, seen: seq<F>, vals: seq<F>)
    requires |vals| == PortalOps(ops)
  {
    ops == [] ||
    match ops[0]
    case Get(_) => EnforcesHold(ops[1..], seen + [vals[0]], vals[1..])
    case Set(_, _) => EnforcesHold(ops[1..], seen, vals[1..])
    case Enforce(check) => check(seen) && EnforcesHold(ops[1..], seen, vals)
  }

  /** What the program has read once the portal has answered `vals`. */
  function ReadsAfter<N>(ops: seq<Op<N>>, seen: seq<F>, vals: seq<F>): seq<F>
    requires |vals| == PortalOps(ops)
  {
    if ops == [] then seen
    else match ops[0]
      case Get(_) => ReadsAfter(ops[1..], seen + [vals[0]], vals[1..])
      case Set(_, _) => ReadsAfter(ops[1..], seen, vals[1..])
      case Enforce(_) => ReadsAfter(ops[1..], seen, vals)
  }

  /** The wire names in access order. */
  function Names<N>(ops: seq<Op<N>>): (r: seq<N>)
    ensures |r| == PortalOps(ops)
  {
    if ops == [] then []
    else match ops[0]
      case Get(name) => [name] + Names(ops[1..])
      case Set(name, _) => [name] + Names(ops[1..])
      case Enforce(_) => Names(ops[1..])
  }

  /** Which accesses are reads. */
  function AccessReads<N>(ops: seq<Op<N>>): (r: seq<bool>)
    ensures |r| == PortalOps(ops)
  {
    if ops == [] then []
    else match ops[0]
      case Get(_) => [true] + AccessReads(ops[1..])
      case Set(_, _) => [false] + AccessReads(ops[1..])
      case Enforce(_) => AccessReads(ops[1..])
  }
}
