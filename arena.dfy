/** The computation graph of micrograd's `Value` objects, held in an arena.

    Every `Value` the program creates is one `Node` of a sequence; a node refers
    to its operands by their index in that sequence, and an operand is always
    created before the node that uses it, so every operand index is smaller
    than the index of the node that records it. */
module Arena {

  /** The parts of Python's `math` module (and of `**` on floats) that the
      engine calls; they are taken as given total functions over the reals. */
  datatype Libm = Libm(
    exp: real -> real,
    tanh: real -> real,
    sigmoid: real -> real,
    softplus: real -> real,
    pow: (real, real) -> real)

  datatype BinaryKind = Plus | Times

  /** `Power(p)` is `x ** p` with a plain number `p`; the others are the
      activation methods of `Value`. */
  datatype UnaryKind = Power(p: real) | Exp | Tanh | Sigmoid | Softplus | Relu

  /** How a node was produced: a leaf (an input or a wrapped literal), or an
      operation over the indices of its operands. */
  datatype Op =
    | Leaf
    | Binary(bkind: BinaryKind, a: nat, b: nat)
    | Unary(ukind: UnaryKind, a: nat)

  /** One `Value`: its forward `data` and the operation that produced it.
      Its `grad` lives outside, in the engine's gradient array. */
  datatype Node = Node(data: real, op: Op)

  /** The set `_prev`: the operands, with duplicates collapsed. */
  function Children(op: Op): set<nat>
  {
    match op
    case Leaf => {}
    case Binary(_, a, b) => {a, b}
    case Unary(_, a) => {a}
  }

  /** Every operand index of `op` is below `bound`. */
  predicate OperandsBelow(op: Op, bound: nat)
  {
    match op
    case Leaf => true
    case Binary(_, a, b) => a < bound && b < bound
    case Unary(_, a) => a < bound
  }

  /** Every operand was created before the node that records it. */
  predicate Acyclic(nodes: seq<Node>)
  {
    forall u :: 0 <= u < |nodes| ==> OperandsBelow(nodes[u].op, u)
  }

  /** `x ** n` for a natural exponent. */
  function NatPow(x: real, n: nat): (r: real)
    ensures x != 0.0 ==> r != 0.0
    ensures n == 0 ==> r == 1.0
    ensures x == 0.0 && n > 0 ==> r == 0.0
  {
    if n == 0 then 1.0 else x * NatPow(x, n - 1)
  }

  predicate IsInteger(p: real)
  {
    p == p.Floor as real
  }

  /** Python's `x ** p` on a float `x` and a plain number `p`: exact for integer
      exponents (a negative one is the reciprocal of the positive power); a
      zero base with a negative exponent, which Python rejects, and every
      fractional exponent are left to `lib.pow`. */
  function PowValue(x: real, p: real, lib: Libm): real
  {
    if IsInteger(p) && p >= 0.0 then NatPow(x, p.Floor)
    else if IsInteger(p) && x != 0.0 then 1.0 / NatPow(x, -p.Floor)
    else lib.pow(x, p)
  }

  /** What Python's `**` gives for the exponents the engine relies on: `x ** 0`
      is 1, `x ** 1` is `x`, `x ** -1` is the reciprocal (the `/` operators),
      and an integer power of a nonzero base is nonzero. */
  lemma PowValueExponents(x: real, p: real, lib: Libm)
    ensures p == 0.0 ==> PowValue(x, p, lib) == 1.0
    ensures p == 1.0 ==> PowValue(x, p, lib) == x
    ensures p == -1.0 && x != 0.0 ==> PowValue(x, p, lib) == 1.0 / x
    ensures IsInteger(p) && x != 0.0 ==> PowValue(x, p, lib) != 0.0
  {
  }

  /** `_add` and `_mul`. */
  function BinaryValue(k: BinaryKind, x: real, y: real): real
  {
    match k
    case Plus => x + y
    case Times => x * y
  }

  /** `_exp`, `_tanh`, `_sigmoid`, `_softplus` and `_relu` (`max(0, x)`); the
      power case is `PowValue`. */
  function UnaryValue(k: UnaryKind, x: real, lib: Libm): (r: real)
    ensures k.Relu? ==> r >= 0.0 && r >= x && (r == x || r == 0.0)
  {
    match k
    case Power(p) => PowValue(x, p, lib)
    case Exp => lib.exp(x)
    case Tanh => lib.tanh(x)
    case Sigmoid => lib.sigmoid(x)
    case Softplus => lib.softplus(x)
    case Relu => if x > 0.0 then x else 0.0
  }

  /** The forward value a node with operation `op` holds, given its operands. */
  function Forward(nodes: seq<Node>, op: Op, lib: Libm): real
    requires OperandsBelow(op, |nodes|)
  {
    match op
    case Leaf => 0.0
    case Binary(k, a, b) => BinaryValue(k, nodes[a].data, nodes[b].data)
    case Unary(k, a) => UnaryValue(k, nodes[a].data, lib)
  }

  /** An arena the engine can build: acyclic, and every derived node holds the
      forward value of its operation. */
  ghost predicate WellFormed(nodes: seq<Node>, lib: Libm)
  {
    Acyclic(nodes) &&
    forall u :: 0 <= u < |nodes| && !nodes[u].op.Leaf? ==> nodes[u].data == Forward(nodes, nodes[u].op, lib)
  }

  /** The nodes reachable from `v` through `_prev`, `v` included. */
  function Reach(nodes: seq<Node>, v: nat): (r: set<nat>)
    requires Acyclic(nodes) && v < |nodes|
    ensures v in r
    ensures forall x :: x in r ==> x <= v
    decreases v
  {
    {v} + match nodes[v].op
      case Leaf => {}
      case Binary(_, a, b) => Reach(nodes, a) + Reach(nodes, b)
      case Unary(_, a) => Reach(nodes, a)
  }

  /** The operands of a reachable node are reachable. */
  lemma {:induction false} ReachClosed(nodes: seq<Node>, root: nat, u: nat)
    requires Acyclic(nodes) && root < |nodes|
    requires u in Reach(nodes, root)
    ensures forall c :: c in Children(nodes[u].op) ==> c in Reach(nodes, root)
    decreases root
  {
    if u != root {
      match nodes[root].op
      case Leaf =>
      case Binary(_, a, b) =>
        if u in Reach(nodes, a) { ReachClosed(nodes, a, u); } else { ReachClosed(nodes, b, u); }
      case Unary(_, a) => ReachClosed(nodes, a, u);
    }
  }

  /** Reachability is transitive: what a reachable node reaches, the root reaches. */
  lemma {:induction false} ReachTransitive(nodes: seq<Node>, root: nat, u: nat)
    requires Acyclic(nodes) && root < |nodes|
    requires u in Reach(nodes, root)
    ensures Reach(nodes, u) <= Reach(nodes, root)
    decreases u
  {
    ReachClosed(nodes, root, u);
    match nodes[u].op
    case Leaf =>
    case Binary(_, a, b) =>
      ReachTransitive(nodes, root, a);
      ReachTransitive(nodes, root, b);
    case Unary(_, a) => ReachTransitive(nodes, root, a);
  }
}
