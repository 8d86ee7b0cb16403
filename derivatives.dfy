/** The propagation rule each operation attaches to its result (`_backward`),
    in both of micrograd's strategies: the closed-form local derivatives and
    the forward-difference quotient computed by `Value._autograd`. */
module Derivatives {
  import opened Arena

  type NonZero = h: real | h != 0.0 witness 1.0

  /** How a `_backward` rule obtains its local derivatives. `Analytic` is
      `Value.do_autograd == False`; `FiniteDifference(h)` is
      `Value.do_autograd == True` with step `h` (`Value.h`);
      `PositionalDifference(h)` is the forward difference that perturbs only
      the argument position being differentiated. */
  datatype Mode = Analytic | FiniteDifference(h: NonZero) | PositionalDifference(h: NonZero)

  /** An argument handed to an operation's forward helper (`_mul`, `_pow`, ...):
      a node of the arena, a detached leaf built by `_autograd`, or a plain
      number (the exponent of `**`). */
  datatype Arg = Ref(index: nat) | Fresh(value: real) | Number(value: real)

  /** The argument tuple each rule passes to `_autograd`. */
  function Args(op: Op): seq<Arg>
  {
    match op
    case Leaf => []
    case Binary(_, a, b) => [Ref(a), Ref(b)]
    case Unary(Power(p), a) => [Ref(a), Number(p)]
    case Unary(_, a) => [Ref(a)]
  }

  predicate ArgsIn(args: seq<Arg>, n: nat)
  {
    forall k :: 0 <= k < |args| && args[k].Ref? ==> args[k].index < n
  }

  function ArgValue(arg: Arg, nodes: seq<Node>): real
    requires arg.Ref? ==> arg.index < |nodes|
  {
    match arg
    case Ref(i) => nodes[i].data
    case Fresh(x) => x
    case Number(x) => x
  }

  function Values(args: seq<Arg>, nodes: seq<Node>): (vs: seq<real>)
    requires ArgsIn(args, |nodes|)
    ensures |vs| == |args|
  {
    seq(|args|, k requires 0 <= k < |args| => ArgValue(args[k], nodes))
  }

  /** `func(*args)`: the forward helper of operation `op` applied to argument values. */
  function Apply(op: Op, vals: seq<real>, lib: Libm): real
    requires !op.Leaf? && |vals| == |Args(op)|
  {
    match op
    case Binary(k, _, _) => BinaryValue(k, vals[0], vals[1])
    case Unary(Power(_), _) => PowValue(vals[0], vals[1], lib)
    case Unary(k, _) => UnaryValue(k, vals[0], lib)
  }

  /** The `h_args` of `_autograd`: every argument that is the node `wrt` itself
      becomes a fresh leaf holding `wrt`'s data plus `h`; the rest are kept. */
  function Perturb(args: seq<Arg>, wrt: nat, nodes: seq<Node>, h: real): seq<Arg>
    requires wrt < |nodes|
  {
    seq(|args|, k requires 0 <= k < |args| =>
      if args[k] == Ref(wrt) then Fresh(nodes[wrt].data + h) else args[k])
  }

  /** The argument tuple with only position `pos` perturbed. */
  function PerturbAt(args: seq<Arg>, pos: nat, nodes: seq<Node>, h: real): seq<Arg>
    requires ArgsIn(args, |nodes|)
  {
    seq(|args|, k requires 0 <= k < |args| =>
      if k == pos then Fresh(ArgValue(args[k], nodes) + h) else args[k])
  }

  /** `_autograd(func, args, wrt)`: `(func(*h_args) - func(*args)) * h ** -1`. */
  function FiniteQuotient(nodes: seq<Node>, op: Op, wrt: nat, h: NonZero, lib: Libm): real
    requires !op.Leaf? && OperandsBelow(op, |nodes|) && wrt < |nodes|
  {
    var args := Args(op);
    (Apply(op, Values(Perturb(args, wrt, nodes, h), nodes), lib) - Apply(op, Values(args, nodes), lib)) * (1.0 / h)
  }

  /** The forward difference that perturbs argument position `pos` only. */
  function PositionalQuotient(nodes: seq<Node>, op: Op, pos: nat, h: NonZero, lib: Libm): real
    requires !op.Leaf? && OperandsBelow(op, |nodes|)
  {
    var args := Args(op);
    (Apply(op, Values(PerturbAt(args, pos, nodes, h), nodes), lib) - Apply(op, Values(args, nodes), lib)) * (1.0 / h)
  }

  /** The closed-form local derivative of a unary operation at operand value
      `x`, whose result holds `out`. */
  function AnalyticUnary(k: UnaryKind, x: real, out: real, lib: Libm): real
  {
    match k
    case Power(p) => p * PowValue(x, p - 1.0, lib)
    case Exp => out
    case Tanh => 1.0 - out * out
    case Sigmoid => out * (1.0 - out)
    case Softplus => lib.sigmoid(x)
    case Relu => if x > 0.0 then 1.0 else 0.0
  }

  /** The factor node `u`'s rule multiplies its own grad by before adding it to
      the operand in position `slot` (0 for `self`, 1 for `other`). Addition has
      no finite-difference branch: its rule always adds `out.grad`. */
  function LocalDerivative(nodes: seq<Node>, u: nat, slot: nat, mode: Mode, lib: Libm): real
    requires Acyclic(nodes) && u < |nodes|
  {
    var op := nodes[u].op;
    match op
    case Leaf => 0.0
    case Binary(Plus, _, _) => 1.0
    case Binary(Times, a, b) =>
      (match mode
       case Analytic => if slot == 0 then nodes[b].data else nodes[a].data
       case FiniteDifference(h) => FiniteQuotient(nodes, op, if slot == 0 then a else b, h, lib)
       case PositionalDifference(h) => PositionalQuotient(nodes, op, slot, h, lib))
    case Unary(k, a) =>
      (match mode
       case Analytic => AnalyticUnary(k, nodes[a].data, nodes[u].data, lib)
       case FiniteDifference(h) => FiniteQuotient(nodes, op, a, h, lib)
       case PositionalDifference(h) => PositionalQuotient(nodes, op, 0, h, lib))
  }

  /** What a rule adds to the grad of node `v` when its local derivatives are
      `d0` (for `self`) and `d1` (for `other`) and `out.grad` is `gu`: the
      derivative times `gu` for every operand position that holds `v`. */
  function Share(op: Op, v: nat, d0: real, d1: real, gu: real): real
  {
    match op
    case Leaf => 0.0
    case Binary(_, a, b) => (if a == v then d0 * gu else 0.0) + (if b == v then d1 * gu else 0.0)
    case Unary(_, a) => if a == v then d0 * gu else 0.0
  }

  /** `grad += d * out.grad` on the grad of node `i`, `gu` being `out.grad`. */
  function Bump(g: seq<real>, i: nat, d: real, gu: real): (r: seq<real>)
    requires i < |g|
    ensures |r| == |g| && r[i] == g[i] + d * gu
    ensures forall v :: 0 <= v < |g| && v != i ==> r[v] == g[v]
  {
    g[i := g[i] + d * gu]
  }

  /** The body of a `_backward` closure over grads `g`: `self.grad` is
      incremented first, then `other.grad`. */
  function Rule(op: Op, g: seq<real>, d0: real, d1: real, gu: real): (r: seq<real>)
    requires OperandsBelow(op, |g|)
    ensures |r| == |g|
  {
    match op
    case Leaf => g
    case Binary(_, a, b) => Bump(Bump(g, a, d0, gu), b, d1, gu)
    case Unary(_, a) => Bump(g, a, d0, gu)
  }

  /** A rule adds to each grad exactly its share, the two increments adding up
      when both operands are the same node. */
  lemma RuleShare(op: Op, g: seq<real>, d0: real, d1: real, gu: real)
    requires OperandsBelow(op, |g|)
    ensures forall v :: 0 <= v < |g| ==> Rule(op, g, d0, d1, gu)[v] == g[v] + Share(op, v, d0, d1, gu)
  {
  }

  /** What node `u`'s `_backward`, run while `u`'s grad is `gu`, adds to the
      grad of node `v`. */
  function Contrib(nodes: seq<Node>, u: nat, v: nat, gu: real, mode: Mode, lib: Libm): real
    requires Acyclic(nodes) && u < |nodes|
  {
    Share(nodes[u].op, v, LocalDerivative(nodes, u, 0, mode, lib), LocalDerivative(nodes, u, 1, mode, lib), gu)
  }

  /** The grads after node `u`'s `_backward` runs on grads `g`. */
  function Step(nodes: seq<Node>, g: seq<real>, u: nat, mode: Mode, lib: Libm): (r: seq<real>)
    requires Acyclic(nodes) && u < |nodes| && |g| == |nodes|
    ensures |r| == |g|
  {
    assert OperandsBelow(nodes[u].op, u);
    Rule(nodes[u].op, g, LocalDerivative(nodes, u, 0, mode, lib), LocalDerivative(nodes, u, 1, mode, lib), g[u])
  }

  /** Running node `u`'s rule adds to each grad what `Contrib` says. */
  lemma StepContrib(nodes: seq<Node>, g: seq<real>, u: nat, mode: Mode, lib: Libm)
    requires Acyclic(nodes) && u < |nodes| && |g| == |nodes|
    ensures forall v :: 0 <= v < |g| ==> Step(nodes, g, u, mode, lib)[v] == g[v] + Contrib(nodes, u, v, g[u], mode, lib)
  {
    assert OperandsBelow(nodes[u].op, u);
    RuleShare(nodes[u].op, g, LocalDerivative(nodes, u, 0, mode, lib), LocalDerivative(nodes, u, 1, mode, lib), g[u]);
  }

  /** A rule only ever adds to the grads of its own operands, and never
      changes the grad of its own node. */
  lemma StepFrame(nodes: seq<Node>, g: seq<real>, u: nat, mode: Mode, lib: Libm)
    requires Acyclic(nodes) && u < |nodes| && |g| == |nodes|
    ensures forall v :: 0 <= v < |g| && v !in Children(nodes[u].op) ==> Step(nodes, g, u, mode, lib)[v] == g[v]
    ensures Step(nodes, g, u, mode, lib)[u] == g[u]
  {
  }

  /** A leaf's `_backward` is the no-op `lambda: None`. */
  lemma LeafRuleIsNoOp(nodes: seq<Node>, g: seq<real>, u: nat, mode: Mode, lib: Libm)
    requires Acyclic(nodes) && u < |nodes| && |g| == |nodes|
    requires nodes[u].op.Leaf?
    ensures Step(nodes, g, u, mode, lib) == g
  {
  }

  /** `a + b` adds `out.grad` to each operand in every mode; when both operands
      are the same node (`a + a`), `_prev` has one element but the node
      receives `out.grad` twice. */
  lemma PlusRule(nodes: seq<Node>, g: seq<real>, u: nat, mode: Mode, lib: Libm)
    requires Acyclic(nodes) && u < |nodes| && |g| == |nodes|
    requires nodes[u].op.Binary? && nodes[u].op.bkind == Plus
    ensures var a, b := nodes[u].op.a, nodes[u].op.b;
      var r := Step(nodes, g, u, mode, lib);
      if a == b then |Children(nodes[u].op)| == 1 && r[a] == g[a] + 2.0 * g[u]
      else r[a] == g[a] + g[u] && r[b] == g[b] + g[u]
  {
  }

  /** Analytic `a * b`: `self.grad += other.data * out.grad` and
      `other.grad += self.data * out.grad`; for `a * a` both land on `a`. */
  lemma TimesAnalyticRule(nodes: seq<Node>, g: seq<real>, u: nat, lib: Libm)
    requires Acyclic(nodes) && u < |nodes| && |g| == |nodes|
    requires nodes[u].op.Binary? && nodes[u].op.bkind == Times
    ensures var a, b := nodes[u].op.a, nodes[u].op.b;
      var r := Step(nodes, g, u, Analytic, lib);
      if a == b then r[a] == g[a] + 2.0 * nodes[a].data * g[u]
      else r[a] == g[a] + nodes[b].data * g[u] && r[b] == g[b] + nodes[a].data * g[u]
  {
  }

  /** Analytic `relu`: the operand gains `out.grad` exactly when its data is
      positive; at 0 the local derivative is 0. */
  lemma ReluAnalyticRule(nodes: seq<Node>, g: seq<real>, u: nat, lib: Libm)
    requires Acyclic(nodes) && u < |nodes| && |g| == |nodes|
    requires nodes[u].op.Unary? && nodes[u].op.ukind == Relu
    ensures var a := nodes[u].op.a;
      Step(nodes, g, u, Analytic, lib)[a] == if nodes[a].data > 0.0 then g[a] + g[u] else g[a]
  {
  }

  /** Analytic `x ** p`: the base gains `p * x ** (p - 1) * out.grad`; the
      exponent is a number, not a node, so nothing else changes. */
  lemma PowerAnalyticRule(nodes: seq<Node>, g: seq<real>, u: nat, lib: Libm)
    requires Acyclic(nodes) && u < |nodes| && |g| == |nodes|
    requires nodes[u].op.Unary? && nodes[u].op.ukind.Power?
    ensures var a, p := nodes[u].op.a, nodes[u].op.ukind.p;
      var r := Step(nodes, g, u, Analytic, lib);
      r[a] == g[a] + p * PowValue(nodes[a].data, p - 1.0, lib) * g[u] &&
      forall v :: 0 <= v < |g| && v != a ==> r[v] == g[v]
  {
  }

  /** When the argument being differentiated occurs once in the tuple, the
      identity test of `_autograd` perturbs exactly that position. */
  lemma PerturbSingleUse(args: seq<Arg>, wrt: nat, pos: nat, nodes: seq<Node>, h: real)
    requires ArgsIn(args, |nodes|) && wrt < |nodes| && pos < |args|
    requires args[pos] == Ref(wrt)
    requires forall k :: 0 <= k < |args| && k != pos ==> args[k] != Ref(wrt)
    ensures Perturb(args, wrt, nodes, h) == PerturbAt(args, pos, nodes, h)
  {
  }

  /** The forward difference of a product whose operands are distinct nodes is
      exactly the analytic partial derivative: both strategies agree. */
  lemma {:induction false} TimesDistinctModesAgree(nodes: seq<Node>, u: nat, slot: nat, h: NonZero, lib: Libm)
    requires Acyclic(nodes) && u < |nodes| && slot < 2
    requires nodes[u].op.Binary? && nodes[u].op.bkind == Times && nodes[u].op.a != nodes[u].op.b
    ensures LocalDerivative(nodes, u, slot, FiniteDifference(h), lib) == LocalDerivative(nodes, u, slot, Analytic, lib)
    ensures LocalDerivative(nodes, u, slot, PositionalDifference(h), lib) == LocalDerivative(nodes, u, slot, Analytic, lib)
  {
    var op := nodes[u].op;
    var x, y := nodes[op.a].data, nodes[op.b].data;
    var args := Args(op);
    var wrt := if slot == 0 then op.a else op.b;
    PerturbSingleUse(args, wrt, slot, nodes, h);
    var vs := Values(PerturbAt(args, slot, nodes, h), nodes);
    if slot == 0 {
      assert vs == [x + h, y];
      assert (x + h) * y - x * y == h * y;
    } else {
      assert vs == [x, y + h];
      assert x * (y + h) - x * y == h * x;
    }
  }

  /** The forward difference of `a * a` as `_autograd` computes it: both
      arguments are `a`, so both are perturbed and each of the two operand
      positions receives `2 * x + h` instead of `x`. */
  lemma {:induction false} TimesSharedFiniteDifference(nodes: seq<Node>, u: nat, slot: nat, h: NonZero, lib: Libm)
    requires Acyclic(nodes) && u < |nodes| && slot < 2
    requires nodes[u].op.Binary? && nodes[u].op.bkind == Times && nodes[u].op.a == nodes[u].op.b
    ensures LocalDerivative(nodes, u, slot, FiniteDifference(h), lib) == 2.0 * nodes[nodes[u].op.a].data + h
  {
    var op := nodes[u].op;
    var x := nodes[op.a].data;
    assert Values(Perturb(Args(op), op.a, nodes, h), nodes) == [x + h, x + h];
    assert (x + h) * (x + h) - x * x == h * (2.0 * x + h);
  }

  /** Perturbing by position makes the forward difference of any product
      (including `a * a`) equal to the analytic partial derivative. */
  lemma {:induction false} TimesPositionalIsExact(nodes: seq<Node>, u: nat, slot: nat, h: NonZero, lib: Libm)
    requires Acyclic(nodes) && u < |nodes| && slot < 2
    requires nodes[u].op.Binary? && nodes[u].op.bkind == Times
    ensures LocalDerivative(nodes, u, slot, PositionalDifference(h), lib) == LocalDerivative(nodes, u, slot, Analytic, lib)
  {
    var op := nodes[u].op;
    var x, y := nodes[op.a].data, nodes[op.b].data;
    var vs := Values(PerturbAt(Args(op), slot, nodes, h), nodes);
    if slot == 0 {
      assert vs == [x + h, y];
      assert (x + h) * y - x * y == h * y;
    } else {
      assert vs == [x, y + h];
      assert x * (y + h) - x * y == h * x;
    }
  }

  /** For the one-operand operations the two finite-difference strategies
      coincide: there is only one argument to perturb. */
  lemma {:induction false} UnaryStrategiesAgree(nodes: seq<Node>, u: nat, h: NonZero, lib: Libm)
    requires Acyclic(nodes) && u < |nodes| && nodes[u].op.Unary?
    ensures LocalDerivative(nodes, u, 0, FiniteDifference(h), lib) == LocalDerivative(nodes, u, 0, PositionalDifference(h), lib)
  {
    var op := nodes[u].op;
    PerturbSingleUse(Args(op), op.a, 0, nodes, h);
  }

  /** The forward difference of `relu` equals its analytic derivative
      whenever `x` and `x + h` lie on the same side of the kink. */
  lemma {:induction false} ReluModesAgreeAwayFromZero(nodes: seq<Node>, u: nat, h: NonZero, lib: Libm)
    requires Acyclic(nodes) && u < |nodes|
    requires nodes[u].op.Unary? && nodes[u].op.ukind == Relu
    requires var x := nodes[nodes[u].op.a].data; (x > 0.0 && x + h > 0.0) || (x <= 0.0 && x + h <= 0.0)
    ensures LocalDerivative(nodes, u, 0, FiniteDifference(h), lib) == LocalDerivative(nodes, u, 0, Analytic, lib)
  {
    var op := nodes[u].op;
    var x := nodes[op.a].data;
    assert Values(Perturb(Args(op), op.a, nodes, h), nodes) == [x + h];
    assert Values(Args(op), nodes) == [x];
  }

  /** `_autograd`'s loop: builds `h_args` by walking `args` and appending
      either the argument or, for an argument that is `wrt`, a fresh leaf
      whose data is `wrt`'s plus `h`. */
  method PerturbArgs(args: seq<Arg>, wrt: nat, nodes: seq<Node>, h: real) returns (hArgs: seq<Arg>)
    requires wrt < |nodes|
    ensures hArgs == Perturb(args, wrt, nodes, h)
  {
    hArgs := [];
    var i := 0;
    while i < |args|
      invariant 0 <= i <= |args|
      invariant |hArgs| == i
      invariant forall k :: 0 <= k < i ==> hArgs[k] == Perturb(args, wrt, nodes, h)[k]
    {
      var arg := args[i];
      if arg == Ref(wrt) {
        arg := Fresh(nodes[wrt].data + h);
      }
      hArgs := hArgs + [arg];
      i := i + 1;
    }
  }

  /** `Value._autograd`: the forward-difference quotient of `op`'s forward
      helper with respect to node `wrt`. */
  method Autograd(nodes: seq<Node>, op: Op, wrt: nat, h: NonZero, lib: Libm) returns (g: real)
    requires !op.Leaf? && OperandsBelow(op, |nodes|) && wrt < |nodes|
    ensures g == FiniteQuotient(nodes, op, wrt, h, lib)
  {
    var args := Args(op);
    var hArgs := PerturbArgs(args, wrt, nodes, h);
    g := (Apply(op, Values(hArgs, nodes), lib) - Apply(op, Values(args, nodes), lib)) * (1.0 / h);
  }
}
