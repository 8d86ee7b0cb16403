/** micrograd's `Value` class over an arena: every `Value` the program creates
    is a node of `nodes`, and its `grad` is the matching cell of `grad`.
    Operators append their result node (and a leaf for each plain number they
    wrap); `Backward` is `Value.backward`. */
module Engine {
  import opened Arena
  import opened Derivatives
  import opened Backprop

  datatype Error =
    | UnsupportedOperand  // `**` with a `Value` exponent: the assertion of `__pow__`
    | ZeroDivision        // Python's `0.0 ** p` with `p < 0`

  datatype Result<T> = Ok(value: T) | Err(error: Error)

  /** The right-hand side of an operator: a `Value` of the graph, or a plain number. */
  datatype Operand = Val(index: nat) | Num(x: real)

  class Graph {
    const lib: Libm
    var nodes: seq<Node>
    var grad: array<real>

    ghost predicate Valid()
      reads this
    {
      grad.Length == |nodes| && WellFormed(nodes, lib)
    }

    /** The operand is a `Value` of this graph or a number. */
    predicate Admits(o: Operand)
      reads this
    {
      o.Val? ==> o.index < |nodes|
    }

    /** The data of an operand: the `Value`'s data or the number itself. */
    function DataOf(o: Operand): real
      reads this
      requires Admits(o)
    {
      match o
      case Val(i) => nodes[i].data
      case Num(x) => x
    }

    /** The graph only grew: earlier nodes and their grads are as they were,
        and every node created since starts with grad 0.0. */
    twostate predicate Grown()
      reads this, grad
    {
      (grad == old(grad) || fresh(grad)) &&
      |old(nodes)| <= |nodes| == grad.Length &&
      nodes[..|old(nodes)|] == old(nodes) &&
      old(grad.Length) == |old(nodes)| &&
      grad[..|old(nodes)|] == old(grad[..]) &&
      forall k :: |old(nodes)| <= k < |nodes| ==> grad[k] == 0.0
    }

    constructor (lib: Libm)
      ensures Valid() && this.lib == lib && nodes == [] && fresh(grad)
    {
      this.lib := lib;
      nodes := [];
      grad := new real[0];
    }

    /** `Value.__init__`: a new node with grad 0.0 whose `_prev` is the set of
        the operands of `op`. */
    method NewNode(data: real, op: Op) returns (out: nat)
      requires Valid() && OperandsBelow(op, |nodes|)
      requires !op.Leaf? ==> data == Forward(nodes, op, lib)
      modifies this
      ensures Valid() && Grown() && fresh(grad)
      ensures nodes == old(nodes) + [Node(data, op)] && out == |old(nodes)|
      ensures grad[out] == 0.0
    {
      var n := |nodes|;
      var g := grad;
      grad := new real[n + 1](k requires 0 <= k <= n reads g => if k < n then g[k] else 0.0);
      nodes := nodes + [Node(data, op)];
      out := n;
      assert nodes[..n] == old(nodes);
    }

    /** `Value(x)`: an input or a literal. */
    method Input(x: real) returns (out: nat)
      requires Valid()
      modifies this
      ensures Valid() && Grown() && fresh(grad)
      ensures nodes == old(nodes) + [Node(x, Leaf)] && out == |old(nodes)|
    {
      out := NewNode(x, Leaf);
    }

    /** `other if isinstance(other, Value) else Value(other)`. */
    method Wrap(o: Operand) returns (i: nat)
      requires Valid() && Admits(o)
      modifies this
      ensures Valid() && Grown() && i < |nodes| && nodes[i].data == old(DataOf(o))
      ensures o.Val? ==> i == o.index && nodes == old(nodes)
      ensures o.Num? ==> nodes == old(nodes) + [Node(o.x, Leaf)] && i == |old(nodes)|
    {
      match o
      case Val(j) => i := j;
      case Num(x) => i := Input(x);
    }

    /** `self + other`: `data` is the sum, `_prev` is `{self, other}`. */
    method Add(self: nat, other: Operand) returns (out: nat)
      requires Valid() && self < |nodes| && Admits(other)
      modifies this
      ensures Valid() && Grown()
      ensures var n, xs := |old(nodes)|, old(nodes[self].data);
        if other.Val? then
          nodes == old(nodes) + [Node(xs + old(nodes[other.index].data), Binary(Plus, self, other.index))] && out == n
        else
          nodes == old(nodes) + [Node(other.x, Leaf), Node(xs + other.x, Binary(Plus, self, n))] && out == n + 1
    {
      var o := Wrap(other);
      out := NewNode(nodes[self].data + nodes[o].data, Binary(Plus, self, o));
    }

    /** `self * other`: `data` is the product, `_prev` is `{self, other}`. */
    method Mul(self: nat, other: Operand) returns (out: nat)
      requires Valid() && self < |nodes| && Admits(other)
      modifies this
      ensures Valid() && Grown()
      ensures other.Val? ==>
        nodes == old(nodes) + [Node(old(nodes[self].data * nodes[other.index].data), Binary(Times, self, other.index))] &&
        out == |old(nodes)|
      ensures other.Num? ==>
        nodes == old(nodes) + [Node(other.x, Leaf), Node(old(nodes[self].data) * other.x, Binary(Times, self, |old(nodes)|))] &&
        out == |old(nodes)| + 1
    {
      var xs, xo := nodes[self].data, DataOf(other);
      var o := Wrap(other);
      ghost var wrapped := nodes;
      out := NewNode(xs * xo, Binary(Times, self, o));
      assert nodes == wrapped + [Node(xs * xo, Binary(Times, self, o))];
      // The product is spelled as in the contract, so that no arithmetic is needed to match it.
      if other.Val? {
        assert xs * xo == old(nodes[self].data * nodes[other.index].data);
      } else {
        assert xs * xo == old(nodes[self].data) * other.x;
        assert nodes == old(nodes) + [Node(other.x, Leaf), Node(xs * xo, Binary(Times, self, o))];
      }
    }

    /** `self ** other`: the exponent must be a plain number, and only the base
        is recorded as an operand. A zero base with a negative exponent fails
        as Python's float power does. Nothing is created on failure. */
    method Pow(self: nat, other: Operand) returns (r: Result<nat>)
      requires Valid() && self < |nodes| && Admits(other)
      modifies this
      ensures Valid() && Grown()
      ensures other.Val? ==> r == Err(UnsupportedOperand)
      ensures other.Num? && old(nodes[self].data) == 0.0 && other.x < 0.0 ==> r == Err(ZeroDivision)
      ensures r.Err? ==> nodes == old(nodes)
      ensures r.Ok? <==> other.Num? && (old(nodes[self].data) != 0.0 || other.x >= 0.0)
      ensures r.Ok? ==>
        nodes == old(nodes) + [Node(PowValue(old(nodes[self].data), other.x, lib), Unary(Power(other.x), self))] &&
        r.value == |old(nodes)|
    {
      if other.Val? {
        return Err(UnsupportedOperand);
      }
      var p := other.x;
      if nodes[self].data == 0.0 && p < 0.0 {
        return Err(ZeroDivision);
      }
      var out := NewNode(PowValue(nodes[self].data, p, lib), Unary(Power(p), self));
      r := Ok(out);
    }

    /** `exp`, `tanh`, `sigmoid`, `softplus` and `relu`: one operand, whose
        forward value goes through the operation's helper. */
    method Activate(self: nat, k: UnaryKind) returns (out: nat)
      requires Valid() && self < |nodes| && !k.Power?
      modifies this
      ensures Valid() && Grown()
      ensures nodes == old(nodes) + [Node(UnaryValue(k, old(nodes[self].data), lib), Unary(k, self))]
      ensures out == |old(nodes)|
    {
      out := NewNode(UnaryValue(k, nodes[self].data, lib), Unary(k, self));
    }

    /** `relu`: `max(0, data)`. */
    method Relu(self: nat) returns (out: nat)
      requires Valid() && self < |nodes|
      modifies this
      ensures Valid() && Grown() && |nodes| == |old(nodes)| + 1 && out == |old(nodes)|
      ensures nodes[out].op == Unary(UnaryKind.Relu, self)
      ensures var x := old(nodes[self].data);
        nodes[out].data >= 0.0 && nodes[out].data >= x && (nodes[out].data == x || nodes[out].data == 0.0)
    {
      out := Activate(self, UnaryKind.Relu);
    }

    /** `-self`, which is `self * -1`. */
    method Neg(self: nat) returns (out: nat)
      requires Valid() && self < |nodes|
      modifies this
      ensures Valid() && Grown()
      ensures var n := |old(nodes)|;
        nodes == old(nodes) + [Node(-1.0, Leaf), Node(-old(nodes[self].data), Binary(Times, self, n))] && out == n + 1
    {
      out := Mul(self, Num(-1.0));
    }

    /** `self - other`, which is `self + (-other)`; a plain number is negated
        before it is wrapped. */
    method Sub(self: nat, other: Operand) returns (out: nat)
      requires Valid() && self < |nodes| && Admits(other)
      modifies this
      ensures Valid() && Grown()
      ensures var n, xs := |old(nodes)|, old(nodes[self].data);
        if other.Val? then
          var j := other.index;
          var xj := old(nodes[j].data);
          nodes == old(nodes) + [Node(-1.0, Leaf), Node(-xj, Binary(Times, j, n)), Node(xs - xj, Binary(Plus, self, n + 1))] &&
          out == n + 2
        else
          nodes == old(nodes) + [Node(-other.x, Leaf), Node(xs - other.x, Binary(Plus, self, n))] && out == n + 1
    {
      match other
      case Val(j) =>
        var n := Neg(j);
        out := Add(self, Val(n));
      case Num(x) =>
        out := Add(self, Num(-x));
    }

    /** `self / other`, which is `self * other ** -1`; `other ** -1` is a
        node for a `Value` and a number for a number, and fails on zero. */
    method Div(self: nat, other: Operand) returns (r: Result<nat>)
      requires Valid() && self < |nodes| && Admits(other)
      modifies this
      ensures Valid() && Grown()
      ensures r.Err? <==> old(DataOf(other)) == 0.0
      ensures r.Err? ==> r.error == ZeroDivision && nodes == old(nodes)
      ensures r.Ok? && other.Val? ==>
        nodes == old(nodes) + [Node(1.0 / old(nodes[other.index].data), Unary(Power(-1.0), other.index)),
                               Node(old(nodes[self].data * (1.0 / nodes[other.index].data)), Binary(Times, self, |old(nodes)|))] &&
        r.value == |old(nodes)| + 1
      ensures r.Ok? && other.Num? ==>
        nodes == old(nodes) + [Node(1.0 / other.x, Leaf), Node(old(nodes[self].data) * (1.0 / other.x), Binary(Times, self, |old(nodes)|))] &&
        r.value == |old(nodes)| + 1
    {
      var inv := Reciprocal(other);
      if inv.Err? {
        return Err(inv.error);
      }
      ghost var inverted := nodes;
      var out := Mul(self, inv.value);
      if other.Val? {
        assert nodes[out].data == old(nodes[self].data * (1.0 / nodes[other.index].data));
        assert nodes == inverted + [nodes[out]];
      } else {
        assert nodes[out].data == old(nodes[self].data) * (1.0 / other.x);
      }
      r := Ok(out);
    }

    /** `other ** -1` for the right-hand side of `/`: a power node for a
        `Value`, Python's float reciprocal for a number; both fail on zero. */
    method Reciprocal(o: Operand) returns (r: Result<Operand>)
      requires Valid() && Admits(o)
      modifies this
      ensures Valid() && Grown()
      ensures r.Err? <==> old(DataOf(o)) == 0.0
      ensures r.Err? ==> r.error == ZeroDivision && nodes == old(nodes)
      ensures r.Ok? && o.Val? ==>
        nodes == old(nodes) + [Node(1.0 / old(nodes[o.index].data), Unary(Power(-1.0), o.index))] &&
        r.value == Val(|old(nodes)|)
      ensures r.Ok? && o.Num? ==> nodes == old(nodes) && r.value == Num(1.0 / o.x)
    {
      match o
      case Val(j) =>
        PowValueExponents(nodes[j].data, -1.0, lib);
        var p := Pow(j, Num(-1.0));
        if p.Err? {
          return Err(p.error);
        }
        r := Ok(Val(p.value));
      case Num(x) =>
        if x == 0.0 {
          return Err(ZeroDivision);
        }
        PowValueExponents(x, -1.0, lib);
        r := Ok(Num(PowValue(x, -1.0, lib)));
    }

    /** `k + self` (`__radd__`): `self + k`. */
    method RAdd(self: nat, k: real) returns (out: nat)
      requires Valid() && self < |nodes|
      modifies this
      ensures Valid() && Grown()
      ensures var n := |old(nodes)|;
        nodes == old(nodes) + [Node(k, Leaf), Node(old(nodes[self].data) + k, Binary(Plus, self, n))] && out == n + 1
    {
      out := Add(self, Num(k));
    }

    /** `k * self` (`__rmul__`): `self * k`. */
    method RMul(self: nat, k: real) returns (out: nat)
      requires Valid() && self < |nodes|
      modifies this
      ensures Valid() && Grown()
      ensures nodes == old(nodes) + [Node(k, Leaf), Node(old(nodes[self].data) * k, Binary(Times, self, |old(nodes)|))]
      ensures out == |old(nodes)| + 1
    {
      out := Mul(self, Num(k));
      assert nodes[|old(nodes)| + 1].data == old(nodes[self].data) * k;
    }

    /** `k - self` (`__rsub__`): `k + (-self)`, which Python runs as `(-self) + k`. */
    method RSub(self: nat, k: real) returns (out: nat)
      requires Valid() && self < |nodes|
      modifies this
      ensures Valid() && Grown()
      ensures var n, xs := |old(nodes)|, old(nodes[self].data);
        nodes == old(nodes) + [Node(-1.0, Leaf), Node(-xs, Binary(Times, self, n)), Node(k, Leaf), Node(k - xs, Binary(Plus, n + 1, n + 2))] &&
        out == n + 3
    {
      var n := Neg(self);
      out := Add(n, Num(k));
    }

    /** `k / self` (`__rtruediv__`): `k * self ** -1`, run as `(self ** -1) * k`. */
    method RDiv(self: nat, k: real) returns (r: Result<nat>)
      requires Valid() && self < |nodes|
      modifies this
      ensures Valid() && Grown()
      ensures r.Err? <==> old(nodes[self].data) == 0.0
      ensures r.Err? ==> r.error == ZeroDivision && nodes == old(nodes)
      ensures r.Ok? ==>
        nodes == old(nodes) + [Node(1.0 / old(nodes[self].data), Unary(Power(-1.0), self)), Node(k, Leaf),
                               Node((1.0 / old(nodes[self].data)) * k, Binary(Times, |old(nodes)|, |old(nodes)| + 1))] &&
        r.value == |old(nodes)| + 2
    {
      var xs := nodes[self].data;
      PowValueExponents(xs, -1.0, lib);
      var p := Pow(self, Num(-1.0));
      if p.Err? {
        return Err(p.error);
      }
      ghost var powered := nodes;
      assert powered[p.value].data == 1.0 / xs;
      var out := Mul(p.value, Num(k));
      assert nodes[p.value + 2].data == (1.0 / old(nodes[self].data)) * k;
      assert nodes[p.value].data == 1.0 / old(nodes[self].data);
      r := Ok(out);
    }

    /** The local derivative a rule computes for operand position `slot`, by
        the closed form or by `_autograd`, whichever `mode` says. */
    method LocalRule(u: nat, slot: nat, mode: Mode) returns (d: real)
      requires Acyclic(nodes) && u < |nodes| && !nodes[u].op.Leaf?
      ensures d == LocalDerivative(nodes, u, slot, mode, lib)
    {
      var op := nodes[u].op;
      match op
      case Binary(Plus, _, _) => d := 1.0;
      case Binary(Times, a, b) =>
        match mode {
          case Analytic => d := if slot == 0 then nodes[b].data else nodes[a].data;
          case FiniteDifference(h) => d := Autograd(nodes, op, if slot == 0 then a else b, h, lib);
          case PositionalDifference(h) => d := PositionalQuotient(nodes, op, slot, h, lib);
        }
      case Unary(k, a) =>
        match mode {
          case Analytic => d := AnalyticUnary(k, nodes[a].data, nodes[u].data, lib);
          case FiniteDifference(h) => d := Autograd(nodes, op, a, h, lib);
          case PositionalDifference(h) => d := PositionalQuotient(nodes, op, 0, h, lib);
        }
    }

    /** `operand.grad += d * out.grad`, with `gu` the value of `out.grad`. */
    method Accumulate(i: nat, d: real, gu: real)
      requires i < grad.Length
      modifies grad
      ensures grad[..] == Bump(old(grad[..]), i, d, gu)
    {
      grad[i] := grad[i] + d * gu;
    }

    /** `u._backward()`: adds the local derivative times `u`'s grad to the grad
        of each operand, one position after the other. */
    method Propagate(u: nat, mode: Mode)
      requires Acyclic(nodes) && grad.Length == |nodes| && u < |nodes|
      modifies grad
      ensures grad[..] == Step(nodes, old(grad[..]), u, mode, lib)
    {
      assert OperandsBelow(nodes[u].op, u);
      var gu := grad[u];
      match nodes[u].op
      case Leaf =>
      case Binary(_, a, b) =>
        var da := LocalRule(u, 0, mode);
        Accumulate(a, da, gu);
        var db := LocalRule(u, 1, mode);
        Accumulate(b, db, gu);
      case Unary(_, a) =>
        var d := LocalRule(u, 0, mode);
        Accumulate(a, d, gu);
    }

    /** `root.backward()`: sort the nodes the root reaches, assign 1.0 to the
        root's grad, then run each `_backward` once in reverse order. The
        grads left satisfy the adjoint equations; grads are never reset. */
    method Backward(root: nat, mode: Mode)
      requires Valid() && root < |nodes|
      modifies grad
      ensures Adjoints(nodes, root, old(grad[..]), grad[..], mode, lib)
      ensures grad[root] == 1.0
      ensures forall v :: 0 <= v < |nodes| && v !in Reach(nodes, root) ==> grad[v] == old(grad[v])
    {
      var topo := BuildTopo(nodes, root);
      ghost var g0 := grad[..];
      grad[root] := 1.0;
      var i := |topo|;
      while i > 0
        invariant 0 <= i <= |topo|
        invariant grad[..] == Sweep(nodes, g0[root := 1.0], topo[i..], mode, lib)
      {
        i := i - 1;
        Propagate(topo[i], mode);
        assert topo[i..][1..] == topo[i + 1..];
      }
      assert topo[0..] == topo;
      BackwardSolvesAdjoints(nodes, root, g0, topo, mode, lib);
      AdjointsShape(nodes, root, g0, grad[..], mode, lib);
    }
  }
}
