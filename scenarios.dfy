/** Whole graphs run through the engine: the expression `d = a * b + b ** 3`
    of the engine tests, and the square `a * a` on which the two
    finite-difference strategies part ways. */
module Scenarios {
  import opened Arena
  import opened Derivatives
  import opened Backprop
  import opened Engine

  /** A backward pass is the sweep of any topological order: the adjoint
      equations have one solution, and every sweep is it. */
  lemma AdjointsBySweep(nodes: seq<Node>, root: nat, g: seq<real>, G: seq<real>, topo: seq<nat>, mode: Mode, lib: Libm)
    requires Acyclic(nodes) && root < |nodes| && |g| == |nodes|
    requires TopoOrder(nodes, root, topo)
    requires Adjoints(nodes, root, g, G, mode, lib)
    ensures G == Sweep(nodes, g[root := 1.0], topo, mode, lib)
  {
    BackwardSolvesAdjoints(nodes, root, g, topo, mode, lib);
    AdjointsUnique(nodes, root, g, G, Sweep(nodes, g[root := 1.0], topo, mode, lib), mode, lib);
  }

  // ---------------------------------------------------------------------
  // a = Value(-4.0); b = Value(2.0); c = a + b; d = a * b + b ** 3

  function ExampleArena(): seq<Node>
  {
    [ Node(-4.0, Leaf),
      Node(2.0, Leaf),
      Node(-2.0, Binary(Plus, 0, 1)),
      Node(-8.0, Binary(Times, 0, 1)),
      Node(8.0, Unary(Power(3.0), 1)),
      Node(0.0, Binary(Plus, 3, 4)) ]
  }

  lemma ExampleAcyclic()
    ensures Acyclic(ExampleArena())
  {
    var nodes := ExampleArena();
    forall u | 0 <= u < |nodes| ensures OperandsBelow(nodes[u].op, u) {
    }
  }

  lemma ExampleReach()
    requires Acyclic(ExampleArena())
    ensures Reach(ExampleArena(), 5) == {0, 1, 3, 4, 5}
  {
    var nodes := ExampleArena();
    assert Reach(nodes, 0) == {0} && Reach(nodes, 1) == {1};
    assert Reach(nodes, 3) == {0, 1, 3};
    assert Reach(nodes, 4) == {1, 4};
  }

  /** `build_topo(d)` may list `[a, b, a * b, b ** 3, d]`. */
  lemma ExampleTopo()
    ensures Acyclic(ExampleArena())
    ensures TopoOrder(ExampleArena(), 5, [0, 1, 3, 4, 5])
  {
    var nodes := ExampleArena();
    var topo := [0, 1, 3, 4, 5];
    ExampleAcyclic();
    ExampleReach();
    assert Elements(topo) == {0, 1, 3, 4, 5} by {
      assert topo[0] == 0 && topo[1] == 1 && topo[2] == 3 && topo[3] == 4 && topo[4] == 5;
    }
    ExampleChildrenFirst();
  }

  lemma ExampleChildrenFirst()
    ensures ChildrenFirst(ExampleArena(), [0, 1, 3, 4, 5])
  {
    var nodes := ExampleArena();
    var topo := [0, 1, 3, 4, 5];
    assert topo[..2] == [0, 1] && topo[..3] == [0, 1, 3] && topo[..4] == [0, 1, 3, 4];
    forall k, c | 0 <= k < |topo| && c in Children(nodes[topo[k]].op) ensures c in topo[..k] {
      if k == 2 {
        assert c == 0 || c == 1;
      } else if k == 3 {
        assert c == 1;
      } else if k == 4 {
        assert c == 3 || c == 4;
      }
    }
  }

  /** The grads of a backward pass from `d` that starts from grads `g`: `d`
      is assigned 1.0; `a * b` and `b ** 3` gain 1.0; `a` gains `b = 2`
      times the grad of `a * b`; `b` gains `a = -4` times it and
      `3 * b ** 2 = 12` times the grad of `b ** 3`; `c`, which `d` does not
      use, keeps its grad. */
  lemma ExampleGrads(lib: Libm, g: seq<real>, G: seq<real>)
    requires Acyclic(ExampleArena()) && |g| == 6
    requires Adjoints(ExampleArena(), 5, g, G, Analytic, lib)
    ensures G == [g[0] + 2.0 * (g[3] + 1.0), g[1] - 4.0 * (g[3] + 1.0) + 12.0 * (g[4] + 1.0), g[2],
                  g[3] + 1.0, g[4] + 1.0, 1.0]
  {
    ExampleTopo();
    AdjointsBySweep(ExampleArena(), 5, g, G, [0, 1, 3, 4, 5], Analytic, lib);
    ExampleSweep(lib, g);
  }

  /** The reverse sweep over `[a, b, a * b, b ** 3, d]`, rule by rule. */
  lemma ExampleSweep(lib: Libm, g: seq<real>)
    requires Acyclic(ExampleArena()) && |g| == 6
    ensures Sweep(ExampleArena(), g[5 := 1.0], [0, 1, 3, 4, 5], Analytic, lib) ==
      [g[0] + 2.0 * (g[3] + 1.0), g[1] - 4.0 * (g[3] + 1.0) + 12.0 * (g[4] + 1.0), g[2],
       g[3] + 1.0, g[4] + 1.0, 1.0]
  {
    var nodes := ExampleArena();
    var g5 := Step(nodes, g[5 := 1.0], 5, Analytic, lib);
    assert g5 == [g[0], g[1], g[2], g[3] + 1.0, g[4] + 1.0, 1.0];
    var g4 := Step(nodes, g5, 4, Analytic, lib);
    assert PowValue(2.0, 2.0, lib) == 4.0;
    assert g4 == [g[0], g[1] + 12.0 * (g[4] + 1.0), g[2], g[3] + 1.0, g[4] + 1.0, 1.0];
    var g3 := Step(nodes, g4, 3, Analytic, lib);
    assert g3 == [g[0] + 2.0 * (g[3] + 1.0), g[1] + 12.0 * (g[4] + 1.0) + -4.0 * (g[3] + 1.0), g[2],
                  g[3] + 1.0, g[4] + 1.0, 1.0];
    assert Step(nodes, g3, 1, Analytic, lib) == g3;
    assert Step(nodes, g3, 0, Analytic, lib) == g3;
    assert [0, 1, 3, 4, 5][1..] == [1, 3, 4, 5];
    assert [1, 3, 4, 5][1..] == [3, 4, 5];
    assert [3, 4, 5][1..] == [4, 5];
    assert [4, 5][1..] == [5];
  }

  /** `a = Value(-4.0); b = Value(2.0); c = a + b; d = a * b + b ** 3`
      through the operators of a new graph. */
  method BuildExample(lib: Libm) returns (graph: Graph, a: nat, b: nat, c: nat, d: nat)
    ensures fresh(graph) && fresh(graph.grad) && graph.Valid() && graph.lib == lib
    ensures graph.nodes == ExampleArena() && graph.grad[..] == [0.0, 0.0, 0.0, 0.0, 0.0, 0.0]
    ensures a == 0 && b == 1 && c == 2 && d == 5
  {
    graph := new Graph(lib);
    a := graph.Input(-4.0);
    b := graph.Input(2.0);
    c := graph.Add(a, Val(b));
    assert graph.nodes == ExampleArena()[..3];
    assert graph.grad[..] == [0.0, 0.0, 0.0];
    d := BuildExampleOutput(graph);
  }

  /** `d = a * b + b ** 3` on a graph holding `a`, `b` and `c`. */
  method BuildExampleOutput(graph: Graph) returns (d: nat)
    requires graph.Valid() && graph.nodes == ExampleArena()[..3] && graph.grad[..] == [0.0, 0.0, 0.0]
    modifies graph
    ensures graph.Valid() && (graph.grad == old(graph.grad) || fresh(graph.grad))
    ensures graph.nodes == ExampleArena() && graph.grad[..] == [0.0, 0.0, 0.0, 0.0, 0.0, 0.0]
    ensures d == 5
  {
    var ab := graph.Mul(0, Val(1));
    var cube := graph.Pow(1, Num(3.0));
    assert NatPow(2.0, 3) == 8.0;
    assert graph.nodes == ExampleArena()[..5];
    d := graph.Add(ab, Val(cube.value));
    assert graph.grad[..] == [0.0, 0.0, 0.0, 0.0, 0.0, 0.0];
  }

  /** The expression of `BuildExample`, then `d.backward()` in the
      closed-form mode, twice. The first pass gives `a` and `b` their
      derivatives 2 and 8. Grads are not reset, so the second pass starts
      from the first one's grads, intermediate nodes included, and leaves
      6 and 24. */
  method Example(lib: Libm) returns (dataC: real, dataD: real, gradA: real, gradB: real, gradC: real, gradA2: real, gradB2: real)
    ensures dataC == -2.0 && dataD == 0.0
    ensures gradA == 2.0 && gradB == 8.0 && gradC == 0.0
    ensures gradA2 == 6.0 && gradB2 == 24.0
  {
    var graph, a, b, c, d := BuildExample(lib);
    graph.Backward(d, Analytic);
    ExampleGrads(lib, [0.0, 0.0, 0.0, 0.0, 0.0, 0.0], graph.grad[..]);
    dataC, dataD := graph.nodes[c].data, graph.nodes[d].data;
    gradA, gradB, gradC := graph.grad[a], graph.grad[b], graph.grad[c];
    ghost var first := graph.grad[..];
    graph.Backward(d, Analytic);
    ExampleGrads(lib, first, graph.grad[..]);
    gradA2, gradB2 := graph.grad[a], graph.grad[b];
  }

  // ---------------------------------------------------------------------
  // a = Value(x); y = a * a

  function SquareArena(x: real): seq<Node>
  {
    [Node(x, Leaf), Node(x * x, Binary(Times, 0, 0))]
  }

  /** What a backward pass from `a * a` leaves in `a`'s grad, by strategy:
      the identity test of `_autograd` perturbs both arguments, so each of
      the two rule lines adds `2x + h` instead of `x`. */
  lemma SquareGrad(x: real, g: seq<real>, G: seq<real>, mode: Mode, lib: Libm)
    requires Acyclic(SquareArena(x)) && |g| == 2
    requires Adjoints(SquareArena(x), 1, g, G, mode, lib)
    ensures G[1] == 1.0
    ensures mode.FiniteDifference? ==> G[0] == g[0] + 2.0 * (2.0 * x + mode.h)
    ensures !mode.FiniteDifference? ==> G[0] == g[0] + 2.0 * x
  {
    var nodes := SquareArena(x);
    var topo := [0, 1];
    assert Reach(nodes, 1) == {0, 1};
    assert Elements(topo) == {0, 1} by {
      assert topo[0] == 0 && topo[1] == 1;
    }
    assert ChildrenFirst(nodes, topo) by {
      assert topo[..1] == [0];
    }
    AdjointsBySweep(nodes, 1, g, G, topo, mode, lib);
    assert [0, 1][1..] == [1];
    var g1 := Step(nodes, g[1 := 1.0], 1, mode, lib);
    assert G == Step(nodes, g1, 0, mode, lib);
    LeafRuleIsNoOp(nodes, g1, 0, mode, lib);
    var d0, d1 := LocalDerivative(nodes, 1, 0, mode, lib), LocalDerivative(nodes, 1, 1, mode, lib);
    assert G[0] == g[0] + d0 + d1;
    match mode
    case Analytic =>
    case FiniteDifference(h) =>
      TimesSharedFiniteDifference(nodes, 1, 0, h, lib);
      TimesSharedFiniteDifference(nodes, 1, 1, h, lib);
    case PositionalDifference(h) =>
      TimesPositionalIsExact(nodes, 1, 0, h, lib);
      TimesPositionalIsExact(nodes, 1, 1, h, lib);
  }

  /** `a = Value(3.0); (a * a).backward()` with `do_autograd` set and the
      class step `h = 1e-8`: `a.grad` is `12.00000002`, where the derivative
      of `a ** 2` at 3 is 6. */
  lemma SquareFiniteDifferenceOvercounts(lib: Libm, G: seq<real>)
    requires Acyclic(SquareArena(3.0))
    requires Adjoints(SquareArena(3.0), 1, [0.0, 0.0], G, FiniteDifference(0.00000001), lib)
    ensures G[0] == 12.00000002 && G[0] != 6.0
  {
    SquareGrad(3.0, [0.0, 0.0], G, FiniteDifference(0.00000001), lib);
  }

  /** The same square with only the differentiated position perturbed: the
      grad is the derivative 6, whatever the step. */
  lemma SquarePositionalIsExact(h: NonZero, lib: Libm, G: seq<real>)
    requires Acyclic(SquareArena(3.0))
    requires Adjoints(SquareArena(3.0), 1, [0.0, 0.0], G, PositionalDifference(h), lib)
    ensures G[0] == 6.0
  {
    SquareGrad(3.0, [0.0, 0.0], G, PositionalDifference(h), lib);
  }
}
