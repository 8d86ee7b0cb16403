/** `Value.backward`: the depth-first topological sort (`build_topo`) and the
    reverse sweep that runs every `_backward` once, with what they guarantee:
    the grads they leave behind satisfy the reverse-mode adjoint equations,
    whichever order the sort happened to pick. */
module Backprop {
  import opened Arena
  import opened Derivatives

  predicate InArena(nodes: seq<Node>, s: seq<nat>)
  {
    forall k :: 0 <= k < |s| ==> s[k] < |nodes|
  }

  predicate Distinct(s: seq<nat>)
  {
    forall i, j :: 0 <= i < j < |s| ==> s[i] != s[j]
  }

  /** Every node of `s` comes after all of its operands. */
  predicate ChildrenFirst(nodes: seq<Node>, s: seq<nat>)
    requires InArena(nodes, s)
  {
    forall k, c :: 0 <= k < |s| && c in Children(nodes[s[k]].op) ==> c in s[..k]
  }

  /** What `build_topo(root)` leaves in `topo`: each node reachable from the
      root exactly once, each after its operands, the root last. */
  ghost predicate TopoOrder(nodes: seq<Node>, root: nat, topo: seq<nat>)
    requires Acyclic(nodes) && root < |nodes|
  {
    InArena(nodes, topo) && Distinct(topo) && ChildrenFirst(nodes, topo) &&
    (set k | 0 <= k < |topo| :: topo[k]) == Reach(nodes, root) &&
    |topo| > 0 && topo[|topo| - 1] == root
  }

  /** The grads after running `_backward` for `s[|s|-1]`, then `s[|s|-2]`, ...,
      down to `s[0]`: the loop `for val in reversed(topo)`. */
  function Sweep(nodes: seq<Node>, g: seq<real>, s: seq<nat>, mode: Mode, lib: Libm): (r: seq<real>)
    requires Acyclic(nodes) && |g| == |nodes| && InArena(nodes, s)
    ensures |r| == |g|
    decreases |s|
  {
    if s == [] then g
    else Step(nodes, Sweep(nodes, g, s[1..], mode, lib), s[0], mode, lib)
  }

  /** What the nodes of `s` have added to `v`, each with its grad in `G`. */
  function SumOver(nodes: seq<Node>, s: seq<nat>, v: nat, G: seq<real>, mode: Mode, lib: Libm): real
    requires Acyclic(nodes) && |G| == |nodes| && InArena(nodes, s)
    decreases |s|
  {
    if s == [] then 0.0
    else Contrib(nodes, s[0], v, G[s[0]], mode, lib) + SumOver(nodes, s[1..], v, G, mode, lib)
  }

  /** What the nodes of `S` among `lo..hi-1` add to `v`, each with its grad in `G`. */
  function RangeSum(nodes: seq<Node>, S: set<nat>, v: nat, G: seq<real>, lo: nat, hi: nat, mode: Mode, lib: Libm): real
    requires Acyclic(nodes) && |G| == |nodes| && hi <= |nodes|
    decreases hi
  {
    if hi <= lo then 0.0
    else
      var last := if hi - 1 in S then Contrib(nodes, hi - 1, v, G[hi - 1], mode, lib) else 0.0;
      RangeSum(nodes, S, v, G, lo, hi - 1, mode, lib) + last
  }

  /** What the consumers of `v` that are reachable from `root` feed back into
      `v`'s grad, each through its own rule and its own final grad. */
  function Incoming(nodes: seq<Node>, root: nat, v: nat, G: seq<real>, mode: Mode, lib: Libm): real
    requires Acyclic(nodes) && root < |nodes| && |G| == |nodes|
  {
    RangeSum(nodes, Reach(nodes, root), v, G, 0, |nodes|, mode, lib)
  }

  /** The reverse-mode adjoint equations of a backward pass from `root` over
      grads that held `g` before it: the root's grad is 1.0, and every other
      node's grad is what it held before plus what its reachable consumers
      feed back into it. */
  ghost predicate Adjoints(nodes: seq<Node>, root: nat, g: seq<real>, G: seq<real>, mode: Mode, lib: Libm)
    requires Acyclic(nodes) && root < |nodes| && |g| == |nodes|
  {
    |G| == |nodes| &&
    forall v :: 0 <= v < |nodes| ==>
      G[v] == (if v == root then 1.0 else g[v]) + Incoming(nodes, root, v, G, mode, lib)
  }

  /** Sums agree when the grads they read agree. */
  lemma {:induction false} SumOverFrame(nodes: seq<Node>, s: seq<nat>, v: nat, G1: seq<real>, G2: seq<real>, mode: Mode, lib: Libm)
    requires Acyclic(nodes) && |G1| == |nodes| && |G2| == |nodes| && InArena(nodes, s)
    requires forall k :: 0 <= k < |s| ==> G1[s[k]] == G2[s[k]]
    ensures SumOver(nodes, s, v, G1, mode, lib) == SumOver(nodes, s, v, G2, mode, lib)
    decreases |s|
  {
    if s != [] {
      SumOverFrame(nodes, s[1..], v, G1, G2, mode, lib);
    }
  }

  /** Sweeping a list in which no node is an operand of an earlier one leaves
      each grad at its starting value plus what every swept node added, each
      using its final grad. */
  lemma {:induction false} SweepAccumulates(nodes: seq<Node>, g: seq<real>, s: seq<nat>, mode: Mode, lib: Libm)
    requires Acyclic(nodes) && |g| == |nodes| && InArena(nodes, s)
    requires forall i, j :: 0 <= i < j < |s| ==> s[j] !in Children(nodes[s[i]].op)
    ensures var G := Sweep(nodes, g, s, mode, lib);
      forall v :: 0 <= v < |nodes| ==> G[v] == g[v] + SumOver(nodes, s, v, G, mode, lib)
    decreases |s|
  {
    if s != [] {
      var rest := s[1..];
      assert forall i, j :: 0 <= i < j < |rest| ==> rest[j] !in Children(nodes[rest[i]].op) by {
        forall i, j | 0 <= i < j < |rest| ensures rest[j] !in Children(nodes[rest[i]].op) {
          assert rest[i] == s[i + 1] && rest[j] == s[j + 1];
        }
      }
      SweepAccumulates(nodes, g, rest, mode, lib);
      var G' := Sweep(nodes, g, rest, mode, lib);
      var w := s[0];
      var G := Step(nodes, G', w, mode, lib);
      assert G == Sweep(nodes, g, s, mode, lib);
      StepFrame(nodes, G', w, mode, lib);
      StepContrib(nodes, G', w, mode, lib);
      forall k | 0 <= k < |rest| ensures G[rest[k]] == G'[rest[k]] {
        assert rest[k] == s[k + 1];
      }
      forall v | 0 <= v < |nodes| ensures G[v] == g[v] + SumOver(nodes, s, v, G, mode, lib) {
        SumOverFrame(nodes, rest, v, G, G', mode, lib);
      }
    }
  }

  /** Adding one node to the set a range sum filters on adds its term. */
  lemma {:induction false} RangeSumInsert(nodes: seq<Node>, S: set<nat>, w: nat, v: nat, G: seq<real>, lo: nat, hi: nat, mode: Mode, lib: Libm)
    requires Acyclic(nodes) && |G| == |nodes| && hi <= |nodes|
    requires w !in S && lo <= w < hi
    ensures RangeSum(nodes, S + {w}, v, G, lo, hi, mode, lib) ==
      RangeSum(nodes, S, v, G, lo, hi, mode, lib) + Contrib(nodes, w, v, G[w], mode, lib)
    decreases hi
  {
    if w < hi - 1 {
      RangeSumInsert(nodes, S, w, v, G, lo, hi - 1, mode, lib);
    } else {
      RangeSumOutside(nodes, S, w, v, G, lo, hi - 1, mode, lib);
    }
  }

  /** A range sum does not see members of the set outside its range. */
  lemma {:induction false} RangeSumOutside(nodes: seq<Node>, S: set<nat>, w: nat, v: nat, G: seq<real>, lo: nat, hi: nat, mode: Mode, lib: Libm)
    requires Acyclic(nodes) && |G| == |nodes| && hi <= |nodes| && hi <= w
    ensures RangeSum(nodes, S + {w}, v, G, lo, hi, mode, lib) == RangeSum(nodes, S, v, G, lo, hi, mode, lib)
    decreases hi
  {
    if lo < hi {
      RangeSumOutside(nodes, S, w, v, G, lo, hi - 1, mode, lib);
    }
  }

  function Elements(s: seq<nat>): set<nat>
  {
    set k | 0 <= k < |s| :: s[k]
  }

  /** Summing over a list without repetitions is summing over its set, in index order. */
  lemma {:induction false} SumOverIsRangeSum(nodes: seq<Node>, s: seq<nat>, v: nat, G: seq<real>, mode: Mode, lib: Libm)
    requires Acyclic(nodes) && |G| == |nodes| && InArena(nodes, s) && Distinct(s)
    ensures SumOver(nodes, s, v, G, mode, lib) == RangeSum(nodes, Elements(s), v, G, 0, |nodes|, mode, lib)
    decreases |s|
  {
    if s == [] {
      assert Elements(s) == {};
      RangeSumEmpty(nodes, v, G, 0, |nodes|, mode, lib);
    } else {
      var rest := s[1..];
      assert Elements(s) == Elements(rest) + {s[0]} by {
        forall x | x in Elements(s) ensures x in Elements(rest) + {s[0]} {
          var k :| 0 <= k < |s| && s[k] == x;
          if k > 0 { assert rest[k - 1] == x; }
        }
        forall x | x in Elements(rest) ensures x in Elements(s) {
          var k :| 0 <= k < |rest| && rest[k] == x;
          assert s[k + 1] == x;
        }
      }
      assert s[0] !in Elements(rest);
      SumOverIsRangeSum(nodes, rest, v, G, mode, lib);
      RangeSumInsert(nodes, Elements(rest), s[0], v, G, 0, |nodes|, mode, lib);
    }
  }

  lemma {:induction false} RangeSumEmpty(nodes: seq<Node>, v: nat, G: seq<real>, lo: nat, hi: nat, mode: Mode, lib: Libm)
    requires Acyclic(nodes) && |G| == |nodes| && hi <= |nodes|
    ensures RangeSum(nodes, {}, v, G, lo, hi, mode, lib) == 0.0
    decreases hi
  {
    if lo < hi {
      RangeSumEmpty(nodes, v, G, lo, hi - 1, mode, lib);
    }
  }

  /** A node that is no operand of any member of `S` in range receives nothing. */
  lemma {:induction false} RangeSumNoConsumer(nodes: seq<Node>, S: set<nat>, v: nat, G: seq<real>, lo: nat, hi: nat, mode: Mode, lib: Libm)
    requires Acyclic(nodes) && |G| == |nodes| && hi <= |nodes|
    requires forall u :: lo <= u < hi && u in S ==> v !in Children(nodes[u].op)
    ensures RangeSum(nodes, S, v, G, lo, hi, mode, lib) == 0.0
    decreases hi
  {
    if lo < hi {
      RangeSumNoConsumer(nodes, S, v, G, lo, hi - 1, mode, lib);
    }
  }

  /** A node's incoming sum reads only the grads of later nodes. */
  lemma {:induction false} RangeSumReadsLater(nodes: seq<Node>, S: set<nat>, v: nat, G1: seq<real>, G2: seq<real>, lo: nat, hi: nat, mode: Mode, lib: Libm)
    requires Acyclic(nodes) && |G1| == |nodes| && |G2| == |nodes| && hi <= |nodes|
    requires forall u :: v < u < |nodes| ==> G1[u] == G2[u]
    ensures RangeSum(nodes, S, v, G1, lo, hi, mode, lib) == RangeSum(nodes, S, v, G2, lo, hi, mode, lib)
    decreases hi
  {
    if lo < hi {
      RangeSumReadsLater(nodes, S, v, G1, G2, lo, hi - 1, mode, lib);
      var u := hi - 1;
      if u <= v {
        assert OperandsBelow(nodes[u].op, u);
        assert v !in Children(nodes[u].op);
      }
    }
  }

  /** The adjoint equations have at most one solution: they fix every grad,
      from the last node down to the first. */
  lemma {:induction false} AdjointsUnique(nodes: seq<Node>, root: nat, g: seq<real>, G1: seq<real>, G2: seq<real>, mode: Mode, lib: Libm)
    requires Acyclic(nodes) && root < |nodes| && |g| == |nodes|
    requires Adjoints(nodes, root, g, G1, mode, lib) && Adjoints(nodes, root, g, G2, mode, lib)
    ensures G1 == G2
  {
    AdjointsAgreeFrom(nodes, root, g, G1, G2, 0, mode, lib);
  }

  lemma {:induction false} AdjointsAgreeFrom(nodes: seq<Node>, root: nat, g: seq<real>, G1: seq<real>, G2: seq<real>, k: nat, mode: Mode, lib: Libm)
    requires Acyclic(nodes) && root < |nodes| && |g| == |nodes| && k <= |nodes|
    requires Adjoints(nodes, root, g, G1, mode, lib) && Adjoints(nodes, root, g, G2, mode, lib)
    ensures forall v :: k <= v < |nodes| ==> G1[v] == G2[v]
    decreases |nodes| - k
  {
    if k < |nodes| {
      AdjointsAgreeFrom(nodes, root, g, G1, G2, k + 1, mode, lib);
      RangeSumReadsLater(nodes, Reach(nodes, root), k, G1, G2, 0, |nodes|, mode, lib);
    }
  }

  /** In a topological order no node is an operand of a node listed before it. */
  lemma TopoNoBackEdge(nodes: seq<Node>, root: nat, topo: seq<nat>)
    requires Acyclic(nodes) && root < |nodes| && TopoOrder(nodes, root, topo)
    ensures forall i, j :: 0 <= i < j < |topo| ==> topo[j] !in Children(nodes[topo[i]].op)
  {
  }

  /** The backward pass meets the adjoint equations: seeding the root with 1.0
      and sweeping any topological order of the reachable nodes in reverse
      leaves exactly the grads the chain rule asks for. */
  lemma {:induction false} BackwardSolvesAdjoints(nodes: seq<Node>, root: nat, g: seq<real>, topo: seq<nat>, mode: Mode, lib: Libm)
    requires Acyclic(nodes) && root < |nodes| && |g| == |nodes|
    requires TopoOrder(nodes, root, topo)
    ensures Adjoints(nodes, root, g, Sweep(nodes, g[root := 1.0], topo, mode, lib), mode, lib)
  {
    var g0 := g[root := 1.0];
    var G := Sweep(nodes, g0, topo, mode, lib);
    TopoNoBackEdge(nodes, root, topo);
    SweepAccumulates(nodes, g0, topo, mode, lib);
    forall v | 0 <= v < |nodes|
      ensures G[v] == (if v == root then 1.0 else g[v]) + Incoming(nodes, root, v, G, mode, lib)
    {
      SumOverIsRangeSum(nodes, topo, v, G, mode, lib);
      assert Elements(topo) == Reach(nodes, root);
      assert G[v] == g0[v] + SumOver(nodes, topo, v, G, mode, lib);
      assert SumOver(nodes, topo, v, G, mode, lib) == Incoming(nodes, root, v, G, mode, lib);
      assert g0[v] == if v == root then 1.0 else g[v];
    }
  }

  /** The grads a backward pass leaves do not depend on which topological
      order `build_topo` happened to produce (it iterates the set `_prev`,
      whose order Python does not fix). */
  lemma BackwardOrderIndependent(nodes: seq<Node>, root: nat, g: seq<real>, topo1: seq<nat>, topo2: seq<nat>, mode: Mode, lib: Libm)
    requires Acyclic(nodes) && root < |nodes| && |g| == |nodes|
    requires TopoOrder(nodes, root, topo1) && TopoOrder(nodes, root, topo2)
    ensures Sweep(nodes, g[root := 1.0], topo1, mode, lib) == Sweep(nodes, g[root := 1.0], topo2, mode, lib)
  {
    BackwardSolvesAdjoints(nodes, root, g, topo1, mode, lib);
    BackwardSolvesAdjoints(nodes, root, g, topo2, mode, lib);
    AdjointsUnique(nodes, root, g, Sweep(nodes, g[root := 1.0], topo1, mode, lib), Sweep(nodes, g[root := 1.0], topo2, mode, lib), mode, lib);
  }

  /** What a backward pass leaves, read off the adjoint equations: the root's
      grad is assigned 1.0; a node the root does not reach keeps its grad; a
      reachable node keeps what it held before and gains what its consumers
      add (`+=`, never overwritten). */
  lemma {:induction false} AdjointsShape(nodes: seq<Node>, root: nat, g: seq<real>, G: seq<real>, mode: Mode, lib: Libm)
    requires Acyclic(nodes) && root < |nodes| && |g| == |nodes|
    requires Adjoints(nodes, root, g, G, mode, lib)
    ensures G[root] == 1.0
    ensures forall v :: 0 <= v < |nodes| && v !in Reach(nodes, root) ==> G[v] == g[v]
    ensures forall v :: 0 <= v < |nodes| && v != root ==> G[v] == g[v] + Incoming(nodes, root, v, G, mode, lib)
  {
    var R := Reach(nodes, root);
    RangeSumNoConsumer(nodes, R, root, G, 0, |nodes|, mode, lib);
    forall v | 0 <= v < |nodes| && v !in R ensures G[v] == g[v] {
      forall u | 0 <= u < |nodes| && u in R ensures v !in Children(nodes[u].op) {
        ReachClosed(nodes, root, u);
      }
      RangeSumNoConsumer(nodes, R, v, G, 0, |nodes|, mode, lib);
    }
  }

  /** The state `build_topo` keeps between calls: `topo` lists finished nodes
      without repetition, each after its operands; every finished node has
      been visited. */
  ghost predicate DfsState(nodes: seq<Node>, visited: set<nat>, topo: seq<nat>)
    requires Acyclic(nodes)
  {
    InArena(nodes, topo) && Distinct(topo) && ChildrenFirst(nodes, topo) &&
    Elements(topo) <= visited
  }

  /** A list in which every node comes after its operands holds everything
      its members reach. */
  lemma {:induction false} FinishedReach(nodes: seq<Node>, topo: seq<nat>, v: nat)
    requires Acyclic(nodes) && v < |nodes| && InArena(nodes, topo) && ChildrenFirst(nodes, topo)
    requires v in Elements(topo)
    ensures Reach(nodes, v) <= Elements(topo)
    decreases v
  {
    var k :| 0 <= k < |topo| && topo[k] == v;
    forall c | c in Children(nodes[v].op) ensures Reach(nodes, c) <= Elements(topo) {
      assert c in topo[..k];
      var i :| 0 <= i < k && topo[..k][i] == c;
      assert topo[i] == c;
      FinishedReach(nodes, topo, c);
    }
    ReachThroughChildren(nodes, v, Elements(topo));
  }

  /** Appending a node whose operands are all finished keeps the DFS state. */
  lemma {:induction false} AppendFinished(nodes: seq<Node>, visited: set<nat>, topo: seq<nat>, v: nat)
    requires Acyclic(nodes) && v < |nodes| && DfsState(nodes, visited, topo)
    requires v in visited && v !in Elements(topo)
    requires Children(nodes[v].op) <= Elements(topo)
    ensures DfsState(nodes, visited, topo + [v])
    ensures Elements(topo + [v]) == Elements(topo) + {v}
  {
    var t := topo + [v];
    assert Elements(t) == Elements(topo) + {v} by {
      assert forall k :: 0 <= k < |topo| ==> t[k] == topo[k];
      assert t[|topo|] == v;
    }
    assert ChildrenFirst(nodes, t) by {
      forall k, c | 0 <= k < |t| && c in Children(nodes[t[k]].op) ensures c in t[..k] {
        if k < |topo| {
          assert t[..k] == topo[..k];
        } else {
          assert t[..k] == topo;
        }
      }
    }
    assert Distinct(t) by {
      forall i, j | 0 <= i < j < |t| ensures t[i] != t[j] {
        if j == |topo| { assert t[i] in Elements(topo); }
      }
    }
  }

  /** What an operand reaches, its consumer reaches. */
  lemma ReachOperand(nodes: seq<Node>, v: nat, c: nat)
    requires Acyclic(nodes) && v < |nodes| && c in Children(nodes[v].op)
    ensures c < v && Reach(nodes, c) <= Reach(nodes, v)
  {
    assert OperandsBelow(nodes[v].op, v);
  }

  /** `R` holds the reach of every operand of `v` that is not in `pending`. */
  ghost predicate OperandsCovered(nodes: seq<Node>, v: nat, pending: set<nat>, R: set<nat>)
    requires Acyclic(nodes) && v < |nodes|
  {
    match nodes[v].op
    case Leaf => true
    case Binary(_, a, b) =>
      (a !in pending ==> Reach(nodes, a) <= R) && (b !in pending ==> Reach(nodes, b) <= R)
    case Unary(_, a) => a !in pending ==> Reach(nodes, a) <= R
  }

  /** The reach of `v` is `v` and the reaches of its operands. */
  lemma ReachThroughChildren(nodes: seq<Node>, v: nat, R: set<nat>)
    requires Acyclic(nodes) && v < |nodes|
    requires OperandsCovered(nodes, v, {}, R)
    ensures Reach(nodes, v) <= R + {v}
  {
  }

  /** `build_topo(v)`: if `v` is not yet visited, mark it, visit each member of
      `_prev`, then append `v`. The nodes visited but not finished are those
      on the current call path, all of them created after `v`. */
  method Visit(nodes: seq<Node>, v: nat, visited: set<nat>, topo: seq<nat>) returns (visited': set<nat>, topo': seq<nat>)
    requires Acyclic(nodes) && v < |nodes|
    requires DfsState(nodes, visited, topo)
    requires forall x :: x in visited && x !in Elements(topo) ==> x > v
    ensures DfsState(nodes, visited', topo')
    ensures Elements(topo') == Elements(topo) + Reach(nodes, v)
    ensures visited' == visited + Reach(nodes, v)
    ensures v !in visited ==> |topo'| > 0 && topo'[|topo'| - 1] == v
    ensures |topo| <= |topo'| && topo'[..|topo|] == topo
    decreases v, 1
  {
    if v in visited {
      FinishedReach(nodes, topo, v);
      return visited, topo;
    }
    visited', topo' := VisitOperands(nodes, v, visited + {v}, topo);
    AppendFinished(nodes, visited', topo', v);
    topo' := topo' + [v];
  }

  /** The loop `for child in v._prev: build_topo(child)`, in whatever order
      the set yields its members. */
  method VisitOperands(nodes: seq<Node>, v: nat, visited: set<nat>, topo: seq<nat>) returns (visited': set<nat>, topo': seq<nat>)
    requires Acyclic(nodes) && v < |nodes|
    requires DfsState(nodes, visited, topo) && v in visited && v !in Elements(topo)
    requires forall x :: x in visited && x !in Elements(topo) ==> x >= v
    ensures DfsState(nodes, visited', topo') && v !in Elements(topo')
    ensures Elements(topo') == Elements(topo) + (Reach(nodes, v) - {v})
    ensures visited' == visited + (Reach(nodes, v) - {v})
    ensures Children(nodes[v].op) <= Elements(topo')
    ensures |topo| <= |topo'| && topo'[..|topo|] == topo
    decreases v, 0
  {
    visited', topo' := visited, topo;
    var remaining := Children(nodes[v].op);
    ghost var reached: set<nat> := {};
    while remaining != {}
      invariant remaining <= Children(nodes[v].op)
      invariant DfsState(nodes, visited', topo')
      invariant Elements(topo') == Elements(topo) + reached
      invariant visited' == visited + reached
      invariant reached <= Reach(nodes, v) && v !in reached
      invariant OperandsCovered(nodes, v, remaining, reached)
      invariant |topo| <= |topo'| && topo'[..|topo|] == topo
      decreases remaining
    {
      var c :| c in remaining;
      assert c < v by { assert OperandsBelow(nodes[v].op, v); }
      assert forall x :: x in visited' && x !in Elements(topo') ==> x in visited && x !in Elements(topo);
      visited', topo' := Visit(nodes, c, visited', topo');
      ReachOperand(nodes, v, c);
      reached := reached + Reach(nodes, c);
      remaining := remaining - {c};
    }
    ReachThroughChildren(nodes, v, reached);
  }

  /** `build_topo(self)` from the root, with empty `topo` and `visited`. */
  method BuildTopo(nodes: seq<Node>, root: nat) returns (topo: seq<nat>)
    requires Acyclic(nodes) && root < |nodes|
    ensures TopoOrder(nodes, root, topo)
  {
    var visited;
    visited, topo := Visit(nodes, root, {}, []);
  }
}
