# micrograd's scalar autodiff engine, in Dafny

This project models `Value`, the scalar reverse-mode automatic
differentiation engine of micrograd (`micrograd/engine.py`), and proves what
its backward pass computes.

- **The graph** is an arena. Every `Value` the program creates is one `Node`
  (its `data` and the operation that produced it) of a sequence. Operands are
  referred to by index, and an operand always comes before the node that uses
  it, so the graph is acyclic by construction (`arena.dfy`).
- **The grads** are an `array<real>` of the class `Engine.Graph`. Its operator
  methods (`Add`, `Mul`, `Pow`, `Activate`, `Relu`, the derived and reflected
  forms) append nodes, and `Backward` updates the array in place
  (`engine.dfy`).
- **The propagation rules** are the `_backward` closures. Each adds a local
  derivative times `out.grad` to each operand's grad with `+=`
  (`derivatives.dfy`). A local derivative comes from one of three strategies,
  chosen by `Mode`:
  - `Analytic`: the closed forms (`do_autograd = False`).
  - `FiniteDifference(h)`: the forward-difference quotient of `_autograd`
    (`do_autograd = True`). It builds `h_args` by replacing every argument
    that *is* the differentiated node with a fresh leaf holding `data + h`.
  - `PositionalDifference(h)`: the quotient that perturbs only the argument
    position being differentiated.
- **`backward`** is a depth-first `build_topo` guarded by a visited set,
  then a seed of 1.0 and a loop over the reversed list (`backprop.dfy`).
  - The DFS iterates the set `_prev` in an order Python does not fix. The
    model chooses an arbitrary member (`:|`) and proves that the list holds
    each reachable node exactly once, after its operands, with the root last.
  - The grads the loop leaves are characterised by the reverse-mode *adjoint
    equations*: the root holds 1.0, and every other node holds its previous
    grad plus what each reachable consumer's rule feeds back. These
    equations have exactly one solution, so the result does not depend on the
    order the DFS picked.
- **Worked examples** (`scenarios.dfy`):
  - `d = a * b + b ** 3` from the tests, built through the operators and run
    backward twice. Grads are never reset, so the second pass starts from the
    first one's grads.
  - The square `a * a`, on which the finite-difference strategy double-counts.

Python floats are modelled as `real`. `math.exp`, `math.log`, the tanh,
sigmoid and softplus formulas, and `**` with a fractional exponent are the
fields of a `Libm` value: total real functions taken as parameters.

Where the code and its documentation disagree, the model follows the code.
`do_autograd` is `True` at class level (engine.py:13), so the
finite-difference strategy is the default, not the closed-form one. The flag
is read when `_backward` runs, not when the node is built, so it is a
parameter of `Backward`.

## Model

| member | source | states |
|---|---|---|
| `Arena.NatPow` | micrograd/engine.py:150-151 | `x ** n` for a natural exponent: `x ** 0 == 1`, a nonzero base gives a nonzero power, a zero base gives zero for `n > 0` |
| `Arena.Reach` | micrograd/engine.py:210-214 | the nodes `build_topo` reaches from `v` include `v` and none created after it |
| `Arena.ReachClosed` | micrograd/engine.py:213-214 | the operands (`_prev`) of a reachable node are reachable |
| `Arena.ReachTransitive` | micrograd/engine.py:210-214 | what a reachable node reaches, the root reaches |
| `Arena.Children` | micrograd/engine.py:19 | `_prev = set(_children)`: the operands of an operation, a repeated operand once |
| `Arena.BinaryValue` | micrograd/engine.py:45-46 | `_add` and `_mul` (engine.py:61-62): the sum and the product of the operands' data |
| `Arena.PowValue` | micrograd/engine.py:150-151 | Python's float `x ** p`: the exact power for an integer exponent, its reciprocal for a negative one; a fractional exponent, or a zero base with a negative one, goes to `Libm.pow` |
| `Arena.PowValueExponents` | micrograd/engine.py:150-151 | `x ** 0` is 1, `x ** 1` is `x`, `x ** -1` is `1 / x` for nonzero `x` (what `/` relies on), and an integer power of a nonzero base is nonzero |
| `Arena.UnaryValue` | micrograd/engine.py:131-136 | the forward helpers of the one-operand operations (`_tanh`, `_sigmoid`, `_softplus`, `_exp` at engine.py:79-170); `_relu` gives a value that is nonnegative, at least `x`, and equal to `x` or 0 |
| `Derivatives.Perturb` | micrograd/engine.py:28-36 | the `h_args` tuple: every argument that is `wrt` replaced by a fresh leaf holding its data plus `h` |
| `Derivatives.FiniteQuotient` | micrograd/engine.py:37-40 | the value `_autograd` returns: `(f(h_args) - f(args)) * h ** -1` |
| `Derivatives.AnalyticUnary` | micrograd/engine.py:88-90 | the closed-form local derivatives: `1 - out ** 2` for tanh, `out * (1 - out)` for sigmoid (engine.py:108), the sigmoid of `x` for softplus (126), `x > 0` for relu (142), `p * x ** (p - 1)` for powers (161), `out` for exp (180) |
| `Derivatives.LocalDerivative` | micrograd/engine.py:67-73 | the `if self.do_autograd` dispatch of each closure: the closed form, the `_autograd` quotient, or the positional quotient, by mode; `+` always has 1 |
| `Derivatives.Rule` | micrograd/engine.py:51-53 | a closure body as two sequential `+=` on the operands' grads (one for a one-operand rule), each framed by `Derivatives.Bump` |
| `Derivatives.Step` | micrograd/engine.py:67-73 | `_backward()` of node `u` on the grads: the rule with `u`'s local derivatives and `u`'s grad as `out.grad`; its meaning is `Derivatives.StepContrib` |
| `Backprop.Sweep` | micrograd/engine.py:221-222 | `for val in reversed(topo): val._backward()` on the grads |
| `Backprop.TopoOrder` | micrograd/engine.py:207-215 | what `build_topo` leaves: the reachable nodes, each once, every operand before its consumer, the root last |
| `Derivatives.Bump` | micrograd/engine.py:52 | `grad += d * out.grad` changes that one grad by exactly `d * out.grad` and no other |
| `Derivatives.RuleShare` | micrograd/engine.py:51-53 | a closure's two `+=` lines add to each grad the sum of the increments for every operand position holding that node, so `a + a` gives `a` twice `out.grad` |
| `Derivatives.StepContrib` | micrograd/engine.py:67-73 | running node `u`'s `_backward` adds to every grad exactly what `u`'s rule contributes to it, with `u`'s grad read as `out.grad` |
| `Derivatives.StepFrame` | micrograd/engine.py:51-53 | a rule changes only the grads of its own operands and never the grad of its own node |
| `Derivatives.LeafRuleIsNoOp` | micrograd/engine.py:18 | a leaf's `_backward` (`lambda: None`) leaves all grads as they were |
| `Derivatives.PlusRule` | micrograd/engine.py:45-53 | `+` adds `out.grad` to both operands in every mode; for `a + a` the set `_prev` has one member but `a` gains `2 * out.grad` |
| `Derivatives.TimesAnalyticRule` | micrograd/engine.py:71-73 | analytic `*` adds `other.data * out.grad` to `self` and `self.data * out.grad` to `other`; for `a * a` both land on `a` |
| `Derivatives.ReluAnalyticRule` | micrograd/engine.py:142 | analytic `relu` adds `out.grad` exactly when the operand's data is positive, so at 0 it adds nothing |
| `Derivatives.PowerAnalyticRule` | micrograd/engine.py:161 | analytic `x ** p` adds `p * x ** (p - 1) * out.grad` to the base and touches no other grad |
| `Derivatives.PerturbSingleUse` | micrograd/engine.py:29-35 | when the differentiated node occurs once among the arguments, the identity test perturbs exactly its position |
| `Derivatives.TimesDistinctModesAgree` | micrograd/engine.py:68-73 | for `a * b` with distinct operands, the forward difference equals the closed-form partial derivative, for every step `h` |
| `Derivatives.TimesSharedFiniteDifference` | micrograd/engine.py:69-70 | for `a * a`, `_autograd` perturbs both arguments and returns `2x + h` on each of the two lines |
| `Derivatives.TimesPositionalIsExact` | micrograd/engine.py:61-62 | perturbing only the differentiated position gives the exact partial derivative of a product, whether or not the operands coincide |
| `Derivatives.UnaryStrategiesAgree` | micrograd/engine.py:87 | for a one-operand operation the identity test and the positional perturbation coincide |
| `Derivatives.ReluModesAgreeAwayFromZero` | micrograd/engine.py:139-142 | the forward difference of `relu` equals its closed form when `x` and `x + h` lie on the same side of 0 |
| `Derivatives.PerturbArgs` | micrograd/engine.py:28-36 | the loop builds `h_args`: each argument that is the differentiated node becomes a fresh leaf holding `data + h`, every other is kept |
| `Derivatives.Autograd` | micrograd/engine.py:26-40 | `_autograd` returns the difference quotient `(f(h_args) - f(args)) * h ** -1` |
| `Backprop.SweepAccumulates` | micrograd/engine.py:221-222 | after the reversed loop, each grad is its start value plus what every listed node's rule added, each rule using that node's final grad |
| `Backprop.AdjointsUnique` | micrograd/engine.py:206-222 | the adjoint equations of a backward pass fix every grad: two solutions are equal |
| `Backprop.TopoNoBackEdge` | micrograd/engine.py:210-215 | in the list `build_topo` produces no node is an operand of a node listed before it |
| `Backprop.BackwardSolvesAdjoints` | micrograd/engine.py:219-222 | seeding the root with 1.0 and running each rule once in reverse topological order meets the adjoint equations |
| `Backprop.BackwardOrderIndependent` | micrograd/engine.py:213-214 | the grads a backward pass leaves are the same for every topological order the set iteration may produce |
| `Backprop.AdjointsShape` | micrograd/engine.py:220-222 | the root's grad is assigned 1.0; a node the root does not reach keeps its grad; every other node keeps its grad and gains what its consumers add |
| `Backprop.Visit` | micrograd/engine.py:210-215 | `build_topo(v)` marks and finishes exactly the nodes `v` reaches, lists each once after its operands, and appends `v` last when it was not yet visited |
| `Backprop.VisitOperands` | micrograd/engine.py:213-214 | visiting every member of `_prev`, in any order, finishes everything the operands reach, each operand included |
| `Backprop.BuildTopo` | micrograd/engine.py:206-217 | the list holds every node reachable from the root exactly once, each after its operands, the root last |
| `Engine.Graph.NewNode` | micrograd/engine.py:15-21 | a new `Value` has grad 0.0, holds the given data and operation, and leaves every earlier node and grad as it was |
| `Engine.Graph.Input` | micrograd/engine.py:15-21 | `Value(x)` appends a leaf holding `x` |
| `Engine.Graph.Wrap` | micrograd/engine.py:43 | a `Value` operand is used as is; a plain number is wrapped as a new leaf |
| `Engine.Graph.Add` | micrograd/engine.py:42-56 | `self + other` appends exactly one node for a `Value` operand, holding the sum with operands `(self, other)`; for a number it first appends the leaf `Value(other)` and uses it as `other` |
| `Engine.Graph.Mul` | micrograd/engine.py:58-76 | `self * other` appends exactly one node for a `Value` operand, holding the product with operands `(self, other)`; for a number it first appends the leaf `Value(other)` and uses it as `other` |
| `Engine.Graph.Pow` | micrograd/engine.py:147-164 | a `Value` exponent fails the assertion; a zero base with a negative exponent fails as Python does; otherwise a node with `data ** p` whose only operand is the base |
| `Engine.Graph.Activate` | micrograd/engine.py:78-183 | `exp`, `tanh`, `sigmoid`, `softplus` and `relu` append a one-operand node holding the helper's value of the operand's data |
| `Engine.Graph.Relu` | micrograd/engine.py:131-145 | the result's data is `max(0, data)`: nonnegative, at least the operand, and equal to it or to 0 |
| `Engine.Graph.Neg` | micrograd/engine.py:185-186 | `-x` is `x * -1`: it appends the leaf -1 and then the product node `(x, -1)` holding `-x`, nothing else |
| `Engine.Graph.Sub` | micrograd/engine.py:188-189 | `a - b` is `a + (-b)`: for a `Value` `b` it appends the leaf -1, the product node `(b, -1)` and the sum node `(a, -b)`; for a number it appends the leaf `-b` and the sum node `(a, -b)` |
| `Engine.Graph.Div` | micrograd/engine.py:191-192 | `a / b` is `a * b ** -1`: a zero divisor fails and appends nothing; otherwise for a `Value` `b` it appends the power node `b ** -1` and the product node `(a, b ** -1)`, and for a number the leaf `1 / b` and the product node |
| `Engine.Graph.Reciprocal` | micrograd/engine.py:192 | the divisor's `other ** -1`: a zero divisor fails and appends nothing; a `Value` gets the power node `other ** -1`, a number becomes the number `1 / other` |
| `Engine.Graph.RMul` | micrograd/engine.py:194-195 | `k * x` appends the same nodes as `x * k`: the leaf `k`, then the product node `(x, k)` |
| `Engine.Graph.RAdd` | micrograd/engine.py:197-198 | `k + x` appends the same nodes as `x + k`: the leaf `k`, then the sum node `(x, k)` |
| `Engine.Graph.RSub` | micrograd/engine.py:200-201 | `k - x` is `k + (-x)`, which Python runs as `(-x) + k`: the leaf -1, the product node `(x, -1)`, the leaf `k`, and the sum node `(-x, k)` holding `k - x` |
| `Engine.Graph.RDiv` | micrograd/engine.py:203-204 | `k / x` is `k * x ** -1`, which Python runs as `(x ** -1) * k`: fails and appends nothing when `x` is 0; otherwise the power node `x ** -1`, the leaf `k`, and the product node `(x ** -1, k)` |
| `Engine.Graph.LocalRule` | micrograd/engine.py:67-180 | the factor each closure multiplies `out.grad` by: the closed form, or `_autograd`'s quotient, as the mode says |
| `Engine.Graph.Accumulate` | micrograd/engine.py:52 | `operand.grad += d * out.grad` on the grad array |
| `Engine.Graph.Propagate` | micrograd/engine.py:222 | `val._backward()` updates the grads exactly as that node's rule says, `self` first, then `other` |
| `Engine.Graph.Backward` | micrograd/engine.py:206-222 | after `backward()` the grads meet the adjoint equations; the root's grad is 1.0 and unreachable nodes keep their grads |
| `Scenarios.AdjointsBySweep` | micrograd/engine.py:219-222 | any grads meeting the adjoint equations are the sweep of any topological order |
| `Scenarios.ExampleTopo` | micrograd/engine.py:210-217 | `[a, b, a * b, b ** 3, d]` is a valid `build_topo` list for `d = a * b + b ** 3` |
| `Scenarios.ExampleSweep` | micrograd/engine.py:221-222 | the reverse sweep over that list, rule by rule, in closed form |
| `Scenarios.ExampleGrads` | micrograd/engine.py:206-222 | a backward pass from `d` starting from any grads: `d` gets 1.0, `a` gains twice the grad of `a * b`, `b` gains -4 times it plus 12 times the grad of `b ** 3`, `c` keeps its grad |
| `Scenarios.BuildExample` | test/test_engine.py:154-157 | building `a = -4, b = 2, c = a + b, d = a * b + b ** 3` through the operators gives that arena, with fresh grads |
| `Scenarios.Example` | test/test_engine.py:154-157 | `c` is -2, `d` is 0, the first backward pass gives `a` 2 and `b` 8 and leaves `c` at 0, and a second pass, without reset, gives 6 and 24 |
| `Scenarios.SquareGrad` | micrograd/engine.py:69-70 | after `(a * a).backward()`, `a` gains `2x` in closed form and positionally, but `2 * (2x + h)` with `_autograd` |
| `Scenarios.SquareFiniteDifferenceOvercounts` | micrograd/engine.py:31 | at `x = 3` with the class step `h = 1e-8`, `a.grad` is `12.00000002` over the reals (about 12 in floats), not the derivative 6 |
| `Scenarios.SquarePositionalIsExact` | micrograd/engine.py:31 | with only the differentiated position perturbed, `a.grad` is 6 whatever the step |

## Left out

- Floating point: values are `real`. The cancellation error of the forward difference and the overflow of `math.exp` are not modelled.
- The transcendental forward formulas (engine.py:80, 98, 116, 170) and `**` with a fractional exponent are uninterpreted fields of `Libm`. The closed-form rules are stated in terms of `out.data` and `v` only.
- A `ZeroDivisionError` raised inside a closed-form `**` rule, such as `0.0 ** 0.5` differentiated, is not modelled. The model's `x ** (p - 1)` falls back on `Libm.pow` there.
- Python's complex result for a negative base with a fractional exponent is left to `Libm.pow`.
- The class attributes `h` and `do_autograd` are not global state. Both are carried by the `Mode` parameter of `Backward`.
- `__repr__`, `label` and `_op` are diagnostic only and are not modelled.
- Backprop.BuildTopo: `build_topo` is recursive, and CPython raises `RecursionError` once the graph is deeper than the interpreter's recursion limit (1000 frames by default, reached by a chain of about a thousand `+`). The model has no stack bound, so its `BuildTopo` always returns the order.
- The detached `sigmoid()` node that softplus's closed-form rule allocates (engine.py:126) is not added to the graph; only its value is used.
- `Value.__init__` accepts arbitrary children and data. The model's operators always store the forward value, which is the invariant `Engine.Graph.Valid` keeps.
- test/test_engine.py compares against PyTorch with float tolerances. Only its `test_more_ops` expression (its first four lines) is modelled, as `Scenarios.Example`.

## Findings

| source | as written | input that shows it | evidently intended | confidence | as-written member | corrected member |
|---|---|---|---|---|---|---|
| micrograd/engine.py:31 | `_autograd` perturbs every argument that *is* `wrt`; for `a * a` both arguments are `a`, so each of the two lines at engine.py:69-70 adds `(2x + h) * out.grad` | `a = Value(3.0); (a * a).backward()` with the default `do_autograd = True`, `h = 1e-8`: `a.grad` is `12.00000002` over the reals, about 12 in floats; the test at test/test_engine.py:125 builds `z * z` in this mode, but at `z = -10` tanh saturates and hides the difference | each line perturbs only its own argument position, giving `x * out.grad` per line and `2x * out.grad` in total | high, derived by proof; not executed | `Scenarios.SquareFiniteDifferenceOvercounts` | `Scenarios.SquarePositionalIsExact` |
