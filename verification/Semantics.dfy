/**
 What a module means: an interpreter over tensors of reals.

 Fill, Add, Mul, Relu, Gelu, Silu and the two-dimensional MatMul are concrete.  Every other
 operation, `exp`, `erf`, run-time dimensions and the broadcasting index map are parameters, so a
 statement proved for all semantics holds whatever those do.
 */
module Semantics {
  import opened Matrices
  import opened Dialect

  datatype Tensor = Tensor(shape: seq<nat>, data: seq<real>)

  type Env = map<string, Tensor>
  type Attrs = map<string, AttrValue>

  datatype Model = Model(
    dims: TensorType -> seq<nat>,
    align: (seq<nat>, seq<nat>, int) -> int,
    exp: real -> real,
    erf: real -> real,
    product: (OpKind, Attrs, seq<Tensor>) -> Tensor,
    other: (OpKind, Attrs, TensorType, seq<Tensor>) -> Tensor)

  const FUSED_ACTIVATION := "fused_activation"
  const TILE_M := "tile_m"
  const TILE_N := "tile_n"
  const TILE_K := "tile_k"
  const VECTOR_WIDTH := "vector_width"

  /** Attributes the optimiser adds; an operation's mathematics does not depend on the tiling ones. */
  const OPTIMISER_KEYS: set<string> := {FUSED_ACTIVATION, TILE_M, TILE_N, TILE_K, VECTOR_WIDTH}

  lemma KeysDiffer()
    ensures FUSED_ACTIVATION !in {TILE_M, TILE_N, TILE_K, VECTOR_WIDTH}
  {
    assert |FUSED_ACTIVATION| == 16 && |TILE_M| == |TILE_N| == |TILE_K| == 6 && |VECTOR_WIDTH| == 12;
  }

  function Size(shape: seq<nat>): nat {
    if shape == [] then 1 else shape[0] * Size(shape[1..])
  }

  function Max(x: real, y: real): real { if x < y then y else x }
  function Quotient(x: real, y: real): real { if y == 0.0 then 0.0 else x / y }

  /** The scalar activations, with the constants of the emitted kernels. */
  function Activate(sem: Model, kind: OpKind, x: real): real {
    match kind
    case Relu => Max(x, 0.0)
    case Gelu => x * 0.5 * (1.0 + sem.erf(x * 0.70710678))
    case Silu => Quotient(x, 1.0 + sem.exp(-x))
    case _ => x
  }

  predicate IsActivation(kind: OpKind) { kind.Relu? || kind.Gelu? || kind.Silu? }

  function Pointwise(sem: Model, kind: OpKind, x: Tensor): (r: Tensor)
    ensures |r.data| == |x.data|
  {
    Tensor(x.shape, seq(|x.data|, i requires 0 <= i < |x.data| => Activate(sem, kind, x.data[i])))
  }

  /** The element of x that meets position i of a result of the given shape. */
  function Pick(sem: Model, x: Tensor, shape: seq<nat>, i: int): real {
    var j := sem.align(x.shape, shape, i);
    if 0 <= j < |x.data| then x.data[j] else 0.0
  }

  function Combine(kind: OpKind, x: real, y: real): real {
    if kind.Mul? then x * y else x + y
  }

  /** Add or Mul of two tensors, broadcast to the dimensions of t. */
  function Elementwise(sem: Model, kind: OpKind, t: TensorType, x: Tensor, y: Tensor): Tensor {
    var shape := sem.dims(t);
    Tensor(shape, seq(Size(shape), i => Combine(kind, Pick(sem, x, shape, i), Pick(sem, y, shape, i))))
  }

  function Filled(sem: Model, t: TensorType, v: real): Tensor {
    Tensor(sem.dims(t), seq(Size(sem.dims(t)), _ => v))
  }

  predicate Conformable(x: Tensor, y: Tensor) {
    && |x.shape| == 2 && |y.shape| == 2 && x.shape[1] == y.shape[0]
    && |x.data| == x.shape[0] * x.shape[1] && |y.data| == y.shape[0] * y.shape[1]
  }

  function MatrixProduct(x: Tensor, y: Tensor): Tensor
    requires Conformable(x, y)
  {
    var m, k, n := x.shape[0], x.shape[1], y.shape[1];
    Tensor([m, n], Flat(m, n, Matrices.Mul(k, View(x.data, k), View(y.data, n))))
  }

  /** The operands of a product are an m by k and a k by n matrix. */
  lemma ConformableIff(x: Tensor, y: Tensor)
    ensures Conformable(x, y) <==>
            exists m: nat, k: nat, n: nat ::
              x.shape == [m, k] && y.shape == [k, n] && |x.data| == m * k && |y.data| == k * n
  {
    if Conformable(x, y) { assert x.shape == [x.shape[0], x.shape[1]] && y.shape == [x.shape[1], y.shape[1]]; }
  }

  /** Entry (r, c) of the product is row r times column c. */
  lemma ProductEntry(x: Tensor, y: Tensor, m: nat, k: nat, n: nat, r: nat, c: nat)
    requires Conformable(x, y) && x.shape == [m, k] && y.shape == [k, n] && r < m && c < n
    ensures var out := MatrixProduct(x, y);
            && out.shape == [m, n] && |out.data| == m * n && 0 <= r * n + c < |out.data|
            && out.data[r * n + c] == Dot(k, View(x.data, k), View(y.data, n), r, c)
  {
    var product := Matrices.Mul(k, View(x.data, k), View(y.data, n));
    FlatCell(m, n, product, r, c);
    CellIsEntry(Flat(m, n, product), m, n, r, c);
  }

  /** The product an unfused MatMul or BatchedMatMul computes. */
  function Core(sem: Model, kind: OpKind, attrs: Attrs, args: seq<Tensor>): Tensor {
    if kind.MatMul? && |args| == 2 && Conformable(args[0], args[1]) then MatrixProduct(args[0], args[1])
    else sem.product(kind, attrs - OPTIMISER_KEYS, args)
  }

  /** A fused product: the first two arguments are multiplied, then the recorded step is applied. */
  function Apply(sem: Model, op: OmniOp, args: seq<Tensor>): Tensor {
    if IsMatMul(op.kind) then
      if FUSED_ACTIVATION in op.attrs && op.attrs[FUSED_ACTIVATION].Str? && |args| >= 2 then
        var core := Core(sem, op.kind, op.attrs, args[..2]);
        var step := op.attrs[FUSED_ACTIVATION].s;
        if step == "Relu" then Pointwise(sem, Relu, core)
        else if step == "Gelu" then Pointwise(sem, Gelu, core)
        else if step == "Silu" then Pointwise(sem, Silu, core)
        else if step == "Add" && |args| == 3 then Elementwise(sem, Add, op.resultType, core, args[2])
        else core
      else Core(sem, op.kind, op.attrs, args)
    else if op.kind.Fill? then Filled(sem, op.resultType, op.kind.value)
    else if (op.kind.Add? || op.kind.Mul?) && |args| == 2 then
        Elementwise(sem, op.kind, op.resultType, args[0], args[1])
    else if IsActivation(op.kind) && |args| == 1 then Pointwise(sem, op.kind, args[0])
    else sem.other(op.kind, op.attrs - OPTIMISER_KEYS, op.resultType, args)
  }

  function Lookup(env: Env, name: string): Tensor {
    if name in env then env[name] else Tensor([], [])
  }

  function Args(env: Env, names: seq<string>): (r: seq<Tensor>)
    ensures |r| == |names| && forall i | 0 <= i < |names| :: r[i] == Lookup(env, names[i])
  {
    seq(|names|, i requires 0 <= i < |names| => Lookup(env, names[i]))
  }

  function EvalOp(sem: Model, op: OmniOp, env: Env): Env {
    env[op.output := Apply(sem, op, Args(env, op.inputs))]
  }

  /** Runs the operations in order. */
  function Eval(sem: Model, ops: seq<OmniOp>, env: Env): Env {
    if ops == [] then env
    else EvalOp(sem, ops[|ops| - 1], Eval(sem, ops[..|ops| - 1], env))
  }

  lemma EvalSnoc(sem: Model, ops: seq<OmniOp>, op: OmniOp, env: Env)
    ensures Eval(sem, ops + [op], env) == EvalOp(sem, op, Eval(sem, ops, env))
  {
    assert (ops + [op])[..|ops|] == ops;
  }

  lemma {:induction false} EvalConcat(sem: Model, a: seq<OmniOp>, b: seq<OmniOp>, env: Env)
    ensures Eval(sem, a + b, env) == Eval(sem, b, Eval(sem, a, env))
  {
    if b == [] {
      assert a + b == a;
    } else {
      var k := |b| - 1;
      EvalConcat(sem, a, b[..k], env);
      assert (a + b)[..|a + b| - 1] == a + b[..k];
    }
  }

  /** The two environments give every name outside `dead` the same value. */
  ghost predicate AgreeOutside(e1: Env, e2: Env, dead: set<string>) {
    forall n: string | n !in dead :: Lookup(e1, n) == Lookup(e2, n)
  }

  lemma ArgsAgree(e1: Env, e2: Env, names: seq<string>)
    requires forall n | n in names :: Lookup(e1, n) == Lookup(e2, n)
    ensures Args(e1, names) == Args(e2, names)
  {
    forall i | 0 <= i < |names| ensures Args(e1, names)[i] == Args(e2, names)[i] { assert names[i] in names; }
  }

  /** With unique names, a name keeps the value its only definition gave it. */
  lemma {:induction false} ValueAt(sem: Model, ops: seq<OmniOp>, env: Env, j: nat)
    requires UniqueOutputs(ops) && j < |ops|
    ensures Lookup(Eval(sem, ops, env), ops[j].output)
            == Apply(sem, ops[j], Args(Eval(sem, ops[..j], env), ops[j].inputs))
  {
    var k := |ops| - 1;
    if j < k {
      assert ops[j].output != ops[k].output;
      ValueAt(sem, ops[..k], env, j);
      assert ops[..k][..j] == ops[..j];
    }
  }

  /** The value of the second of two neighbours, from the environment before the first. */
  lemma NeighbourValue(sem: Model, ops: seq<OmniOp>, env: Env, i: nat)
    requires UniqueOutputs(ops) && i + 1 < |ops|
    ensures Lookup(Eval(sem, ops, env), ops[i + 1].output)
            == Apply(sem, ops[i + 1], Args(EvalOp(sem, ops[i], Eval(sem, ops[..i], env)), ops[i + 1].inputs))
  {
    ValueAt(sem, ops, env, i + 1);
    assert ops[..i + 1] == ops[..i] + [ops[i]];
    EvalSnoc(sem, ops[..i], ops[i], env);
  }

  // ---- One by one tensors, for examples ----

  function Unit(x: real): Tensor { Tensor([1, 1], [x]) }

  lemma UnitProduct(x: real, y: real)
    ensures Conformable(Unit(x), Unit(y)) && MatrixProduct(Unit(x), Unit(y)) == Unit(x * y)
  {
    var a, b := View([x], 1), View([y], 1);
    assert Dot(0, a, b, 0, 0) == 0.0;
    assert Dot(1, a, b, 0, 0) == x * y;
    FlatCell(1, 1, Matrices.Mul(1, a, b), 0, 0);
    assert Flat(1, 1, Matrices.Mul(1, a, b)) == [x * y];
  }

  /** The semantics in which t is the type of a 1 by 1 tensor. */
  ghost predicate UnitType(sem: Model, t: TensorType) {
    sem.dims(t) == [1, 1] && sem.align([1, 1], [1, 1], 0) == 0
  }

  lemma UnitElementwise(sem: Model, kind: OpKind, t: TensorType, x: Tensor, y: Tensor)
    requires sem.dims(t) == [1, 1]
    ensures Elementwise(sem, kind, t, x, y) == Unit(Combine(kind, Pick(sem, x, [1, 1], 0), Pick(sem, y, [1, 1], 0)))
  {
    assert Size([1, 1]) == 1 by { assert [1, 1][1..] == [1] && [1][1..] == []; }
    assert Elementwise(sem, kind, t, x, y).data == [Combine(kind, Pick(sem, x, [1, 1], 0), Pick(sem, y, [1, 1], 0))];
  }

  lemma UnitPointwise(sem: Model, kind: OpKind, x: real)
    ensures Pointwise(sem, kind, Unit(x)) == Unit(Activate(sem, kind, x))
  {
    assert Pointwise(sem, kind, Unit(x)).data == [Activate(sem, kind, x)];
  }
}
