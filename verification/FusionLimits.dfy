/** Where fusion stops preserving meaning: exact conditions, and a module for each way to fail. */
module FusionLimits {
  import opened Prelude
  import opened Dialect
  import opened Semantics
  import opened OperatorFusion

  // ---- One pair ----

  /** The pair in sequence, from an environment before it. */
  ghost function Sequential(sem: Model, a: OmniOp, b: OmniOp, env: Env): Tensor {
    Apply(sem, b, Args(EvalOp(sem, a, env), b.inputs))
  }

  /** The fused operation from that environment. */
  ghost function Together(sem: Model, a: OmniOp, b: OmniOp, env: Env): Tensor {
    Apply(sem, FusedOp(a, b), Args(env, FusedOp(a, b).inputs))
  }

  /** For this semantics and environment the fused operation computes what the pair computes in sequence. */
  ghost predicate PairAgrees(sem: Model, a: OmniOp, b: OmniOp, env: Env) {
    Together(sem, a, b, env) == Sequential(sem, a, b, env)
  }

  /**
   A semantics for counterexamples: every product is [p, q, q] and everything else has two elements; an Add
   reads a product element by element and anything else at its first; erf and exp are the constant e.
   */
  datatype Lens = Lens(p: real, q: real, e: real)

  function Pair(u: real, v: real): Tensor { Tensor([2], [u, v]) }
  function Triple(u: real, v: real): Tensor { Tensor([3], [u, v, v]) }

  ghost function Probe(z: Lens): Model {
    Model(_ => [2], (from: seq<nat>, _, i: int) => if from == [3] then i else 0,
          _ => z.e, _ => z.e, (_, _, _) => Triple(z.p, z.q), (_, _, _, _) => Pair(1.0, 1.0))
  }

  /** What an Add sees of an operand at position i of its result. */
  function Seen(x: Tensor, i: int): real {
    var j := if x.shape == [3] then i else 0;
    if 0 <= j < |x.data| then x.data[j] else 0.0
  }

  lemma SeenPairTriple(u: real, v: real)
    ensures Seen(Pair(u, v), 0) == Seen(Pair(u, v), 1) == u
    ensures Seen(Triple(u, v), 0) == u && Seen(Triple(u, v), 1) == v
  {
    assert [2][0] != [3][0];
  }

  function Scaled(z: Lens, kind: OpKind, x: real): real {
    match kind
    case Relu => Max(x, 0.0)
    case Gelu => x * 0.5 * (1.0 + z.e)
    case _ => Quotient(x, 1.0 + z.e)
  }

  /** No tensor is a matrix, so no product is computed by the matrix formula. */
  ghost predicate NoMatrices(env: Env) {
    forall n: string :: |Lookup(env, n).shape| < 2
  }

  /** What a product is worth with what it carries. */
  function Worth(z: Lens, a: OmniOp, env: Env): Tensor
    requires Producible(a)
  {
    match Carried(a)
    case None => Triple(z.p, z.q)
    case Some(kind) =>
      if !kind.Add? then Triple(Scaled(z, kind, z.p), Scaled(z, kind, z.q))
      else
        var x := Lookup(env, a.inputs[2]);
        Pair(z.p + Seen(x, 0), z.q + Seen(x, 1))
  }

  lemma ProbeActivate(z: Lens, kind: OpKind, v: real)
    requires IsActivation(kind)
    ensures Activate(Probe(z), kind, v) == Scaled(z, kind, v)
  {}

  lemma ProbeStep(z: Lens, kind: OpKind, u: real, v: real)
    requires IsActivation(kind)
    ensures Pointwise(Probe(z), kind, Triple(u, v)) == Triple(Scaled(z, kind, u), Scaled(z, kind, v))
    ensures Pointwise(Probe(z), kind, Pair(u, v)) == Pair(Scaled(z, kind, u), Scaled(z, kind, v))
  {
    ProbeActivate(z, kind, u);
    ProbeActivate(z, kind, v);
    var x, y := Scaled(z, kind, u), Scaled(z, kind, v);
    assert Pointwise(Probe(z), kind, Triple(u, v)).data == [x, y, y];
    assert Pointwise(Probe(z), kind, Pair(u, v)).data == [x, y];
  }

  function Sum(x: Tensor, y: Tensor): Tensor { Pair(Seen(x, 0) + Seen(y, 0), Seen(x, 1) + Seen(y, 1)) }

  lemma ProbeSum(z: Lens, t: TensorType, x: Tensor, y: Tensor)
    ensures Elementwise(Probe(z), Add, t, x, y) == Sum(x, y)
  {
    assert Size([2]) == 2 by { assert [2][1..] == []; }
    assert Pick(Probe(z), x, [2], 0) == Seen(x, 0) && Pick(Probe(z), x, [2], 1) == Seen(x, 1);
    assert Pick(Probe(z), y, [2], 0) == Seen(y, 0) && Pick(Probe(z), y, [2], 1) == Seen(y, 1);
    assert Elementwise(Probe(z), Add, t, x, y).data == [Seen(x, 0) + Seen(y, 0), Seen(x, 1) + Seen(y, 1)];
  }

  lemma ProbeCore(z: Lens, kind: OpKind, attrs: Attrs, args: seq<Tensor>)
    requires forall x | x in args :: |x.shape| < 2
    ensures Core(Probe(z), kind, attrs, args) == Triple(z.p, z.q)
  {
    if |args| == 2 { assert args[0] in args; }
  }

  lemma ArgsNoMatrices(env: Env, names: seq<string>)
    requires NoMatrices(env)
    ensures forall x | x in Args(env, names) :: |x.shape| < 2
  {
    forall x | x in Args(env, names) ensures |x.shape| < 2 {
      var k :| 0 <= k < |names| && Args(env, names)[k] == x;
      assert x == Lookup(env, names[k]);
    }
  }

  lemma ProbeProduct(z: Lens, a: OmniOp, env: Env)
    requires IsMatMul(a.kind) && Producible(a) && NoMatrices(env)
    ensures Apply(Probe(z), a, Args(env, a.inputs)) == Worth(z, a, env)
  {
    var args := Args(env, a.inputs);
    ApplyProduct(Probe(z), a, args);
    ArgsNoMatrices(env, a.inputs);
    ProbeCore(z, a.kind, a.attrs, args[..2]);
    match Carried(a) {
      case None =>
      case Some(kind) =>
        if kind.Add? {
          ProbeSum(z, a.resultType, Triple(z.p, z.q), args[2]);
          SeenPairTriple(z.p, z.q);
        } else {
          ProbeStep(z, kind, z.p, z.q);
        }
    }
  }

  lemma {:induction false} WithoutAll(names: seq<string>, name: string)
    requires forall n | n in names :: n == name
    ensures Without(names, name) == []
  {
    if names != [] {
      var k := |names| - 1;
      assert names[k] in names;
      forall n | n in names[..k] ensures n == name { assert n in names; }
      WithoutAll(names[..k], name);
    }
  }

  /** Both operands of a self-add disappear. */
  lemma SelfAddInputs(a: OmniOp, b: OmniOp)
    requires SelfAdd(a, b)
    ensures FusedOp(a, b).inputs == a.inputs
  {
    WithoutAll(b.inputs, a.output);
  }

  lemma SequentialActivationWorth(z: Lens, a: OmniOp, b: OmniOp, env: Env)
    requires Fusable(a, b) && TypedPair(a, b) && IsActivation(b.kind) && NoMatrices(env)
    ensures Sequential(Probe(z), a, b, env) == Pointwise(Probe(z), b.kind, Worth(z, a, env))
  {
    ProbeProduct(z, a, env);
    SequentialActivation(Probe(z), b, EvalOp(Probe(z), a, env), a.output);
  }

  lemma ProbeAdd(z: Lens, b: OmniOp, mid: Env, k: nat)
    requires b.kind.Add? && |b.inputs| == 2 && k < 2
    ensures Apply(Probe(z), b, Args(mid, b.inputs)) == Sum(Lookup(mid, b.inputs[1 - k]), Lookup(mid, b.inputs[k]))
  {
    SequentialAdd(Probe(z), b, mid, Lookup(mid, b.inputs[1 - k]), Lookup(mid, b.inputs[k]), k);
    ProbeSum(z, b.resultType, Lookup(mid, b.inputs[1 - k]), Lookup(mid, b.inputs[k]));
  }

  lemma SequentialAddWorth(z: Lens, a: OmniOp, b: OmniOp, k: nat, env: Env)
    requires Fusable(a, b) && TypedPair(a, b) && b.kind.Add? && NoMatrices(env)
    requires k < 2 && b.inputs[1 - k] == a.output && b.inputs[k] != a.output
    ensures Sequential(Probe(z), a, b, env) == Sum(Worth(z, a, env), Lookup(env, b.inputs[k]))
  {
    ProbeProduct(z, a, env);
    ProbeAdd(z, b, EvalOp(Probe(z), a, env), k);
  }

  lemma SequentialSelfAddWorth(z: Lens, a: OmniOp, b: OmniOp, env: Env)
    requires Fusable(a, b) && TypedPair(a, b) && SelfAdd(a, b) && NoMatrices(env)
    ensures Sequential(Probe(z), a, b, env) == Sum(Worth(z, a, env), Worth(z, a, env))
  {
    ProbeProduct(z, a, env);
    assert b.inputs[0] in b.inputs && b.inputs[1] in b.inputs;
    ProbeAdd(z, b, EvalOp(Probe(z), a, env), 0);
  }

  lemma TogetherWorth(z: Lens, a: OmniOp, b: OmniOp, env: Env)
    requires Fusable(a, b) && TypedPair(a, b) && NoMatrices(env)
    ensures Producible(FusedOp(a, b)) && Together(Probe(z), a, b, env) == Worth(z, FusedOp(a, b), env)
  {
    FusedCarries(a, b);
    ProbeProduct(z, FusedOp(a, b), env);
  }

  /** A self-add of a product with one operand besides the factors: fused, it adds that operand instead. */
  predicate LoadedSelfAdd(a: OmniOp, b: OmniOp) { SelfAdd(a, b) && |a.inputs| == 3 }

  /** A product on which each step differs from the step it would replace. */
  function Revealing(a: OmniOp): real { if Carried(a) == Some(Relu) then -3.0 else 3.0 }

  /** The lens for loaded self-adds: products of [-3, -6, -6], and every step yields 0. */
  const DARK: Lens := Lens(-3.0, -6.0, -1.0)

  /** The lens that tells a given pair from its fusion. */
  function LensFor(a: OmniOp, b: OmniOp): Lens {
    if LoadedSelfAdd(a, b) then DARK else Lens(Revealing(a), Revealing(a), 2.0)
  }

  /** What the operands must look like for that. */
  ghost predicate Tells(a: OmniOp, b: OmniOp, e1: Env, e2: Env) {
    && (forall n | n in b.inputs && n != a.output :: Seen(Lookup(e1, n), 0) == Seen(Lookup(e2, n), 0))
    && (LoadedSelfAdd(a, b) ==>
          var x := Lookup(e2, a.inputs[2]);
          Lookup(e1, a.inputs[2]) == x && (Seen(x, 0) == 3.0 ==> Seen(x, 1) != 6.0))
  }

  lemma StepsDiffer(z: Lens, a: OmniOp, kind: OpKind)
    requires z.p == Revealing(a) && z.e == 2.0 && Carried(a).Some? && !Carried(a).value.Add?
    requires IsActivation(kind)
    ensures Scaled(z, Carried(a).value, z.p) != z.p
    ensures !(Carried(a).value.Relu? && kind.Relu?) ==>
              Scaled(z, kind, Scaled(z, Carried(a).value, z.p)) != Scaled(z, kind, z.p)
  {}

  lemma UnfaithfulActivation(a: OmniOp, b: OmniOp, e1: Env, e2: Env)
    requires Fusable(a, b) && TypedPair(a, b) && !Faithful(a, b) && IsActivation(b.kind)
    requires NoMatrices(e1) && NoMatrices(e2)
    ensures Sequential(Probe(LensFor(a, b)), a, b, e1).data != Together(Probe(LensFor(a, b)), a, b, e2).data
  {
    var z := LensFor(a, b);
    SequentialActivationWorth(z, a, b, e1);
    TogetherWorth(z, a, b, e2);
    FusedCarries(a, b);
    var kind := Carried(a).value;
    if kind.Add? {
      var x := Lookup(e1, a.inputs[2]);
      ProbeStep(z, b.kind, z.p + Seen(x, 0), z.q + Seen(x, 1));
    } else {
      ProbeStep(z, b.kind, Scaled(z, kind, z.p), Scaled(z, kind, z.q));
      StepsDiffer(z, a, b.kind);
      assert Together(Probe(z), a, b, e2).data[0] == Scaled(z, b.kind, z.p);
    }
  }

  lemma FusedAddInputs(a: OmniOp, b: OmniOp, k: nat)
    requires b.kind.Add? && |b.inputs| == 2 && k < 2 && b.inputs[k] != a.output && b.inputs[1 - k] == a.output
    ensures FusedOp(a, b).inputs == a.inputs + [b.inputs[k]]
  {
    WithoutOne(b.inputs, a.output, k);
  }

  /** An Add with another operand, fused: only beside two factors does that operand count. */
  lemma FusedAddWorth(z: Lens, a: OmniOp, b: OmniOp, k: nat, env: Env)
    requires Fusable(a, b) && TypedPair(a, b) && b.kind.Add?
    requires k < 2 && b.inputs[k] != a.output && b.inputs[1 - k] == a.output
    ensures Producible(FusedOp(a, b))
    ensures Worth(z, FusedOp(a, b), env) ==
            if |a.inputs| == 2 then Sum(Triple(z.p, z.q), Lookup(env, b.inputs[k])) else Triple(z.p, z.q)
  {
    FusedCarries(a, b);
    FusedAddInputs(a, b, k);
    SeenPairTriple(z.p, z.q);
    if |a.inputs| == 2 { assert FusedOp(a, b).inputs[2] == b.inputs[k]; }
  }

  lemma UnfaithfulAdd(a: OmniOp, b: OmniOp, e1: Env, e2: Env)
    requires Fusable(a, b) && TypedPair(a, b) && !Faithful(a, b) && b.kind.Add? && !SelfAdd(a, b)
    requires NoMatrices(e1) && NoMatrices(e2) && Tells(a, b, e1, e2)
    ensures Sequential(Probe(LensFor(a, b)), a, b, e1).data != Together(Probe(LensFor(a, b)), a, b, e2).data
  {
    var z := LensFor(a, b);
    var k := OtherOperand(a, b);
    assert b.inputs[k] in b.inputs;
    SequentialAddWorth(z, a, b, k, e1);
    TogetherWorth(z, a, b, e2);
    FusedAddWorth(z, a, b, k, e2);
    if |a.inputs| == 2 {
      var kind := Carried(a).value;
      StepsDiffer(z, a, Relu);
      SeenPairTriple(Scaled(z, kind, z.p), Scaled(z, kind, z.q));
      SeenPairTriple(z.p, z.q);
    }
  }

  /** A self-add, fused: the operand the product brings, if it is one, is added instead. */
  lemma FusedSelfAddWorth(z: Lens, a: OmniOp, b: OmniOp, env: Env)
    requires Fusable(a, b) && TypedPair(a, b) && SelfAdd(a, b)
    ensures Producible(FusedOp(a, b))
    ensures Worth(z, FusedOp(a, b), env) ==
            if |a.inputs| == 3 then Sum(Triple(z.p, z.q), Lookup(env, a.inputs[2])) else Triple(z.p, z.q)
  {
    FusedCarries(a, b);
    SelfAddInputs(a, b);
    SeenPairTriple(z.p, z.q);
  }

  /** If the two sides agree at the first position, the operand is seen as 3 there, and as 6 at the second. */
  lemma LoadedWorth(a: OmniOp, env: Env)
    requires Producible(a) && |a.inputs| == 3
    requires var x := Lookup(env, a.inputs[2]); Seen(x, 0) == 3.0 ==> Seen(x, 1) != 6.0
    ensures Sum(Worth(DARK, a, env), Worth(DARK, a, env)) != Sum(Triple(-3.0, -6.0), Lookup(env, a.inputs[2]))
  {
    var x := Lookup(env, a.inputs[2]);
    SeenPairTriple(-3.0, -6.0);
    SeenPairTriple(-3.0 + Seen(x, 0), -6.0 + Seen(x, 1));
    SeenPairTriple(0.0, 0.0);
    var w, y := Worth(DARK, a, env), Triple(-3.0, -6.0);
    assert Seen(w, 0) == Seen(w, 1) == (if Carried(a) == Some(Add) then -3.0 + Seen(x, 0) else 0.0);
    assert Sum(w, w).data[0] != Sum(y, x).data[0] || Sum(w, w).data[1] != Sum(y, x).data[1];
  }

  lemma UnfaithfulSelfAdd(a: OmniOp, b: OmniOp, e1: Env, e2: Env)
    requires Fusable(a, b) && TypedPair(a, b) && SelfAdd(a, b)
    requires NoMatrices(e1) && NoMatrices(e2) && Tells(a, b, e1, e2)
    ensures Sequential(Probe(LensFor(a, b)), a, b, e1).data != Together(Probe(LensFor(a, b)), a, b, e2).data
  {
    var z := LensFor(a, b);
    SequentialSelfAddWorth(z, a, b, e1);
    TogetherWorth(z, a, b, e2);
    FusedSelfAddWorth(z, a, b, e2);
    if |a.inputs| == 3 { LoadedWorth(a, e1); }
  }

  /** Unless the pair is faithful, the probe tells the fused operation from the pair. */
  lemma UnfaithfulPairDiffers(a: OmniOp, b: OmniOp, e1: Env, e2: Env)
    requires Fusable(a, b) && TypedPair(a, b) && !Faithful(a, b)
    requires NoMatrices(e1) && NoMatrices(e2) && Tells(a, b, e1, e2)
    ensures Sequential(Probe(LensFor(a, b)), a, b, e1).data != Together(Probe(LensFor(a, b)), a, b, e2).data
  {
    if !b.kind.Add? {
      UnfaithfulActivation(a, b, e1, e2);
    } else if SelfAdd(a, b) {
      UnfaithfulSelfAdd(a, b, e1, e2);
    } else {
      UnfaithfulAdd(a, b, e1, e2);
    }
  }

  /**
   For every product that any number of runs of the pass can produce: fused and sequential meaning agree for
   all semantics and environments exactly when the pair is faithful.
   */
  lemma FusedPairMeaningIff(a: OmniOp, b: OmniOp)
    requires Fusable(a, b) && TypedPair(a, b)
    ensures (forall sem, env :: PairAgrees(sem, a, b, env)) <==> Faithful(a, b)
  {
    if Faithful(a, b) {
      forall sem, env ensures PairAgrees(sem, a, b, env) { FusedPairMeaning(sem, a, b, env); }
    } else {
      UnfaithfulPairDiffers(a, b, map[], map[]);
      assert !PairAgrees(Probe(LensFor(a, b)), a, b, map[]);
    }
  }

  /** What a product of two factors carries after a first fusion. */
  lemma FirstFusionCarries(a: OmniOp, b0: OmniOp)
    requires Fusable(a, b0) && TypedPair(a, b0) && |a.inputs| == 2 && !SelfAdd(a, b0)
    ensures Producible(FusedOp(a, b0)) && Carried(FusedOp(a, b0)) == Some(b0.kind)
  {
    FusedCarries(a, b0);
    if b0.kind.Add? {
      var k := OtherOperand(a, b0);
      WithoutOne(b0.inputs, a.output, k);
    }
  }

  /** A product of two factors into which b0 was fused takes b without loss exactly when both are Relu. */
  lemma SecondFusionIff(a: OmniOp, b0: OmniOp, b: OmniOp)
    requires Fusable(a, b0) && TypedPair(a, b0) && |a.inputs| == 2 && !SelfAdd(a, b0)
    requires Fusable(FusedOp(a, b0), b) && ConsumerArity(b)
    ensures (forall sem, env :: PairAgrees(sem, FusedOp(a, b0), b, env)) <==> b0.kind.Relu? && b.kind.Relu?
  {
    FirstFusionCarries(a, b0);
    FusedPairMeaningIff(FusedOp(a, b0), b);
    assert Faithful(FusedOp(a, b0), b) <==> b0.kind.Relu? && b.kind.Relu?;
  }

  // ---- A whole module ----

  lemma ProbeApply(z: Lens, op: OmniOp, args: seq<Tensor>)
    requires forall x | x in args :: |x.shape| < 2
    ensures |Apply(Probe(z), op, args).shape| < 2
  {
    if IsMatMul(op.kind) {
      ProbeCore(z, op.kind, op.attrs, args);
      if |args| >= 2 { ProbeCore(z, op.kind, op.attrs, args[..2]); }
    } else if IsActivation(op.kind) && |args| == 1 {
      assert args[0] in args;
    }
  }

  lemma ProbeOp(z: Lens, op: OmniOp, env: Env)
    requires NoMatrices(env)
    ensures NoMatrices(EvalOp(Probe(z), op, env))
  {
    ArgsNoMatrices(env, op.inputs);
    ProbeApply(z, op, Args(env, op.inputs));
    var after := EvalOp(Probe(z), op, env);
    forall n: string ensures |Lookup(after, n).shape| < 2 {
      if n != op.output { assert Lookup(after, n) == Lookup(env, n); }
    }
  }

  lemma {:induction false} ProbeNoMatrices(z: Lens, ops: seq<OmniOp>)
    ensures NoMatrices(Eval(Probe(z), ops, map[]))
  {
    if ops != [] {
      ProbeNoMatrices(z, ops[..|ops| - 1]);
      ProbeOp(z, ops[|ops| - 1], Eval(Probe(z), ops[..|ops| - 1], map[]));
    }
  }

  /** Under the dark lens a tensor is read at its first element unless it is the product or all zeros. */
  ghost predicate Dim(x: Tensor) {
    |x.shape| < 2 && (x.shape == [3] ==> x == Triple(0.0, 0.0) || x == Triple(-3.0, -6.0))
  }

  ghost predicate AllDim(env: Env) { forall n: string :: Dim(Lookup(env, n)) }

  lemma DimSeen(x: Tensor)
    requires Dim(x) && Seen(x, 0) == 3.0
    ensures Seen(x, 1) == 3.0
  {}

  lemma DimStep(kind: OpKind, x: Tensor)
    requires IsActivation(kind) && Dim(x)
    ensures Dim(Pointwise(Probe(DARK), kind, x))
  {
    if x.shape == [3] { ProbeStep(DARK, kind, x.data[0], x.data[1]); }
  }

  lemma DimApply(op: OmniOp, args: seq<Tensor>)
    requires forall x | x in args :: Dim(x)
    ensures Dim(Apply(Probe(DARK), op, args))
  {
    assert [2][0] != [3][0];
    if IsMatMul(op.kind) {
      ProbeCore(DARK, op.kind, op.attrs, args);
      if |args| >= 2 { ProbeCore(DARK, op.kind, op.attrs, args[..2]); }
      forall kind | IsActivation(kind) ensures Dim(Pointwise(Probe(DARK), kind, Triple(-3.0, -6.0))) {
        DimStep(kind, Triple(-3.0, -6.0));
      }
    } else if IsActivation(op.kind) && |args| == 1 {
      assert args[0] in args;
      DimStep(op.kind, args[0]);
    }
  }

  lemma DimOp(op: OmniOp, env: Env)
    requires AllDim(env)
    ensures AllDim(EvalOp(Probe(DARK), op, env))
  {
    var args := Args(env, op.inputs);
    forall x | x in args ensures Dim(x) {
      var k :| 0 <= k < |args| && args[k] == x;
      assert x == Lookup(env, op.inputs[k]);
    }
    DimApply(op, args);
    var after := EvalOp(Probe(DARK), op, env);
    forall n: string ensures Dim(Lookup(after, n)) {
      if n != op.output { assert Lookup(after, n) == Lookup(env, n); }
    }
  }

  lemma {:induction false} DarkRunIsDim(ops: seq<OmniOp>)
    ensures AllDim(Eval(Probe(DARK), ops, map[]))
  {
    if ops != [] {
      DarkRunIsDim(ops[..|ops| - 1]);
      DimOp(ops[|ops| - 1], Eval(Probe(DARK), ops[..|ops| - 1], map[]));
    }
  }

  /** A position where no pair straddles splits the fused module. */
  lemma {:induction false} FuseSplit(ops: seq<OmniOp>, i: nat)
    requires i <= |ops| && (0 < i < |ops| ==> !Fusable(ops[i - 1], ops[i]))
    ensures Fuse(ops) == Fuse(ops[..i]) + Fuse(ops[i..])
    decreases i
  {
    if i == 0 {
      assert ops[..0] == [] && ops[0..] == ops;
    } else if i == |ops| {
      assert ops[..i] == ops && ops[i..] == [];
    } else {
      var k := if Fusable(ops[0], ops[1]) then 2 else 1;
      var rest := ops[k..];
      FuseSplit(rest, i - k);
      assert rest[..i - k] == ops[..i][k..] && rest[i - k..] == ops[i..];
      FuseHead(ops, k);
      FuseHead(ops[..i], k);
      Regroup(if k == 2 then [FusedOp(ops[0], ops[1])] else [ops[0]], Fuse(ops[..i][k..]), Fuse(ops[i..]));
    }
  }

  /** Position i holds the first unfaithful pair. */
  ghost predicate FirstUnfaithful(ops: seq<OmniOp>, i: nat) {
    && i + 1 < |ops| && Fusable(ops[i], ops[i + 1]) && !Faithful(ops[i], ops[i + 1])
    && forall k | 0 <= k < i && Fusable(ops[k], ops[k + 1]) :: Faithful(ops[k], ops[k + 1])
  }

  lemma {:induction false} SomeFirstUnfaithful(ops: seq<OmniOp>, j: nat) returns (i: nat)
    requires j + 1 < |ops| && Fusable(ops[j], ops[j + 1]) && !Faithful(ops[j], ops[j + 1])
    ensures FirstUnfaithful(ops, i)
  {
    if k :| 0 <= k < j && Fusable(ops[k], ops[k + 1]) && !Faithful(ops[k], ops[k + 1]) {
      i := SomeFirstUnfaithful(ops, k);
    } else {
      i := j;
    }
  }

  lemma UnfaithfulPosition(ops: seq<OmniOp>) returns (i: nat)
    requires !FaithfulPairs(ops)
    ensures FirstUnfaithful(ops, i)
  {
    var j :| 0 <= j && j + 1 < |ops| && Fusable(ops[j], ops[j + 1]) && !Faithful(ops[j], ops[j + 1]);
    i := SomeFirstUnfaithful(ops, j);
  }

  /** Up to the first unfaithful pair fusion is faithful, so the pair's operands agree. */
  lemma PrefixAgrees(sem: Model, ops: seq<OmniOp>, i: nat, env: Env)
    requires TypedPairs(ops) && SingleUse(ops) && FirstUnfaithful(ops, i)
    ensures forall n | n in ops[i].inputs || (n in ops[i + 1].inputs && n != ops[i].output) ::
              Lookup(Eval(sem, ops[..i], env), n) == Lookup(Eval(sem, Fuse(ops[..i]), env), n)
  {
    var pre := ops[..i];
    forall k | 0 <= k && k + 1 < |pre| && Fusable(pre[k], pre[k + 1])
      ensures TypedPair(pre[k], pre[k + 1]) && Faithful(pre[k], pre[k + 1])
      ensures pre[k].output !in ops[i].inputs && pre[k].output !in ops[i + 1].inputs
    {
      assert Fusable(ops[k], ops[k + 1]);
    }
    forall k, j | 0 <= k && k + 2 <= j < |pre| && Fusable(pre[k], pre[k + 1]) ensures pre[k].output !in pre[j].inputs {
      assert Fusable(ops[k], ops[k + 1]) && ops[k].output !in ops[j].inputs;
    }
    FusionPreservesMeaning(sem, pre, env);
  }

  lemma FusedValue(sem: Model, ops: seq<OmniOp>, i: nat, env: Env)
    requires UniqueOutputs(ops) && i + 1 < |ops| && Fusable(ops[i], ops[i + 1])
    ensures Lookup(Eval(sem, Fuse(ops), env), ops[i + 1].output)
            == Together(sem, ops[i], ops[i + 1], Eval(sem, Fuse(ops[..i]), env))
  {
    if i > 0 { assert IsMatMul(ops[i].kind); }
    FuseSplit(ops, i);
    var pre, rest := Fuse(ops[..i]), ops[i..];
    assert rest[0] == ops[i] && rest[1] == ops[i + 1];
    assert Fuse(ops) == pre + Fuse(rest) && Fuse(rest)[0] == FusedOp(ops[i], ops[i + 1]);
    UniqueAfterFusion(ops);
    ValueAt(sem, Fuse(ops), env, |pre|);
    assert Fuse(ops)[..|pre|] == pre;
  }

  lemma PrefixTells(ops: seq<OmniOp>, i: nat)
    requires TypedPairs(ops) && SingleUse(ops) && FirstUnfaithful(ops, i)
    ensures var sem := Probe(LensFor(ops[i], ops[i + 1]));
            Tells(ops[i], ops[i + 1], Eval(sem, ops[..i], map[]), Eval(sem, Fuse(ops[..i]), map[]))
  {
    var a, sem := ops[i], Probe(LensFor(ops[i], ops[i + 1]));
    PrefixAgrees(sem, ops, i, map[]);
    if LoadedSelfAdd(ops[i], ops[i + 1]) {
      var x := Lookup(Eval(sem, Fuse(ops[..i]), map[]), a.inputs[2]);
      assert a.inputs[2] in a.inputs;
      DarkRunIsDim(Fuse(ops[..i]));
      if Seen(x, 0) == 3.0 { DimSeen(x); }
    }
  }

  /** The first unfaithful pair of a module changes the value of its consumer. */
  lemma UnfaithfulChangesValue(ops: seq<OmniOp>, i: nat)
    requires UniqueOutputs(ops) && TypedPairs(ops) && SingleUse(ops) && FirstUnfaithful(ops, i)
    ensures var sem, n := Probe(LensFor(ops[i], ops[i + 1])), ops[i + 1].output;
            Lookup(Eval(sem, ops, map[]), n).data != Lookup(Eval(sem, Fuse(ops), map[]), n).data
  {
    var a, b, z := ops[i], ops[i + 1], LensFor(ops[i], ops[i + 1]);
    NeighbourValue(Probe(z), ops, map[], i);
    FusedValue(Probe(z), ops, i, map[]);
    PrefixTells(ops, i);
    ProbeNoMatrices(z, ops[..i]);
    ProbeNoMatrices(z, Fuse(ops[..i]));
    UnfaithfulPairDiffers(a, b, Eval(Probe(z), ops[..i], map[]), Eval(Probe(z), Fuse(ops[..i]), map[]));
  }

  lemma ConsumerNotFusedAway(ops: seq<OmniOp>, i: nat)
    requires UniqueOutputs(ops) && i + 1 < |ops| && Fusable(ops[i], ops[i + 1])
    ensures ops[i + 1].output !in FusedAway(ops)
  {
    forall k | 0 <= k && k + 1 < |ops| && Fusable(ops[k], ops[k + 1]) ensures ops[k].output != ops[i + 1].output {
      assert IsMatMul(ops[k].kind) && !IsMatMul(ops[i + 1].kind);
      assert k != i + 1;
    }
  }

  ghost predicate FusionKeepsMeaning(ops: seq<OmniOp>) {
    forall sem, env :: AgreeOutside(Eval(sem, ops, env), Eval(sem, Fuse(ops), env), FusedAway(ops))
  }

  lemma UnfaithfulBreaksFusion(ops: seq<OmniOp>, i: nat)
    requires UniqueOutputs(ops) && TypedPairs(ops) && SingleUse(ops) && FirstUnfaithful(ops, i)
    ensures !FusionKeepsMeaning(ops)
  {
    UnfaithfulChangesValue(ops, i);
    ConsumerNotFusedAway(ops, i);
    var sem, n := Probe(LensFor(ops[i], ops[i + 1])), ops[i + 1].output;
    var e1, e2 := Eval(sem, ops, map[]), Eval(sem, Fuse(ops), map[]);
    assert Lookup(e1, n) != Lookup(e2, n);
    assert !AgreeOutside(e1, e2, FusedAway(ops));
  }

  lemma FaithfulKeepsMeaning(ops: seq<OmniOp>)
    requires TypedPairs(ops) && SingleUse(ops) && FaithfulPairs(ops)
    ensures FusionKeepsMeaning(ops)
  {
    forall sem, env ensures AgreeOutside(Eval(sem, ops, env), Eval(sem, Fuse(ops), env), FusedAway(ops)) {
      FusionPreservesMeaning(sem, ops, env);
    }
  }

  /** With one reader per product, fusion preserves a module's meaning exactly when every pair is faithful. */
  lemma FusionKeepsMeaningIff(ops: seq<OmniOp>)
    requires UniqueOutputs(ops) && TypedPairs(ops) && SingleUse(ops)
    ensures FusionKeepsMeaning(ops) <==> FaithfulPairs(ops)
  {
    if FaithfulPairs(ops) {
      FaithfulKeepsMeaning(ops);
    } else {
      var i := UnfaithfulPosition(ops);
      UnfaithfulBreaksFusion(ops, i);
    }
  }

  // ---- A second reader ----

  /** Position j is the consumer of a fused pair, so its read of the product disappears. */
  ghost predicate DropsRead(ops: seq<OmniOp>, j: int, n: string)
    requires 0 <= j < |ops|
  {
    j >= 1 && Fusable(ops[j - 1], ops[j]) && n == ops[j - 1].output
  }

  ghost predicate KeepsRead(ops: seq<OmniOp>, n: string) {
    exists j :: 0 <= j < |ops| && n in ops[j].inputs && !DropsRead(ops, j, n)
  }

  lemma ReadsHead(op: OmniOp, rest: seq<OmniOp>, n: string)
    ensures Reads([op] + rest, n) <==> n in op.inputs || Reads(rest, n)
  {
    var ops := [op] + rest;
    if n in op.inputs { assert n in ops[0].inputs; }
    if Reads(rest, n) {
      var j :| 0 <= j < |rest| && n in rest[j].inputs;
      assert n in ops[j + 1].inputs;
    }
  }

  lemma KeepsReadTail(ops: seq<OmniOp>, k: nat, n: string)
    requires 1 <= k <= |ops| && (k < |ops| ==> !Fusable(ops[k - 1], ops[k]))
    ensures KeepsRead(ops, n) <==>
            (exists j :: 0 <= j < k && n in ops[j].inputs && !DropsRead(ops, j, n)) || KeepsRead(ops[k..], n)
  {
    var rest := ops[k..];
    forall j | 0 <= j < |rest| ensures DropsRead(rest, j, n) <==> DropsRead(ops, j + k, n) {}
    if KeepsRead(rest, n) {
      var j :| 0 <= j < |rest| && n in rest[j].inputs && !DropsRead(rest, j, n);
      assert n in ops[j + k].inputs && !DropsRead(ops, j + k, n);
    }
    if KeepsRead(ops, n) {
      var j :| 0 <= j < |ops| && n in ops[j].inputs && !DropsRead(ops, j, n);
      if j >= k { assert n in rest[j - k].inputs && !DropsRead(rest, j - k, n); }
    }
  }

  lemma TypedSuffix(ops: seq<OmniOp>, k: nat)
    requires TypedPairs(ops) && k <= |ops|
    ensures TypedPairs(ops[k..])
  {
    var rest := ops[k..];
    forall i | 0 <= i && i + 1 < |rest| && Fusable(rest[i], rest[i + 1]) ensures TypedPair(rest[i], rest[i + 1]) {
      assert Fusable(ops[i + k], ops[i + k + 1]);
    }
  }

  lemma PairReads(ops: seq<OmniOp>, n: string)
    requires |ops| >= 2 && Fusable(ops[0], ops[1]) && TypedPair(ops[0], ops[1])
    ensures KeepsRead(ops, n) <==> n in FusedOp(ops[0], ops[1]).inputs || KeepsRead(ops[2..], n)
  {
    var a, b := ops[0], ops[1];
    WithoutSubset(b.inputs, a.output);
    if |ops| > 2 { PairsDoNotOverlap(a, b, ops[2]); }
    KeepsReadTail(ops, 2, n);
    assert !DropsRead(ops, 0, n) && (DropsRead(ops, 1, n) <==> n == a.output);
    if n in a.inputs { assert n in ops[0].inputs; }
    if n in b.inputs && n != a.output { assert n in ops[1].inputs; }
  }

  lemma SingleReads(ops: seq<OmniOp>, n: string)
    requires ops != [] && (|ops| >= 2 ==> !Fusable(ops[0], ops[1]))
    ensures KeepsRead(ops, n) <==> n in ops[0].inputs || KeepsRead(ops[1..], n)
  {
    KeepsReadTail(ops, 1, n);
    assert !DropsRead(ops, 0, n);
  }

  /** Fusion keeps every read except each consumer's read of its own product. */
  lemma {:induction false} ReadsAfterFusion(ops: seq<OmniOp>, n: string)
    requires TypedPairs(ops)
    ensures Reads(Fuse(ops), n) <==> KeepsRead(ops, n)
    decreases |ops|
  {
    if ops == [] {
    } else if |ops| >= 2 && Fusable(ops[0], ops[1]) {
      assert TypedPair(ops[0], ops[0 + 1]);
      TypedSuffix(ops, 2);
      ReadsAfterFusion(ops[2..], n);
      ReadsHead(FusedOp(ops[0], ops[1]), Fuse(ops[2..]), n);
      PairReads(ops, n);
    } else {
      TypedSuffix(ops, 1);
      ReadsAfterFusion(ops[1..], n);
      ReadsHead(ops[0], Fuse(ops[1..]), n);
      assert Fuse(ops) == [ops[0]] + Fuse(ops[1..]);
      SingleReads(ops, n);
    }
  }

  lemma ReadAfterDefinition(ops: seq<OmniOp>, i: int, j: int)
    requires DefinedBeforeUse(ops)
    requires 0 <= i < |ops| && 0 <= j < |ops| && ops[i].output in ops[j].inputs
    ensures i < j
  {}

  lemma ProducerOf(ops: seq<OmniOp>, n: string) returns (i: nat)
    requires n in FusedAway(ops)
    ensures i + 1 < |ops| && Fusable(ops[i], ops[i + 1]) && ops[i].output == n
  {
    i :| 0 <= i && i + 1 < |ops| && Fusable(ops[i], ops[i + 1]) && ops[i].output == n;
  }

  lemma DanglingMeansSecondReader(ops: seq<OmniOp>, n: string)
    requires TypedPairs(ops) && DefinedBeforeUse(ops)
    requires n in FusedAway(ops) && Reads(Fuse(ops), n)
    ensures !SingleUse(ops)
  {
    ReadsAfterFusion(ops, n);
    var i := ProducerOf(ops, n);
    var j :| 0 <= j < |ops| && n in ops[j].inputs && !DropsRead(ops, j, n);
    ReadAfterDefinition(ops, i, j);
    assert j != i + 1;
  }

  lemma SecondReaderDangles(ops: seq<OmniOp>, i: int, j: int)
    requires TypedPairs(ops) && UniqueOutputs(ops)
    requires 0 <= i && i + 2 <= j < |ops| && Fusable(ops[i], ops[i + 1]) && ops[i].output in ops[j].inputs
    ensures ops[i].output in FusedAway(ops) && Reads(Fuse(ops), ops[i].output)
  {
    assert ops[i].output != ops[j - 1].output;
    assert !DropsRead(ops, j, ops[i].output);
    ReadsAfterFusion(ops, ops[i].output);
  }

  /** Some operation of the fused module reads a name whose definition fusion removed. */
  ghost predicate Dangles(ops: seq<OmniOp>, n: string) {
    Defines(ops, n) && !Defines(Fuse(ops), n) && Reads(Fuse(ops), n)
  }

  lemma DanglesWhen(ops: seq<OmniOp>, n: string)
    requires UniqueOutputs(ops)
    ensures Dangles(ops, n) <==> n in FusedAway(ops) && Reads(Fuse(ops), n)
  {
    DefinesAfterFusion(ops, n);
    if n in FusedAway(ops) { FusedAwayIsDefined(ops, n); }
  }

  lemma DanglingNeedsSecondReader(ops: seq<OmniOp>, n: string)
    requires TypedPairs(ops) && UniqueOutputs(ops) && DefinedBeforeUse(ops) && Dangles(ops, n)
    ensures !SingleUse(ops)
  {
    DanglesWhen(ops, n);
    DanglingMeansSecondReader(ops, n);
  }

  lemma SecondReaderLeavesDangling(ops: seq<OmniOp>) returns (n: string)
    requires TypedPairs(ops) && UniqueOutputs(ops) && !SingleUse(ops)
    ensures Dangles(ops, n)
  {
    var i, j :| 0 <= i && i + 2 <= j < |ops| && Fusable(ops[i], ops[i + 1]) && ops[i].output in ops[j].inputs;
    n := ops[i].output;
    SecondReaderDangles(ops, i, j);
    DanglesWhen(ops, n);
  }

  /**
   The pass does not check that a product has one reader.  On SSA modules fusion leaves some operation
   reading a name it has undefined exactly when some product had a second reader.
   */
  lemma DanglingReadIff(ops: seq<OmniOp>)
    requires TypedPairs(ops) && UniqueOutputs(ops) && DefinedBeforeUse(ops)
    ensures (exists n :: Dangles(ops, n)) <==> !SingleUse(ops)
  {
    if SingleUse(ops) {
      forall n ensures !Dangles(ops, n) {
        if Dangles(ops, n) { DanglingNeedsSecondReader(ops, n); }
      }
    } else {
      var n := SecondReaderLeavesDangling(ops);
    }
  }

  // ---- A second fusion ----

  lemma FusePairThen(a: OmniOp, b: OmniOp, c: OmniOp)
    requires Fusable(a, b)
    ensures Fuse([a, b, c]) == [FusedOp(a, b), c]
  {
    PairsDoNotOverlap(a, b, c);
    assert [a, b, c][2..] == [c];
  }

  /** Running the pass over an already fused product forgets the first step. */
  lemma FusingTwiceForgets(a: OmniOp, b: OmniOp, c: OmniOp)
    requires Fusable(a, b) && IsActivation(b.kind) && Fusable(FusedOp(a, b), c) && IsActivation(c.kind)
    ensures Fuse(Fuse([a, b, c])) == [FusedOp(a.(output := b.output), c)]
  {
    FusePairThen(a, b, c);
    var once := [FusedOp(a, b), c];
    assert once[2..] == [];
    assert Fuse(once) == [FusedOp(FusedOp(a, b), c)] + [];
    var twice, direct := FusedOp(FusedOp(a, b), c), FusedOp(a.(output := b.output), c);
    assert twice.attrs == direct.attrs;
    assert twice.inputs == direct.inputs;
  }

  // ---- Modules that show each failure ----

  function Op(id: nat, kind: OpKind, inputs: seq<string>, output: string, t: TensorType): OmniOp {
    OmniOp(id, kind, inputs, output, map[], t)
  }

  /** The product c of two 1 by 1 matrices, and what follows. */
  function ProductThen(t: TensorType, rest: seq<OmniOp>): seq<OmniOp> { [Op(0, MatMul, ["a", "b"], "c", t)] + rest }

  function SelfAddModule(t: TensorType): seq<OmniOp> { ProductThen(t, [Op(1, Add, ["c", "c"], "d", t)]) }

  function SecondReaderModule(t: TensorType): seq<OmniOp> {
    ProductThen(t, [Op(1, Relu, ["c"], "d", t), Op(2, Mul, ["c", "d"], "e", t)])
  }

  function TwoStepModule(t: TensorType): seq<OmniOp> {
    ProductThen(t, [Op(1, Gelu, ["c"], "d", t), Op(2, Relu, ["d"], "e", t)])
  }

  ghost predicate UnitInputs(env: Env, x: real, y: real) {
    Lookup(env, "a") == Unit(x) && Lookup(env, "b") == Unit(y) && "c" !in env
  }

  lemma UnitMatMul(sem: Model, t: TensorType, env: Env, x: real, y: real)
    requires UnitInputs(env, x, y)
    ensures EvalOp(sem, Op(0, MatMul, ["a", "b"], "c", t), env) == env["c" := Unit(x * y)]
  {
    assert Args(env, ["a", "b"]) == [Unit(x), Unit(y)];
    UnitProduct(x, y);
  }

  /** The pair c = a·b, d = step(c), one operation or two. */
  lemma UnitPair(sem: Model, t: TensorType, kind: OpKind, env: Env, x: real, y: real)
    requires UnitInputs(env, x, y) && IsActivation(kind)
    ensures var e := EvalOp(sem, Op(1, kind, ["c"], "d", t), EvalOp(sem, Op(0, MatMul, ["a", "b"], "c", t), env));
            Lookup(e, "c") == Unit(x * y) && Lookup(e, "d") == Unit(Activate(sem, kind, x * y))
  {
    var product := Op(0, MatMul, ["a", "b"], "c", t);
    UnitMatMul(sem, t, env, x, y);
    var mid := EvalOp(sem, product, env);
    assert Args(mid, ["c"]) == [Unit(x * y)];
    UnitPointwise(sem, kind, x * y);
  }

  /** The fused operation defines d with the same value, but c is gone. */
  lemma FusedUnitPair(sem: Model, t: TensorType, kind: OpKind, env: Env, x: real, y: real)
    requires UnitInputs(env, x, y) && IsActivation(kind)
    ensures var e := EvalOp(sem, FusedOp(Op(0, MatMul, ["a", "b"], "c", t), Op(1, kind, ["c"], "d", t)), env);
            Lookup(e, "c") == Tensor([], []) && Lookup(e, "d") == Unit(Activate(sem, kind, x * y))
  {
    UnitPair(sem, t, kind, env, x, y);
    FusedPairMeaning(sem, Op(0, MatMul, ["a", "b"], "c", t), Op(1, kind, ["c"], "d", t), env);
  }

  lemma EvalTwo(sem: Model, a: OmniOp, b: OmniOp, env: Env)
    ensures Eval(sem, [a, b], env) == EvalOp(sem, b, EvalOp(sem, a, env))
  {
    assert [a, b] == [a] + ([b] + []);
    EvalHead(sem, a, [b] + [], env);
    EvalHead(sem, b, [], EvalOp(sem, a, env));
  }

  lemma EvalThree(sem: Model, a: OmniOp, b: OmniOp, c: OmniOp, env: Env)
    ensures Eval(sem, [a, b, c], env) == EvalOp(sem, c, EvalOp(sem, b, EvalOp(sem, a, env)))
  {
    assert [a, b, c] == [a] + [b, c];
    EvalHead(sem, a, [b, c], env);
    EvalTwo(sem, b, c, EvalOp(sem, a, env));
  }

  /** 2·A·B becomes A·B. */
  lemma SelfAddHalves(sem: Model, t: TensorType, env: Env)
    requires UnitType(sem, t) && UnitInputs(env, 1.0, 3.0)
    ensures Lookup(Eval(sem, SelfAddModule(t), env), "d").data == [6.0]
    ensures Lookup(Eval(sem, Fuse(SelfAddModule(t)), env), "d").data == [3.0]
  {
    var ops := SelfAddModule(t);
    var mm, add := ops[0], ops[1];
    assert ops == [mm, add];
    UnitMatMul(sem, t, env, 1.0, 3.0);
    EvalTwo(sem, mm, add, env);
    var mid := env["c" := Unit(3.0)];
    assert Args(mid, ["c", "c"]) == [Unit(3.0), Unit(3.0)];
    UnitElementwise(sem, Add, t, Unit(3.0), Unit(3.0));
    SelfAddInputs(mm, add);
    var fused := FusedOp(mm, add);
    assert [mm, add][2..] == [];
    assert Fuse(ops) == [fused] == [fused] + [];
    EvalHead(sem, fused, [], env);
    StepNamesDiffer();
    var args := Args(env, fused.inputs);
    assert args == [Unit(1.0), Unit(3.0)] && args[..2] == args;
    UnitProduct(1.0, 3.0);
  }

  lemma SecondReaderBefore(sem: Model, t: TensorType, env: Env)
    requires UnitType(sem, t) && UnitInputs(env, 1.0, 3.0)
    ensures Lookup(Eval(sem, SecondReaderModule(t), env), "e").data == [9.0]
  {
    var ops := SecondReaderModule(t);
    var mm, relu, mul := ops[0], ops[1], ops[2];
    assert ops == [mm, relu, mul];
    EvalThree(sem, mm, relu, mul, env);
    UnitPair(sem, t, Relu, env, 1.0, 3.0);
    var e := EvalOp(sem, relu, EvalOp(sem, mm, env));
    assert Args(e, ["c", "d"]) == [Unit(3.0), Unit(3.0)];
    UnitElementwise(sem, Mul, t, Unit(3.0), Unit(3.0));
  }

  /** The second reader of c finds nothing: 9 becomes 0. */
  lemma SecondReaderStarves(sem: Model, t: TensorType, env: Env)
    requires UnitType(sem, t) && UnitInputs(env, 1.0, 3.0)
    ensures Lookup(Eval(sem, SecondReaderModule(t), env), "e").data == [9.0]
    ensures Lookup(Eval(sem, Fuse(SecondReaderModule(t)), env), "e").data == [0.0]
  {
    SecondReaderBefore(sem, t, env);
    var ops := SecondReaderModule(t);
    var mm, relu, mul := ops[0], ops[1], ops[2];
    var fused := FusedOp(mm, relu);
    assert ops == [mm, relu, mul];
    FusePairThen(mm, relu, mul);
    EvalTwo(sem, fused, mul, env);
    FusedUnitPair(sem, t, Relu, env, 1.0, 3.0);
    var f := EvalOp(sem, fused, env);
    assert Args(f, ["c", "d"]) == [Tensor([], []), Unit(3.0)];
    UnitElementwise(sem, Mul, t, Tensor([], []), Unit(3.0));
  }

  lemma TwoStepsInSequence(sem: Model, t: TensorType, env: Env)
    requires UnitInputs(env, 1.0, 2.0) && sem.erf(2.0 * 0.70710678) == 0.0
    ensures Lookup(Eval(sem, TwoStepModule(t), env), "e").data == [1.0]
  {
    var ops := TwoStepModule(t);
    var mm, gelu, relu := ops[0], ops[1], ops[2];
    assert ops == [mm, gelu, relu];
    EvalThree(sem, mm, gelu, relu, env);
    UnitPair(sem, t, Gelu, env, 1.0, 2.0);
    var e := EvalOp(sem, gelu, EvalOp(sem, mm, env));
    assert Args(e, ["d"]) == [Unit(1.0)];
    UnitPointwise(sem, Relu, 1.0);
  }

  lemma TwoStepsFusedOnce(sem: Model, t: TensorType, env: Env)
    requires UnitInputs(env, 1.0, 2.0) && sem.erf(2.0 * 0.70710678) == 0.0
    ensures Lookup(Eval(sem, Fuse(TwoStepModule(t)), env), "e").data == [1.0]
  {
    var ops := TwoStepModule(t);
    var fused, relu := FusedOp(ops[0], ops[1]), ops[2];
    FusePairThen(ops[0], ops[1], relu);
    assert ops == [ops[0], ops[1], ops[2]];
    EvalTwo(sem, fused, relu, env);
    FusedUnitPair(sem, t, Gelu, env, 1.0, 2.0);
    var f := EvalOp(sem, fused, env);
    assert Args(f, ["d"]) == [Unit(1.0)];
    UnitPointwise(sem, Relu, 1.0);
  }

  lemma ForgottenStep(sem: Model, t: TensorType, env: Env)
    requires UnitInputs(env, 1.0, 2.0)
    ensures Lookup(Eval(sem, Fuse(Fuse(TwoStepModule(t))), env), "e").data == [2.0]
  {
    var ops := TwoStepModule(t);
    var mm, gelu, relu := ops[0], ops[1], ops[2];
    assert ops == [mm, gelu, relu];
    FusingTwiceForgets(mm, gelu, relu);
    var direct := FusedOp(mm.(output := "d"), relu);
    assert [direct] == [direct] + [];
    EvalHead(sem, direct, [], env);
    FusedPairMeaning(sem, mm.(output := "d"), relu, env);
    assert Args(env, ["a", "b"]) == [Unit(1.0), Unit(2.0)];
    UnitProduct(1.0, 2.0);
    var mid := EvalOp(sem, mm.(output := "d"), env);
    assert Args(mid, ["d"]) == [Unit(2.0)];
    UnitPointwise(sem, Relu, 2.0);
  }

  /** One run leaves the Relu behind the fused Gelu; a second run replaces the Gelu by it: 1 becomes 2. */
  lemma FusingTwiceChangesValue(sem: Model, t: TensorType, env: Env)
    requires UnitInputs(env, 1.0, 2.0) && sem.erf(2.0 * 0.70710678) == 0.0
    ensures var ops := TwoStepModule(t);
            && Lookup(Eval(sem, ops, env), "e").data == [1.0]
            && Lookup(Eval(sem, Fuse(ops), env), "e").data == [1.0]
            && Lookup(Eval(sem, Fuse(Fuse(ops)), env), "e").data == [2.0]
  {
    TwoStepsInSequence(sem, t, env);
    TwoStepsFusedOnce(sem, t, env);
    ForgottenStep(sem, t, env);
  }
}
