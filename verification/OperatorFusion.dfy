/**
 Pass 2: an activation or Add right after a matrix product is fused into it
 (omni-core/src/mlir/passes.rs:119-186).
 */
module OperatorFusion {
  import opened Prelude
  import opened Dialect
  import opened Semantics

  predicate Fusable(a: OmniOp, b: OmniOp) {
    IsMatMul(a.kind) && a.output in b.inputs && (IsActivation(b.kind) || b.kind.Add?)
  }

  /** The Debug rendering of a fusable kind. */
  function StepName(kind: OpKind): string {
    match kind
    case Relu => "Relu"
    case Gelu => "Gelu"
    case Silu => "Silu"
    case _ => "Add"
  }

  /** The names other than `name`, in order. */
  function Without(names: seq<string>, name: string): seq<string> {
    if names == [] then []
    else
      var k := |names| - 1;
      Without(names[..k], name) + if names[k] == name then [] else [names[k]]
  }

  lemma {:induction false} WithoutSubset(names: seq<string>, name: string)
    ensures forall n :: n in Without(names, name) <==> n in names && n != name
  {
    if names != [] { WithoutSubset(names[..|names| - 1], name); }
  }

  function FusedOp(a: OmniOp, b: OmniOp): OmniOp {
    a.(attrs := a.attrs[FUSED_ACTIVATION := Str(StepName(b.kind))],
       inputs := a.inputs + (if b.kind.Add? then Without(b.inputs, a.output) else []),
       output := b.output,
       resultType := b.resultType)
  }

  function Fuse(ops: seq<OmniOp>): seq<OmniOp> {
    if |ops| < 2 then ops
    else if Fusable(ops[0], ops[1]) then [FusedOp(ops[0], ops[1])] + Fuse(ops[2..])
    else [ops[0]] + Fuse(ops[1..])
  }

  lemma FuseHead(ops: seq<OmniOp>, k: nat)
    requires |ops| >= k == if |ops| >= 2 && Fusable(ops[0], ops[1]) then 2 else 1
    ensures Fuse(ops) == (if k == 2 then [FusedOp(ops[0], ops[1])] else [ops[0]]) + Fuse(ops[k..])
  {
    if |ops| == 1 { assert ops[1..] == [] && ops == [ops[0]] + []; }
  }

  // ---- The same, position by position ----

  /** A matrix product read by an activation or an Add. */
  predicate Matches(a: OmniOp, b: OmniOp) {
    && (a.kind == MatMul || a.kind == BatchedMatMul) && a.output in b.inputs
    && (b.kind == Relu || b.kind == Gelu || b.kind == Silu || b.kind == Add)
  }

  /** The product under b's name and type, with b's kind recorded and an Add's other operands appended. */
  function Merged(a: OmniOp, b: OmniOp): OmniOp {
    var name := if b.kind == Relu then "Relu" else if b.kind == Gelu then "Gelu"
                else if b.kind == Silu then "Silu" else "Add";
    var others := if b.kind == Add then Without(b.inputs, a.output) else [];
    OmniOp(a.id, a.kind, a.inputs + others, b.output, a.attrs["fused_activation" := Str(name)], b.resultType)
  }

  /** From position i on: a consumer of the product before it leaves nothing, a product so consumed is merged. */
  function MergedFrom(ops: seq<OmniOp>, i: nat): seq<OmniOp>
    requires i <= |ops|
    decreases |ops| - i
  {
    if i == |ops| then []
    else if i > 0 && Matches(ops[i - 1], ops[i]) then MergedFrom(ops, i + 1)
    else if i + 1 < |ops| && Matches(ops[i], ops[i + 1]) then [Merged(ops[i], ops[i + 1])] + MergedFrom(ops, i + 1)
    else [ops[i]] + MergedFrom(ops, i + 1)
  }

  lemma MatchesIsFusable(a: OmniOp, b: OmniOp)
    ensures Matches(a, b) <==> Fusable(a, b)
    ensures Matches(a, b) ==> Merged(a, b) == FusedOp(a, b)
  {}

  lemma {:induction false} FuseMerges(ops: seq<OmniOp>, i: nat)
    requires i <= |ops| && (0 < i < |ops| ==> !Matches(ops[i - 1], ops[i]))
    ensures Fuse(ops[i..]) == MergedFrom(ops, i)
    decreases |ops| - i
  {
    if i < |ops| {
      var rest := ops[i..];
      assert rest[1..] == ops[i + 1..];
      if i + 1 < |ops| {
        MatchesIsFusable(ops[i], ops[i + 1]);
        if Matches(ops[i], ops[i + 1]) {
          assert rest[2..] == ops[i + 2..];
          FuseMerges(ops, i + 2);
        } else {
          FuseMerges(ops, i + 1);
        }
      }
    }
  }

  /** Fusion merges exactly the neighbours that match, in place. */
  lemma FuseIsMerged(ops: seq<OmniOp>)
    ensures Fuse(ops) == MergedFrom(ops, 0)
  {
    assert ops[0..] == ops;
    FuseMerges(ops, 0);
  }

  /** A consumer is never itself a producer, so fused pairs cannot overlap. */
  lemma PairsDoNotOverlap(a: OmniOp, b: OmniOp, c: OmniOp)
    requires Fusable(a, b)
    ensures !Fusable(b, c)
  {}

  /** Product results that fusion removes. */
  ghost function FusedAway(ops: seq<OmniOp>): set<string> {
    set i | 0 <= i && i + 1 < |ops| && Fusable(ops[i], ops[i + 1]) :: ops[i].output
  }

  // ---- What a product carries from earlier fusions ----

  predicate Records(a: OmniOp, kind: OpKind) {
    FUSED_ACTIVATION in a.attrs && a.attrs[FUSED_ACTIVATION] == Str(StepName(kind))
  }

  /** A product as it is lifted, or as any number of fusions leave it. */
  predicate Producible(a: OmniOp) {
    if FUSED_ACTIVATION in a.attrs then
      |a.inputs| >= 2 && (Records(a, Relu) || Records(a, Gelu) || Records(a, Silu) || Records(a, Add))
    else |a.inputs| == 2
  }

  /** The step that follows a's product; a recorded Add acts only on exactly one operand besides the factors. */
  function Carried(a: OmniOp): Option<OpKind> {
    if Records(a, Relu) then Some(Relu)
    else if Records(a, Gelu) then Some(Gelu)
    else if Records(a, Silu) then Some(Silu)
    else if Records(a, Add) && |a.inputs| == 3 then Some(Add)
    else None
  }

  predicate ConsumerArity(b: OmniOp) {
    (IsActivation(b.kind) ==> |b.inputs| == 1) && (b.kind.Add? ==> |b.inputs| == 2)
  }

  predicate TypedPair(a: OmniOp, b: OmniOp) { Producible(a) && ConsumerArity(b) }

  /** The product added to itself. */
  predicate SelfAdd(a: OmniOp, b: OmniOp) {
    b.kind.Add? && forall n | n in b.inputs :: n == a.output
  }

  /**
   When b may be fused into a: a carries no step yet (and, for an Add, no operand besides the factors, nor
   is the product added to itself), or both steps are Relu.
   */
  predicate Faithful(a: OmniOp, b: OmniOp) {
    if b.kind.Add? then Carried(a).None? && |a.inputs| == 2 && !SelfAdd(a, b)
    else Carried(a).None? || (Carried(a) == Some(Relu) && b.kind.Relu?)
  }

  ghost predicate TypedPairs(ops: seq<OmniOp>) {
    forall i | 0 <= i && i + 1 < |ops| && Fusable(ops[i], ops[i + 1]) :: TypedPair(ops[i], ops[i + 1])
  }

  ghost predicate FaithfulPairs(ops: seq<OmniOp>) {
    forall i | 0 <= i && i + 1 < |ops| && Fusable(ops[i], ops[i + 1]) :: Faithful(ops[i], ops[i + 1])
  }

  /** Only the consumer reads a fused product. */
  ghost predicate SingleUse(ops: seq<OmniOp>) {
    forall i, j | 0 <= i && i + 2 <= j < |ops| && Fusable(ops[i], ops[i + 1]) :: ops[i].output !in ops[j].inputs
  }

  // ---- Meaning ----

  lemma StepNamesDiffer()
    ensures StepName(Relu) != StepName(Gelu) && StepName(Relu) != StepName(Silu) && StepName(Gelu) != StepName(Silu)
    ensures StepName(Relu) != StepName(Add) && StepName(Gelu) != StepName(Add) && StepName(Silu) != StepName(Add)
  {
    assert StepName(Relu)[0] == 'R' && StepName(Gelu)[0] == 'G' && StepName(Silu)[0] == 'S' && StepName(Add)[0] == 'A';
  }

  lemma ElementwiseSymmetric(sem: Model, t: TensorType, x: Tensor, y: Tensor)
    ensures Elementwise(sem, Add, t, x, y) == Elementwise(sem, Add, t, y, x)
  {
    assert Elementwise(sem, Add, t, x, y).data == Elementwise(sem, Add, t, y, x).data;
  }

  /** A product with what it carries: the first two arguments multiplied, then the step. */
  function Finish(sem: Model, step: Option<OpKind>, t: TensorType, core: Tensor, args: seq<Tensor>): Tensor {
    match step
    case None => core
    case Some(kind) =>
      if !kind.Add? then Pointwise(sem, kind, core)
      else if |args| == 3 then Elementwise(sem, Add, t, core, args[2])
      else core
  }

  function Factors(sem: Model, a: OmniOp, args: seq<Tensor>): Tensor
    requires |args| >= 2
  {
    Core(sem, a.kind, a.attrs, args[..2])
  }

  lemma ApplyProduct(sem: Model, a: OmniOp, args: seq<Tensor>)
    requires IsMatMul(a.kind) && Producible(a) && |args| == |a.inputs|
    ensures Apply(sem, a, args) == Finish(sem, Carried(a), a.resultType, Factors(sem, a, args), args)
  {
    StepNamesDiffer();
    if |args| == 2 { assert args[..2] == args; }
  }

  /** What the fused operation carries is the consumer's step. */
  lemma FusedCarries(a: OmniOp, b: OmniOp)
    requires Fusable(a, b) && TypedPair(a, b)
    ensures Producible(FusedOp(a, b))
    ensures Carried(FusedOp(a, b)) == if !b.kind.Add? then Some(b.kind)
                                      else if |FusedOp(a, b).inputs| == 3 then Some(Add) else None
  {
    StepNamesDiffer();
  }

  /** The fused operation multiplies exactly as the product alone does. */
  lemma FusedFactors(sem: Model, a: OmniOp, b: OmniOp, args: seq<Tensor>, more: seq<Tensor>)
    requires |args| >= 2 && |more| >= 2 && more[..2] == args[..2]
    ensures Factors(sem, FusedOp(a, b), more) == Factors(sem, a, args)
  {
    assert FusedOp(a, b).attrs - OPTIMISER_KEYS == a.attrs - OPTIMISER_KEYS;
  }

  lemma FusedActivation(sem: Model, a: OmniOp, b: OmniOp, env: Env)
    requires Fusable(a, b) && TypedPair(a, b) && IsActivation(b.kind)
    ensures Apply(sem, FusedOp(a, b), Args(env, FusedOp(a, b).inputs))
            == Pointwise(sem, b.kind, Factors(sem, a, Args(env, a.inputs)))
  {
    var args := Args(env, a.inputs);
    assert FusedOp(a, b).inputs == a.inputs;
    FusedCarries(a, b);
    ApplyProduct(sem, FusedOp(a, b), args);
    FusedFactors(sem, a, b, args, args);
  }

  lemma SequentialActivation(sem: Model, b: OmniOp, mid: Env, name: string)
    requires IsActivation(b.kind) && |b.inputs| == 1 && name in b.inputs
    ensures Apply(sem, b, Args(mid, b.inputs)) == Pointwise(sem, b.kind, Lookup(mid, name))
  {
    assert b.inputs == [name];
    assert Args(mid, b.inputs) == [Lookup(mid, name)];
  }

  lemma ReluTwice(sem: Model, x: Tensor)
    ensures Pointwise(sem, Relu, Pointwise(sem, Relu, x)) == Pointwise(sem, Relu, x)
  {
    assert Pointwise(sem, Relu, Pointwise(sem, Relu, x)).data == Pointwise(sem, Relu, x).data;
  }

  lemma FusedActivationMeaning(sem: Model, a: OmniOp, b: OmniOp, env: Env)
    requires Fusable(a, b) && TypedPair(a, b) && IsActivation(b.kind) && Faithful(a, b)
    ensures Apply(sem, FusedOp(a, b), Args(env, FusedOp(a, b).inputs))
            == Apply(sem, b, Args(EvalOp(sem, a, env), b.inputs))
  {
    FusedActivation(sem, a, b, env);
    SequentialActivation(sem, b, EvalOp(sem, a, env), a.output);
    ApplyProduct(sem, a, Args(env, a.inputs));
    ReluTwice(sem, Factors(sem, a, Args(env, a.inputs)));
  }

  lemma WithoutOne(names: seq<string>, name: string, k: nat)
    requires |names| == 2 && k < 2 && names[k] != name && names[1 - k] == name
    ensures Without(names, name) == [names[k]]
  {
    assert Without(names[..1], name) == if names[0] == name then [] else [names[0]] by {
      assert names[..1][..0] == [];
    }
  }

  /** Fused into a product of two factors, an Add adds its other operand. */
  lemma FusedAdd(sem: Model, a: OmniOp, b: OmniOp, env: Env, k: nat)
    requires Fusable(a, b) && TypedPair(a, b) && b.kind.Add? && |a.inputs| == 2
    requires k < 2 && b.inputs[k] != a.output && b.inputs[1 - k] == a.output
    ensures Apply(sem, FusedOp(a, b), Args(env, FusedOp(a, b).inputs))
            == Elementwise(sem, Add, b.resultType, Factors(sem, a, Args(env, a.inputs)), Lookup(env, b.inputs[k]))
  {
    WithoutOne(b.inputs, a.output, k);
    assert FusedOp(a, b).inputs == a.inputs + [b.inputs[k]];
    var args := Args(env, a.inputs + [b.inputs[k]]);
    assert args[..2] == Args(env, a.inputs) == Args(env, a.inputs)[..2];
    FusedCarries(a, b);
    ApplyProduct(sem, FusedOp(a, b), args);
    FusedFactors(sem, a, b, Args(env, a.inputs), args);
  }

  lemma SequentialAdd(sem: Model, b: OmniOp, mid: Env, core: Tensor, bias: Tensor, k: nat)
    requires b.kind.Add? && |b.inputs| == 2 && k < 2
    requires Lookup(mid, b.inputs[k]) == bias && Lookup(mid, b.inputs[1 - k]) == core
    ensures Apply(sem, b, Args(mid, b.inputs)) == Elementwise(sem, Add, b.resultType, core, bias)
  {
    var args := Args(mid, b.inputs);
    assert args[k] == bias && args[1 - k] == core;
    ElementwiseSymmetric(sem, b.resultType, core, bias);
  }

  /** The operand of an Add that is not the product. */
  lemma OtherOperand(a: OmniOp, b: OmniOp) returns (k: nat)
    requires Fusable(a, b) && b.kind.Add? && |b.inputs| == 2 && !SelfAdd(a, b)
    ensures k < 2 && b.inputs[k] != a.output && b.inputs[1 - k] == a.output
  {
    k := if b.inputs[0] == a.output then 1 else 0;
    assert b.inputs == [b.inputs[0], b.inputs[1]];
  }

  lemma FusedAddMeaning(sem: Model, a: OmniOp, b: OmniOp, env: Env)
    requires Fusable(a, b) && TypedPair(a, b) && b.kind.Add? && Faithful(a, b)
    ensures Apply(sem, FusedOp(a, b), Args(env, FusedOp(a, b).inputs))
            == Apply(sem, b, Args(EvalOp(sem, a, env), b.inputs))
  {
    var core, mid := Apply(sem, a, Args(env, a.inputs)), EvalOp(sem, a, env);
    var k := OtherOperand(a, b);
    ApplyProduct(sem, a, Args(env, a.inputs));
    FusedAdd(sem, a, b, env, k);
    SequentialAdd(sem, b, mid, core, Lookup(env, b.inputs[k]), k);
  }

  /** The fused operation computes what the pair computes in sequence. */
  lemma FusedPairMeaning(sem: Model, a: OmniOp, b: OmniOp, env: Env)
    requires Fusable(a, b) && TypedPair(a, b) && Faithful(a, b)
    ensures Apply(sem, FusedOp(a, b), Args(env, FusedOp(a, b).inputs))
            == Apply(sem, b, Args(EvalOp(sem, a, env), b.inputs))
  {
    if b.kind.Add? { FusedAddMeaning(sem, a, b, env); } else { FusedActivationMeaning(sem, a, b, env); }
  }

  lemma SuffixConditions(ops: seq<OmniOp>, k: nat)
    requires TypedPairs(ops) && FaithfulPairs(ops) && SingleUse(ops) && k <= |ops|
    ensures TypedPairs(ops[k..]) && FaithfulPairs(ops[k..]) && SingleUse(ops[k..])
    ensures FusedAway(ops[k..]) <= FusedAway(ops)
  {
    var rest := ops[k..];
    forall i | 0 <= i && i + 1 < |rest| && Fusable(rest[i], rest[i + 1])
      ensures TypedPair(rest[i], rest[i + 1]) && Faithful(rest[i], rest[i + 1]) && rest[i].output in FusedAway(ops)
    {
      assert Fusable(ops[k + i], ops[k + i + 1]) && ops[k + i].output == rest[i].output;
    }
    forall i, j | 0 <= i && i + 2 <= j < |rest| && Fusable(rest[i], rest[i + 1])
      ensures rest[i].output !in rest[j].inputs
    {
      assert Fusable(ops[k + i], ops[k + i + 1]);
      assert ops[k + i].output !in ops[k + j].inputs;
    }
  }

  lemma EvalHead(sem: Model, op: OmniOp, rest: seq<OmniOp>, env: Env)
    ensures Eval(sem, [op] + rest, env) == Eval(sem, rest, EvalOp(sem, op, env))
  {
    EvalConcat(sem, [op], rest, env);
    assert [op] == [] + [op];
    EvalSnoc(sem, [], op, env);
  }

  lemma PairStep(sem: Model, a: OmniOp, b: OmniOp, e1: Env, e2: Env, dead: set<string>)
    requires Fusable(a, b) && TypedPair(a, b) && Faithful(a, b)
    requires AgreeOutside(e1, e2, dead)
    requires forall n | n in dead :: n !in a.inputs && n !in b.inputs
    ensures AgreeOutside(EvalOp(sem, b, EvalOp(sem, a, e1)), EvalOp(sem, FusedOp(a, b), e2), dead + {a.output})
  {
    var fused := FusedOp(a, b);
    FusedPairMeaning(sem, a, b, e1);
    forall n | n in fused.inputs ensures Lookup(e1, n) == Lookup(e2, n) {
      WithoutSubset(b.inputs, a.output);
      assert n in a.inputs || n in b.inputs;
    }
    ArgsAgree(e1, e2, fused.inputs);
  }

  lemma SingleStep(sem: Model, op: OmniOp, e1: Env, e2: Env, dead: set<string>)
    requires AgreeOutside(e1, e2, dead)
    requires forall n | n in dead :: n !in op.inputs
    ensures AgreeOutside(EvalOp(sem, op, e1), EvalOp(sem, op, e2), dead)
  {
    ArgsAgree(e1, e2, op.inputs);
  }

  ghost predicate NeverRead(ops: seq<OmniOp>, dead: set<string>) {
    forall j, n | 0 <= j < |ops| && n in dead :: n !in ops[j].inputs
  }

  lemma AgreeMore(e1: Env, e2: Env, dead: set<string>, more: set<string>)
    requires AgreeOutside(e1, e2, dead) && dead <= more
    ensures AgreeOutside(e1, e2, more)
  {}

  /** After a fused pair, its product joins the names nothing reads. */
  lemma ProductUnread(ops: seq<OmniOp>, dead: set<string>)
    requires |ops| >= 2 && Fusable(ops[0], ops[1]) && SingleUse(ops) && NeverRead(ops, dead)
    ensures NeverRead(ops[2..], dead + {ops[0].output}) && ops[0].output in FusedAway(ops)
  {
    assert Fusable(ops[0], ops[0 + 1]);
    forall j, n | 0 <= j < |ops[2..]| && n in dead + {ops[0].output} ensures n !in ops[2..][j].inputs {
      assert ops[2..][j] == ops[j + 2] && ops[0].output !in ops[j + 2].inputs;
    }
  }

  lemma EvalPair(sem: Model, ops: seq<OmniOp>, e1: Env, e2: Env)
    requires |ops| >= 2 && Fusable(ops[0], ops[1])
    ensures Eval(sem, ops, e1) == Eval(sem, ops[2..], EvalOp(sem, ops[1], EvalOp(sem, ops[0], e1)))
    ensures Eval(sem, Fuse(ops), e2) == Eval(sem, Fuse(ops[2..]), EvalOp(sem, FusedOp(ops[0], ops[1]), e2))
  {
    assert ops == [ops[0]] + ([ops[1]] + ops[2..]);
    EvalHead(sem, ops[0], [ops[1]] + ops[2..], e1);
    EvalHead(sem, ops[1], ops[2..], EvalOp(sem, ops[0], e1));
    EvalHead(sem, FusedOp(ops[0], ops[1]), Fuse(ops[2..]), e2);
  }

  lemma EvalSingle(sem: Model, ops: seq<OmniOp>, e1: Env, e2: Env)
    requires ops != [] && (|ops| >= 2 ==> !Fusable(ops[0], ops[1]))
    ensures Eval(sem, ops, e1) == Eval(sem, ops[1..], EvalOp(sem, ops[0], e1))
    ensures Eval(sem, Fuse(ops), e2) == Eval(sem, Fuse(ops[1..]), EvalOp(sem, ops[0], e2))
  {
    assert ops == [ops[0]] + ops[1..] && Fuse(ops) == [ops[0]] + Fuse(ops[1..]);
    EvalHead(sem, ops[0], ops[1..], e1);
    EvalHead(sem, ops[0], Fuse(ops[1..]), e2);
  }

  /** One step of both runs: a fused pair on one side, or the same operation on both. */
  lemma FusionStep(sem: Model, ops: seq<OmniOp>, e1: Env, e2: Env, dead: set<string>)
    returns (k: nat, end1: Env, end2: Env, dead': set<string>)
    requires ops != [] && TypedPairs(ops) && FaithfulPairs(ops) && SingleUse(ops)
    requires AgreeOutside(e1, e2, dead) && NeverRead(ops, dead)
    ensures 1 <= k <= |ops|
    ensures AgreeOutside(end1, end2, dead') && NeverRead(ops[k..], dead') && dead' <= dead + FusedAway(ops)
    ensures Eval(sem, ops, e1) == Eval(sem, ops[k..], end1)
    ensures Eval(sem, Fuse(ops), e2) == Eval(sem, Fuse(ops[k..]), end2)
  {
    if |ops| >= 2 && Fusable(ops[0], ops[1]) {
      assert TypedPair(ops[0], ops[0 + 1]) && Faithful(ops[0], ops[0 + 1]);
      PairStep(sem, ops[0], ops[1], e1, e2, dead);
      ProductUnread(ops, dead);
      EvalPair(sem, ops, e1, e2);
      k, dead' := 2, dead + {ops[0].output};
      end1, end2 := EvalOp(sem, ops[1], EvalOp(sem, ops[0], e1)), EvalOp(sem, FusedOp(ops[0], ops[1]), e2);
    } else {
      SingleStep(sem, ops[0], e1, e2, dead);
      EvalSingle(sem, ops, e1, e2);
      k, dead' := 1, dead;
      end1, end2 := EvalOp(sem, ops[0], e1), EvalOp(sem, ops[0], e2);
    }
  }

  /** Simulation: the two runs may differ only on names that nothing reads any more. */
  lemma {:induction false} FusionSimulates(sem: Model, ops: seq<OmniOp>, e1: Env, e2: Env, dead: set<string>)
    requires TypedPairs(ops) && FaithfulPairs(ops) && SingleUse(ops)
    requires AgreeOutside(e1, e2, dead) && NeverRead(ops, dead)
    ensures AgreeOutside(Eval(sem, ops, e1), Eval(sem, Fuse(ops), e2), dead + FusedAway(ops))
    decreases |ops|
  {
    if ops != [] {
      var k, end1, end2, dead' := FusionStep(sem, ops, e1, e2, dead);
      SuffixConditions(ops, k);
      FusionSimulates(sem, ops[k..], end1, end2, dead');
      AgreeMore(Eval(sem, ops, e1), Eval(sem, Fuse(ops), e2), dead' + FusedAway(ops[k..]), dead + FusedAway(ops));
    }
  }

  /** Every name but the fused-away products keeps its value. */
  lemma FusionPreservesMeaning(sem: Model, ops: seq<OmniOp>, env: Env)
    requires TypedPairs(ops) && FaithfulPairs(ops) && SingleUse(ops)
    ensures AgreeOutside(Eval(sem, ops, env), Eval(sem, Fuse(ops), env), FusedAway(ops))
  {
    FusionSimulates(sem, ops, env, env, {});
  }

  // ---- Counting and the last operation ----

  function PairCount(ops: seq<OmniOp>): nat {
    if |ops| < 2 then 0 else (if Fusable(ops[0], ops[1]) then 1 else 0) + PairCount(ops[1..])
  }

  lemma {:induction false} FuseLength(ops: seq<OmniOp>)
    ensures |Fuse(ops)| == |ops| - PairCount(ops)
    decreases |ops|
  {
    if |ops| >= 2 {
      if Fusable(ops[0], ops[1]) {
        FuseLength(ops[2..]);
        assert ops[1..][1..] == ops[2..];
        if |ops| > 2 { PairsDoNotOverlap(ops[0], ops[1], ops[2]); }
      } else {
        FuseLength(ops[1..]);
      }
    }
  }

  ghost predicate LastPairFused(ops: seq<OmniOp>) {
    |ops| >= 2 && Fusable(ops[|ops| - 2], ops[|ops| - 1])
  }

  /** The last fused operation is the last pair or the last operation. */
  lemma {:induction false} LastAfterFusion(ops: seq<OmniOp>)
    requires ops != []
    ensures Fuse(ops) != []
    ensures Fuse(ops)[|Fuse(ops)| - 1] ==
            if LastPairFused(ops) then FusedOp(ops[|ops| - 2], ops[|ops| - 1]) else ops[|ops| - 1]
    decreases |ops|
  {
    if |ops| >= 2 {
      var k := if Fusable(ops[0], ops[1]) then 2 else 1;
      FuseHead(ops, k);
      if |ops| > k {
        LastAfterFusion(ops[k..]);
        if |ops| == 3 && k == 2 { PairsDoNotOverlap(ops[0], ops[1], ops[2]); }
      }
    }
  }

  /** Fusion invents no name. */
  lemma {:induction false} FusedOutputsExist(ops: seq<OmniOp>, op: OmniOp)
    requires op in Fuse(ops)
    ensures exists i :: 0 <= i < |ops| && ops[i].output == op.output
    decreases |ops|
  {
    if |ops| >= 2 {
      var k := if Fusable(ops[0], ops[1]) then 2 else 1;
      var rest, first := ops[k..], Fuse(ops)[0];
      assert Fuse(ops) == [first] + Fuse(rest) && first.output == ops[k - 1].output;
      if op != first {
        FusedOutputsExist(rest, op);
        var i :| 0 <= i < |rest| && rest[i].output == op.output;
        assert ops[i + k].output == op.output;
      }
    }
  }

  lemma {:induction false} UniqueAfterFusion(ops: seq<OmniOp>)
    requires UniqueOutputs(ops)
    ensures UniqueOutputs(Fuse(ops))
    decreases |ops|
  {
    if |ops| >= 2 {
      var k := if Fusable(ops[0], ops[1]) then 2 else 1;
      var rest, tail := ops[k..], Fuse(ops[k..]);
      UniqueAfterFusion(rest);
      assert Fuse(ops) == [Fuse(ops)[0]] + tail && Fuse(ops)[0].output == ops[k - 1].output;
      forall j | 0 <= j < |tail| ensures tail[j].output != ops[k - 1].output {
        FusedOutputsExist(rest, tail[j]);
        var i :| 0 <= i < |rest| && rest[i].output == tail[j].output;
        assert ops[i + k].output != ops[k - 1].output;
      }
    }
  }

  // ---- What the fused module contains ----

  /** Every fusable pair is fused. */
  lemma {:induction false} PairIsFused(ops: seq<OmniOp>, i: nat)
    requires i + 1 < |ops| && Fusable(ops[i], ops[i + 1])
    ensures FusedOp(ops[i], ops[i + 1]) in Fuse(ops)
    decreases |ops|
  {
    if i > 0 {
      var k := if Fusable(ops[0], ops[1]) then 2 else 1;
      if k == 2 { PairsDoNotOverlap(ops[0], ops[1], ops[2]); }
      assert ops[k..][i - k] == ops[i] && ops[k..][i - k + 1] == ops[i + 1];
      PairIsFused(ops[k..], i - k);
      assert Fuse(ops) == [Fuse(ops)[0]] + Fuse(ops[k..]);
    }
  }

  lemma DefinesHead(op: OmniOp, rest: seq<OmniOp>, n: string)
    ensures Defines([op] + rest, n) <==> op.output == n || Defines(rest, n)
  {
    var ops := [op] + rest;
    assert op in ops;
    if Defines(rest, n) {
      var d :| d in rest && d.output == n;
      assert d in ops;
    }
  }

  lemma FusedAwayTail(ops: seq<OmniOp>, n: string)
    requires |ops| >= 2
    ensures Fusable(ops[0], ops[1]) ==> (n in FusedAway(ops) <==> n == ops[0].output || n in FusedAway(ops[2..]))
    ensures !Fusable(ops[0], ops[1]) ==> (n in FusedAway(ops) <==> n in FusedAway(ops[1..]))
  {
    var k := if Fusable(ops[0], ops[1]) then 2 else 1;
    var rest := ops[k..];
    if n in FusedAway(ops) {
      var i :| 0 <= i && i + 1 < |ops| && Fusable(ops[i], ops[i + 1]) && ops[i].output == n;
      if i >= k { assert Fusable(rest[i - k], rest[i - k + 1]) && rest[i - k].output == n; }
    }
    if n in FusedAway(rest) {
      var i :| 0 <= i && i + 1 < |rest| && Fusable(rest[i], rest[i + 1]) && rest[i].output == n;
      assert Fusable(ops[i + k], ops[i + k + 1]) && ops[i + k].output == n;
    }
    if k == 2 { assert Fusable(ops[0], ops[0 + 1]); }
  }

  lemma FusedAwayIsDefined(ops: seq<OmniOp>, n: string)
    requires n in FusedAway(ops)
    ensures Defines(ops, n)
  {
    var i :| 0 <= i && i + 1 < |ops| && Fusable(ops[i], ops[i + 1]) && ops[i].output == n;
    assert ops[i] in ops;
  }

  lemma HeadNotIn(ops: seq<OmniOp>, k: nat, n: string)
    requires UniqueOutputs(ops) && k <= |ops| && Defines(ops[k..], n)
    ensures forall i | 0 <= i < k :: ops[i].output != n
  {
    var d :| d in ops[k..] && d.output == n;
    var j :| k <= j < |ops| && ops[j] == d;
  }

  /** Fusion removes the definitions of the products it fuses away, and no other definition. */
  lemma {:induction false} DefinesAfterFusion(ops: seq<OmniOp>, n: string)
    requires UniqueOutputs(ops)
    ensures Defines(Fuse(ops), n) <==> Defines(ops, n) && n !in FusedAway(ops)
    decreases |ops|
  {
    if |ops| >= 2 {
      var k := if Fusable(ops[0], ops[1]) then 2 else 1;
      var rest := ops[k..];
      DefinesAfterFusion(rest, n);
      DefinesHead(Fuse(ops)[0], Fuse(rest), n);
      assert Fuse(ops) == [Fuse(ops)[0]] + Fuse(rest) && Fuse(ops)[0].output == ops[k - 1].output;
      DefinesHead(ops[0], ops[1..], n);
      assert ops == [ops[0]] + ops[1..];
      if k == 2 {
        DefinesHead(ops[1], rest, n);
        assert ops[1..] == [ops[1]] + rest;
      }
      FusedAwayTail(ops, n);
      if Defines(rest, n) { HeadNotIn(ops, k, n); }
      if n in FusedAway(rest) { FusedAwayIsDefined(rest, n); }
    }
  }
}
