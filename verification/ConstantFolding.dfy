/** Pass 1: Add and Mul of known constants become Fill (omni-core/src/mlir/passes.rs:70-108). */
module ConstantFolding {
  import opened Dialect
  import opened Semantics

  predicate Foldable(op: OmniOp, consts: map<string, real>) {
    (op.kind.Add? || op.kind.Mul?) && |op.inputs| >= 2 && forall x | x in op.inputs :: x in consts
  }

  function FoldOp(op: OmniOp, consts: map<string, real>): OmniOp {
    if Foldable(op, consts) then
      assert op.inputs[0] in op.inputs && op.inputs[1] in op.inputs;
      op.(kind := Fill(Combine(op.kind, consts[op.inputs[0]], consts[op.inputs[1]])))
    else op
  }

  function Learn(op: OmniOp, consts: map<string, real>): map<string, real> {
    if op.kind.Fill? then consts[op.output := op.kind.value] else consts
  }

  /** The folded operations and the constants known after them. */
  function FoldAll(ops: seq<OmniOp>): (seq<OmniOp>, map<string, real>) {
    if ops == [] then ([], map[])
    else
      var (out, consts) := FoldAll(ops[..|ops| - 1]);
      var op := FoldOp(ops[|ops| - 1], consts);
      (out + [op], Learn(op, consts))
  }

  function Fold(ops: seq<OmniOp>): seq<OmniOp> { FoldAll(ops).0 }

  /** Every Add or Mul whose operands are all known has two of them; with fewer the source panics. */
  ghost predicate FoldSafe(ops: seq<OmniOp>) {
    forall p | 0 <= p < |ops| && (ops[p].kind.Add? || ops[p].kind.Mul?) && |ops[p].inputs| < 2 ::
      exists x :: x in ops[p].inputs && x !in FoldAll(ops[..p]).1
  }

  /** Folding changes nothing but kinds, and those only from Add or Mul to Fill. */
  lemma {:induction false} FoldKeepsShape(ops: seq<OmniOp>)
    ensures |Fold(ops)| == |ops|
    ensures forall i | 0 <= i < |ops| :: Fold(ops)[i] == ops[i].(kind := Fold(ops)[i].kind)
    ensures forall i | 0 <= i < |ops| :: Fold(ops)[i].kind == ops[i].kind
                                         || ((ops[i].kind.Add? || ops[i].kind.Mul?) && Fold(ops)[i].kind.Fill?)
  {
    if ops != [] { FoldKeepsShape(ops[..|ops| - 1]); }
  }

  lemma {:induction false} FoldPrefix(ops: seq<OmniOp>, k: nat)
    requires k <= |ops|
    ensures |Fold(ops)| == |ops| && Fold(ops[..k]) == Fold(ops)[..k]
  {
    FoldKeepsShape(ops);
    if k == |ops| {
      assert ops[..k] == ops;
    } else {
      var init := ops[..|ops| - 1];
      FoldPrefix(init, k);
      assert init[..k] == ops[..k];
      FoldKeepsShape(init);
    }
  }

  /** The constants known after a prefix are exactly the outputs of its folded Fills. */
  lemma {:induction false} KnownConstants(ops: seq<OmniOp>)
    ensures |Fold(ops)| == |ops|
    ensures forall n: string :: n in FoldAll(ops).1 <==>
                                exists q :: 0 <= q < |ops| && Fold(ops)[q].kind.Fill? && ops[q].output == n
  {
    FoldKeepsShape(ops);
    if ops != [] {
      var init := ops[..|ops| - 1];
      KnownConstants(init);
      FoldPrefix(ops, |ops| - 1);
      forall n: string
        ensures n in FoldAll(ops).1 <==> exists q :: 0 <= q < |ops| && Fold(ops)[q].kind.Fill? && ops[q].output == n
      {
        if n in FoldAll(init).1 {
          var q :| 0 <= q < |init| && Fold(init)[q].kind.Fill? && init[q].output == n;
          assert Fold(ops)[q].kind.Fill? && ops[q].output == n;
        }
        if exists q :: 0 <= q < |ops| && Fold(ops)[q].kind.Fill? && ops[q].output == n {
          var q :| 0 <= q < |ops| && Fold(ops)[q].kind.Fill? && ops[q].output == n;
          if q < |init| { assert Fold(init)[q].kind.Fill? && init[q].output == n; }
        }
      }
    }
  }

  /** With unique names the value known for a name is that of the Fill that defines it. */
  lemma {:induction false} KnownValue(ops: seq<OmniOp>, q: nat)
    requires UniqueOutputs(ops) && q < |ops| && |Fold(ops)| == |ops| && Fold(ops)[q].kind.Fill?
    ensures ops[q].output in FoldAll(ops).1 && FoldAll(ops).1[ops[q].output] == Fold(ops)[q].kind.value
  {
    var k := |ops| - 1;
    FoldKeepsShape(ops);
    if q < k {
      FoldPrefix(ops, k);
      KnownValue(ops[..k], q);
      assert ops[q].output != ops[k].output;
    }
  }

  /** x is the output of an operation before p that is a Fill, folded or not. */
  ghost predicate FilledBefore(ops: seq<OmniOp>, p: nat, x: string)
    requires p < |ops| == |Fold(ops)|
  {
    exists q: nat :: q < p && Fold(ops)[q].kind.Fill? && ops[q].output == x
  }

  lemma FoldedAt(ops: seq<OmniOp>, p: nat)
    requires p < |ops|
    ensures |Fold(ops)| == |ops| && Fold(ops)[p] == FoldOp(ops[p], FoldAll(ops[..p]).1)
  {
    FoldPrefix(ops, p + 1);
    FoldKeepsShape(ops);
    assert ops[..p + 1][..p] == ops[..p];
  }

  lemma KnownIsFilledBefore(ops: seq<OmniOp>, p: nat, x: string)
    requires p < |ops| == |Fold(ops)|
    ensures x in FoldAll(ops[..p]).1 <==> FilledBefore(ops, p, x)
  {
    FoldPrefix(ops, p);
    KnownConstants(ops[..p]);
    if FilledBefore(ops, p, x) {
      var q: nat :| q < p && Fold(ops)[q].kind.Fill? && ops[q].output == x;
      assert Fold(ops[..p])[q].kind.Fill? && ops[..p][q].output == x;
    }
    if x in FoldAll(ops[..p]).1 {
      var q :| 0 <= q < p && Fold(ops[..p])[q].kind.Fill? && ops[..p][q].output == x;
      assert Fold(ops)[q].kind.Fill? && ops[q].output == x;
    }
  }

  lemma KnownBefore(ops: seq<OmniOp>, p: nat, q: nat)
    requires UniqueOutputs(ops) && q < p < |ops| == |Fold(ops)| && Fold(ops)[q].kind.Fill?
    ensures ops[q].output in FoldAll(ops[..p]).1
    ensures FoldAll(ops[..p]).1[ops[q].output] == Fold(ops)[q].kind.value
  {
    FoldPrefix(ops, p);
    KnownValue(ops[..p], q);
  }

  lemma FoldOpValue(op: OmniOp, consts: map<string, real>, n0: string, n1: string, x: real, y: real)
    requires op.inputs == [n0, n1] && n0 in consts && n1 in consts && consts[n0] == x && consts[n1] == y
    ensures op.kind == Add ==> FoldOp(op, consts) == op.(kind := Fill(x + y))
    ensures op.kind == Mul ==> FoldOp(op, consts) == op.(kind := Fill(x * y))
  {
    assert op.inputs[0] == n0 && op.inputs[1] == n1;
    forall x | x in op.inputs ensures x in consts {}
  }

  /** The sum or the product of the two Fills that an Add or Mul reads takes its place. */
  lemma FoldsToValue(ops: seq<OmniOp>, p: nat, q0: nat, q1: nat, x: real, y: real)
    requires UniqueOutputs(ops) && q0 < p && q1 < p < |ops| == |Fold(ops)|
    requires ops[p].inputs == [ops[q0].output, ops[q1].output]
    requires Fold(ops)[q0].kind == Fill(x) && Fold(ops)[q1].kind == Fill(y)
    ensures ops[p].kind == Add ==> Fold(ops)[p] == ops[p].(kind := Fill(x + y))
    ensures ops[p].kind == Mul ==> Fold(ops)[p] == ops[p].(kind := Fill(x * y))
  {
    FoldedAt(ops, p);
    KnownBefore(ops, p, q0);
    KnownBefore(ops, p, q1);
    FoldOpValue(ops[p], FoldAll(ops[..p]).1, ops[q0].output, ops[q1].output, x, y);
  }

  /** Exactly the Adds and Muls that read Fills alone become Fills; nothing else changes. */
  lemma FoldsExactly(ops: seq<OmniOp>, p: nat)
    requires p < |ops| == |Fold(ops)| && |ops[p].inputs| >= 2
    ensures Fold(ops)[p] != ops[p] <==>
            (ops[p].kind == Add || ops[p].kind == Mul) && forall x | x in ops[p].inputs :: FilledBefore(ops, p, x)
  {
    FoldedAt(ops, p);
    forall x | x in ops[p].inputs ensures x in FoldAll(ops[..p]).1 <==> FilledBefore(ops, p, x) {
      KnownIsFilledBefore(ops, p, x);
    }
  }

  // ---- Meaning ----

  /** The broadcasting index map reads inside the smaller operand. */
  ghost predicate Broadcasts(sem: Model, from: seq<nat>, to: seq<nat>) {
    forall i | 0 <= i < Size(to) :: 0 <= sem.align(from, to, i) < Size(from)
  }

  ghost predicate BinaryElementwise(ops: seq<OmniOp>) {
    forall p | 0 <= p < |ops| && (ops[p].kind.Add? || ops[p].kind.Mul?) :: |ops[p].inputs| == 2
  }

  /** Add and Mul are binary, and operands defined in the module broadcast to the result. */
  ghost predicate ElementwiseTyped(sem: Model, ops: seq<OmniOp>) {
    && BinaryElementwise(ops)
    && (forall q, p | 0 <= q < p < |ops| && (ops[p].kind.Add? || ops[p].kind.Mul?) && ops[q].output in ops[p].inputs ::
          Broadcasts(sem, sem.dims(ops[q].resultType), sem.dims(ops[p].resultType)))
  }

  ghost predicate ConstantAt(sem: Model, ops: seq<OmniOp>, env: Env, consts: map<string, real>, n: string, q: int)
    requires 0 <= q < |ops| && n in consts
  {
    ops[q].output == n && Lookup(env, n) == Filled(sem, ops[q].resultType, consts[n])
  }

  ghost predicate ConstantsHold(sem: Model, ops: seq<OmniOp>, env: Env, consts: map<string, real>) {
    forall n | n in consts :: exists q | 0 <= q < |ops| :: ConstantAt(sem, ops, env, consts, n, q)
  }

  lemma PickFilled(sem: Model, a: TensorType, x: real, shape: seq<nat>)
    requires Broadcasts(sem, sem.dims(a), shape)
    ensures forall i | 0 <= i < Size(shape) :: Pick(sem, Filled(sem, a, x), shape, i) == x
  {}

  lemma FilledElementwise(sem: Model, kind: OpKind, t: TensorType, a: TensorType, b: TensorType, x: real, y: real)
    requires Broadcasts(sem, sem.dims(a), sem.dims(t)) && Broadcasts(sem, sem.dims(b), sem.dims(t))
    ensures Elementwise(sem, kind, t, Filled(sem, a, x), Filled(sem, b, y)) == Filled(sem, t, Combine(kind, x, y))
  {
    PickFilled(sem, a, x, sem.dims(t));
    PickFilled(sem, b, y, sem.dims(t));
    assert Elementwise(sem, kind, t, Filled(sem, a, x), Filled(sem, b, y)).data
        == Filled(sem, t, Combine(kind, x, y)).data;
  }

  /** One operation: the folded form computes what the original computes. */
  lemma FoldOpPreserves(sem: Model, ops: seq<OmniOp>, env: Env, consts: map<string, real>)
    requires ops != [] && ElementwiseTyped(sem, ops)
    requires ConstantsHold(sem, ops[..|ops| - 1], env, consts)
    ensures EvalOp(sem, FoldOp(ops[|ops| - 1], consts), env) == EvalOp(sem, ops[|ops| - 1], env)
  {
    var k := |ops| - 1;
    var op := ops[k];
    if Foldable(op, consts) {
      var n0, n1 := op.inputs[0], op.inputs[1];
      assert n0 in op.inputs && n1 in op.inputs;
      var q0 :| 0 <= q0 < k && ConstantAt(sem, ops[..k], env, consts, n0, q0);
      var q1 :| 0 <= q1 < k && ConstantAt(sem, ops[..k], env, consts, n1, q1);
      assert ops[q0].output in op.inputs && ops[q1].output in op.inputs;
      assert Broadcasts(sem, sem.dims(ops[q0].resultType), sem.dims(op.resultType));
      assert Broadcasts(sem, sem.dims(ops[q1].resultType), sem.dims(op.resultType));
      FilledElementwise(sem, op.kind, op.resultType, ops[q0].resultType, ops[q1].resultType, consts[n0], consts[n1]);
      assert Args(env, op.inputs)[0] == Lookup(env, n0) && Args(env, op.inputs)[1] == Lookup(env, n1);
    }
  }

  lemma {:induction false} FoldInvariant(sem: Model, ops: seq<OmniOp>, env: Env)
    requires UniqueOutputs(ops) && ElementwiseTyped(sem, ops)
    ensures Eval(sem, Fold(ops), env) == Eval(sem, ops, env)
    ensures ConstantsHold(sem, ops, Eval(sem, ops, env), FoldAll(ops).1)
  {
    if ops != [] {
      var k := |ops| - 1;
      var init, op := ops[..k], ops[k];
      FoldInvariant(sem, init, env);
      var (out, consts) := FoldAll(init);
      var before, after := Eval(sem, init, env), Eval(sem, ops, env);
      FoldOpPreserves(sem, ops, before, consts);
      EvalSnoc(sem, out, FoldOp(op, consts), env);
      var learned := FoldAll(ops).1;
      forall n | n in learned ensures exists q | 0 <= q < |ops| :: ConstantAt(sem, ops, after, learned, n, q) {
        var folded := FoldOp(op, consts);
        if folded.kind.Fill? && n == op.output {
          assert EvalOp(sem, folded, before) == after;
          assert ConstantAt(sem, ops, after, learned, n, k);
        } else {
          var q :| 0 <= q < k && ConstantAt(sem, init, before, consts, n, q);
          assert ops[q].output != op.output;
          assert ConstantAt(sem, ops, after, learned, n, q);
        }
      }
    }
  }

  /** Folding an SSA module changes the value of no name. */
  lemma FoldPreservesMeaning(sem: Model, ops: seq<OmniOp>, env: Env)
    requires UniqueOutputs(ops) && ElementwiseTyped(sem, ops)
    ensures Eval(sem, Fold(ops), env) == Eval(sem, ops, env)
  {
    FoldInvariant(sem, ops, env);
  }

  // ---- Completeness ----

  /** No Add or Mul survives whose inputs are all outputs of earlier Fills. */
  lemma NothingLeftToFold(ops: seq<OmniOp>, p: nat)
    requires p < |ops| && |Fold(ops)| == |ops|
    requires (Fold(ops)[p].kind.Add? || Fold(ops)[p].kind.Mul?) && |Fold(ops)[p].inputs| >= 2
    ensures exists x | x in Fold(ops)[p].inputs :: forall q | 0 <= q < p ::
            Fold(ops)[q].output == x ==> !Fold(ops)[q].kind.Fill?
  {
    FoldPrefix(ops, p);
    FoldPrefix(ops, p + 1);
    FoldKeepsShape(ops);
    assert ops[..p + 1][..p] == ops[..p];
    var consts := FoldAll(ops[..p]).1;
    assert Fold(ops[..p + 1])[p] == FoldOp(ops[p], consts);
    assert Fold(ops)[p] == FoldOp(ops[p], consts);
    var x :| x in ops[p].inputs && x !in consts;
    KnownConstants(ops[..p]);
    forall q | 0 <= q < p && Fold(ops)[q].output == x ensures !Fold(ops)[q].kind.Fill? {
      assert Fold(ops[..p])[q] == Fold(ops)[q] && ops[..p][q].output == x;
    }
  }

  lemma {:induction false} FoldAllIdempotent(ops: seq<OmniOp>)
    ensures FoldAll(Fold(ops)) == FoldAll(ops)
  {
    if ops != [] {
      var init := ops[..|ops| - 1];
      FoldAllIdempotent(init);
      FoldKeepsShape(ops);
      FoldPrefix(ops, |ops| - 1);
      assert Fold(ops)[..|ops| - 1] == Fold(init);
    }
  }

  lemma FoldIdempotent(ops: seq<OmniOp>)
    ensures Fold(Fold(ops)) == Fold(ops)
  {
    FoldAllIdempotent(ops);
  }

  function StaleOps(t: TensorType, last: OpKind): seq<OmniOp> {
    [OmniOp(0, Fill(1.0), [], "a", map[], t), OmniOp(1, Relu, ["x"], "a", map[], t),
        OmniOp(2, last, ["a", "a"], "b", map[], t)]
  }

  lemma StaleFold(t: TensorType)
    ensures Fold(StaleOps(t, Add)) == StaleOps(t, Fill(2.0))
  {
    var ops := StaleOps(t, Add);
    var c := map["a" := 1.0];
    assert ops[..1][..0] == [] && ops[..2][..1] == ops[..1] && ops[..3] == ops;
    assert FoldAll(ops[..1]).0 == ops[..1] && FoldAll(ops[..1]).1 == c;
    assert FoldAll(ops[..2]).0 == ops[..2] && FoldAll(ops[..2]).1 == c;
    assert FoldOp(ops[2], c) == ops[2].(kind := Fill(2.0));
  }

  lemma StaleA(sem: Model, t: TensorType, env: Env)
    requires Lookup(env, "x") == Tensor([], [5.0])
    ensures Lookup(Eval(sem, StaleOps(t, Add)[..2], env), "a") == Tensor([], [5.0])
  {
    var ops := StaleOps(t, Add);
    assert ops[..2] == ops[..1] + [ops[1]] && ops[..1] == [] + [ops[0]];
    EvalSnoc(sem, ops[..1], ops[1], env);
    EvalSnoc(sem, [], ops[0], env);
    var e := Eval(sem, ops[..1], env);
    assert Args(e, ["x"])[0] == Tensor([], [5.0]);
    assert Pointwise(sem, Relu, Tensor([], [5.0])).data == [5.0];
  }

  /** Without unique names the pass can change meaning: it folds with a constant that was overwritten. */
  lemma StaleConstantChangesMeaning(sem: Model, t: TensorType, env: Env)
    requires sem.dims(t) == [] && sem.align([], [], 0) == 0 && Lookup(env, "x") == Tensor([], [5.0])
    ensures Lookup(Eval(sem, StaleOps(t, Add), env), "b").data == [10.0]
    ensures Lookup(Eval(sem, Fold(StaleOps(t, Add)), env), "b").data == [2.0]
  {
    StaleFold(t);
    forall last ensures Eval(sem, StaleOps(t, last), env) ==
                        EvalOp(sem, StaleOps(t, last)[2], Eval(sem, StaleOps(t, Add)[..2], env))
    {
      assert StaleOps(t, last) == StaleOps(t, Add)[..2] + [StaleOps(t, last)[2]];
      EvalSnoc(sem, StaleOps(t, Add)[..2], StaleOps(t, last)[2], env);
    }
    StaleA(sem, t, env);
    var e := Eval(sem, StaleOps(t, Add)[..2], env);
    assert Args(e, ["a", "a"])[0] == Args(e, ["a", "a"])[1] == Lookup(e, "a");
    assert Pick(sem, Lookup(e, "a"), [], 0) == 5.0;
  }
}
