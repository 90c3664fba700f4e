/** The four passes together (omni-core/src/mlir/passes.rs:46-63): when the module's result survives with its value. */
module Pipeline {
  import opened Dialect
  import opened Semantics
  import opened ConstantFolding
  import opened OperatorFusion
  import opened FusionLimits
  import opened DeadCode
  import opened Passes

  // ---- Folding leaves the pairs alone ----

  /** A matrix product is never mistaken for a constant. */
  lemma ProductIsNotConstant(ops: seq<OmniOp>, i: nat)
    requires UniqueOutputs(ops) && i < |ops| && IsMatMul(ops[i].kind)
    ensures ops[i].output !in FoldAll(ops[..i + 1]).1
  {
    var prefix := ops[..i + 1];
    KnownConstants(prefix);
    FoldKeepsShape(prefix);
    forall q | 0 <= q < |prefix| && Fold(prefix)[q].kind.Fill? ensures prefix[q].output != ops[i].output {
      assert Fold(prefix)[i].kind == ops[i].kind;
      assert q < i && ops[q].output != ops[i].output;
    }
  }

  /** Folding neither creates nor destroys fusable pairs of an SSA module. */
  lemma FoldKeepsFusable(ops: seq<OmniOp>, i: nat)
    requires UniqueOutputs(ops) && i + 1 < |ops| == |Fold(ops)|
    ensures Fusable(Fold(ops)[i], Fold(ops)[i + 1]) <==> Fusable(ops[i], ops[i + 1])
  {
    FoldKeepsShape(ops);
    if Fusable(ops[i], ops[i + 1]) {
      ProductIsNotConstant(ops, i);
      FoldPrefix(ops, i + 2);
      assert ops[..i + 2][..i + 1] == ops[..i + 1];
      FoldKeepsShape(ops[..i + 1]);
      assert Fold(ops)[i + 1] == Fold(ops[..i + 2])[i + 1] == FoldOp(ops[i + 1], FoldAll(ops[..i + 1]).1);
    }
  }

  lemma {:induction false} PairCountCong(a: seq<OmniOp>, b: seq<OmniOp>)
    requires |a| == |b|
    requires forall i | 0 <= i && i + 1 < |a| :: Fusable(a[i], a[i + 1]) <==> Fusable(b[i], b[i + 1])
    ensures PairCount(a) == PairCount(b)
  {
    if |a| >= 2 {
      assert Fusable(a[0], a[0 + 1]) <==> Fusable(b[0], b[0 + 1]);
      forall i | 0 <= i && i + 1 < |a[1..]|
        ensures Fusable(a[1..][i], a[1..][i + 1]) <==> Fusable(b[1..][i], b[1..][i + 1])
      {
        assert Fusable(a[i + 1], a[i + 1 + 1]) <==> Fusable(b[i + 1], b[i + 1 + 1]);
      }
      PairCountCong(a[1..], b[1..]);
    }
  }

  /** What an optimised module relies on; each part is a property of the module before the passes. */
  ghost predicate Admissible(sem: Model, ops: seq<OmniOp>) {
    && UniqueOutputs(ops) && ElementwiseTyped(sem, ops)
    && TypedPairs(ops) && FaithfulPairs(ops) && SingleUse(ops)
  }

  /** Operation by operation, b has a's names, attributes and fusable pairs. */
  ghost predicate SameSkeleton(a: seq<OmniOp>, b: seq<OmniOp>) {
    && |a| == |b|
    && (forall i | 0 <= i < |a| :: b[i] == a[i].(kind := b[i].kind))
    && (forall i | 0 <= i && i + 1 < |a| :: Fusable(b[i], b[i + 1]) <==> Fusable(a[i], a[i + 1]))
    && (forall i | 0 <= i && i + 1 < |a| && Fusable(a[i], a[i + 1]) :: b[i + 1].kind == a[i + 1].kind)
  }

  lemma FoldKeepsSkeleton(ops: seq<OmniOp>)
    requires UniqueOutputs(ops)
    ensures SameSkeleton(ops, Fold(ops))
  {
    FoldKeepsShape(ops);
    forall i | 0 <= i && i + 1 < |ops|
      ensures Fusable(Fold(ops)[i], Fold(ops)[i + 1]) <==> Fusable(ops[i], ops[i + 1])
    {
      FoldKeepsFusable(ops, i);
    }
  }

  lemma SkeletonUnique(a: seq<OmniOp>, b: seq<OmniOp>)
    requires SameSkeleton(a, b) && UniqueOutputs(a)
    ensures UniqueOutputs(b)
  {
    forall i, j | 0 <= i < j < |b| ensures b[i].output != b[j].output { assert a[i].output != a[j].output; }
  }

  lemma SkeletonPair(a: seq<OmniOp>, b: seq<OmniOp>, i: nat)
    requires SameSkeleton(a, b) && i + 1 < |a| && Fusable(a[i], a[i + 1])
    ensures Fusable(b[i], b[i + 1]) && b[i].inputs == a[i].inputs
    ensures TypedPair(b[i], b[i + 1]) <==> TypedPair(a[i], a[i + 1])
    ensures Faithful(b[i], b[i + 1]) <==> Faithful(a[i], a[i + 1])
    ensures b[i + 1].output == a[i + 1].output && LensFor(b[i], b[i + 1]) == LensFor(a[i], a[i + 1])
  {
    assert Fusable(b[i], b[i + 1]) <==> Fusable(a[i], a[i + 1]);
    assert b[i] == a[i].(kind := b[i].kind) && b[i + 1] == a[i + 1].(kind := b[i + 1].kind);
    assert b[i + 1].kind == a[i + 1].kind;
  }

  lemma SkeletonPairs(a: seq<OmniOp>, b: seq<OmniOp>)
    requires SameSkeleton(a, b) && TypedPairs(a)
    ensures TypedPairs(b) && (FaithfulPairs(a) ==> FaithfulPairs(b))
  {
    forall i | 0 <= i && i + 1 < |b| && Fusable(b[i], b[i + 1])
      ensures TypedPair(b[i], b[i + 1]) && (FaithfulPairs(a) ==> Faithful(b[i], b[i + 1]))
    {
      assert Fusable(a[i], a[i + 1]) && TypedPair(a[i], a[i + 1]);
      SkeletonPair(a, b, i);
    }
  }

  lemma SkeletonUnfaithful(a: seq<OmniOp>, b: seq<OmniOp>, i: nat)
    requires SameSkeleton(a, b) && FirstUnfaithful(a, i)
    ensures FirstUnfaithful(b, i) && b[i + 1].output == a[i + 1].output
    ensures LensFor(b[i], b[i + 1]) == LensFor(a[i], a[i + 1])
  {
    SkeletonPair(a, b, i);
    forall k | 0 <= k < i && Fusable(b[k], b[k + 1]) ensures Faithful(b[k], b[k + 1]) {
      assert Fusable(a[k], a[k + 1]) && Faithful(a[k], a[k + 1]);
      SkeletonPair(a, b, k);
    }
  }

  lemma SkeletonSingleUse(a: seq<OmniOp>, b: seq<OmniOp>)
    requires SameSkeleton(a, b) && SingleUse(a)
    ensures SingleUse(b)
  {
    forall i, j | 0 <= i && i + 2 <= j < |b| && Fusable(b[i], b[i + 1]) ensures b[i].output !in b[j].inputs {
      assert Fusable(a[i], a[i + 1]) && a[i].output !in a[j].inputs;
    }
  }

  lemma SkeletonFusedAway(a: seq<OmniOp>, b: seq<OmniOp>)
    requires SameSkeleton(a, b)
    ensures FusedAway(b) == FusedAway(a)
  {
    forall n: string ensures n in FusedAway(b) <==> n in FusedAway(a) {
      if i :| 0 <= i && i + 1 < |b| && Fusable(b[i], b[i + 1]) && b[i].output == n {
        assert Fusable(a[i], a[i + 1]) && a[i].output == n;
      }
      if i :| 0 <= i && i + 1 < |a| && Fusable(a[i], a[i + 1]) && a[i].output == n {
        assert Fusable(b[i], b[i + 1]) && b[i].output == n;
      }
    }
  }

  lemma SkeletonCounts(a: seq<OmniOp>, b: seq<OmniOp>)
    requires SameSkeleton(a, b)
    ensures PairCount(b) == PairCount(a) && (LastPairFused(b) <==> LastPairFused(a))
  {
    PairCountCong(b, a);
    if |a| >= 2 { assert Fusable(b[|a| - 2], b[|a| - 2 + 1]) <==> Fusable(a[|a| - 2], a[|a| - 2 + 1]); }
  }

  /** The operations before dead code elimination. */
  function Rewritten(backend: TargetBackend, ops: seq<OmniOp>): seq<OmniOp> {
    Tile(TileSize(backend), Fuse(Fold(ops)))
  }

  /** Up to dead code elimination, every name but the fused-away products keeps its value. */
  lemma RewritesPreserveMeaning(sem: Model, backend: TargetBackend, ops: seq<OmniOp>, env: Env)
    requires Admissible(sem, ops)
    ensures AgreeOutside(Eval(sem, ops, env), Eval(sem, Rewritten(backend, ops), env), FusedAway(ops))
  {
    FoldKeepsSkeleton(ops);
    SkeletonPairs(ops, Fold(ops));
    SkeletonSingleUse(ops, Fold(ops));
    SkeletonFusedAway(ops, Fold(ops));
    FoldPreservesMeaning(sem, ops, env);
    FusionPreservesMeaning(sem, Fold(ops), env);
    TilingPreservesMeaning(sem, TileSize(backend), Fuse(Fold(ops)), env);
  }

  ghost predicate RewritesKeepMeaning(backend: TargetBackend, ops: seq<OmniOp>) {
    forall sem, env | ElementwiseTyped(sem, ops) ::
      AgreeOutside(Eval(sem, ops, env), Eval(sem, Rewritten(backend, ops), env), FusedAway(ops))
  }

  lemma ProbeTyped(z: Lens, ops: seq<OmniOp>)
    requires BinaryElementwise(ops)
    ensures ElementwiseTyped(Probe(z), ops)
  {
    assert [2][0] != [3][0];
    assert Size([2]) == 2 by { assert [2][1..] == []; }
  }

  /** The first unfaithful pair changes the value of its consumer. */
  lemma UnfaithfulChangesRewritten(backend: TargetBackend, ops: seq<OmniOp>, i: nat)
    requires UniqueOutputs(ops) && BinaryElementwise(ops) && TypedPairs(ops) && SingleUse(ops)
    requires FirstUnfaithful(ops, i)
    ensures var sem, n := Probe(LensFor(ops[i], ops[i + 1])), ops[i + 1].output;
            && ElementwiseTyped(sem, ops)
            && Lookup(Eval(sem, ops, map[]), n) != Lookup(Eval(sem, Rewritten(backend, ops), map[]), n)
  {
    var z := LensFor(ops[i], ops[i + 1]);
    ProbeTyped(z, ops);
    FoldPreservesMeaning(Probe(z), ops, map[]);
    FoldKeepsSkeleton(ops);
    SkeletonUnique(ops, Fold(ops));
    SkeletonPairs(ops, Fold(ops));
    SkeletonSingleUse(ops, Fold(ops));
    SkeletonUnfaithful(ops, Fold(ops), i);
    UnfaithfulChangesValue(Fold(ops), i);
    TilingPreservesMeaning(Probe(z), TileSize(backend), Fuse(Fold(ops)), map[]);
  }

  lemma UnfaithfulBreaksRewrites(backend: TargetBackend, ops: seq<OmniOp>, i: nat)
    requires UniqueOutputs(ops) && BinaryElementwise(ops) && TypedPairs(ops) && SingleUse(ops)
    requires FirstUnfaithful(ops, i)
    ensures !RewritesKeepMeaning(backend, ops)
  {
    UnfaithfulChangesRewritten(backend, ops, i);
    ConsumerNotFusedAway(ops, i);
    var sem := Probe(LensFor(ops[i], ops[i + 1]));
    assert !AgreeOutside(Eval(sem, ops, map[]), Eval(sem, Rewritten(backend, ops), map[]), FusedAway(ops));
  }

  lemma FaithfulKeepsRewrites(backend: TargetBackend, ops: seq<OmniOp>)
    requires UniqueOutputs(ops) && TypedPairs(ops) && SingleUse(ops) && FaithfulPairs(ops)
    ensures RewritesKeepMeaning(backend, ops)
  {
    forall sem, env | ElementwiseTyped(sem, ops)
      ensures AgreeOutside(Eval(sem, ops, env), Eval(sem, Rewritten(backend, ops), env), FusedAway(ops))
    {
      RewritesPreserveMeaning(sem, backend, ops, env);
    }
  }

  /**
   With one reader per product, fold, fuse and tile together keep every name but the fused-away products
   exactly when every pair is faithful.
   */
  lemma RewritesKeepMeaningIff(backend: TargetBackend, ops: seq<OmniOp>)
    requires UniqueOutputs(ops) && BinaryElementwise(ops) && TypedPairs(ops) && SingleUse(ops)
    ensures RewritesKeepMeaning(backend, ops) <==> FaithfulPairs(ops)
  {
    if FaithfulPairs(ops) {
      FaithfulKeepsRewrites(backend, ops);
    } else {
      var i := UnfaithfulPosition(ops);
      UnfaithfulBreaksRewrites(backend, ops, i);
    }
  }

  // ---- The result ----

  /** Fusion never fires, or exactly once and on the last two operations. */
  ghost predicate LastIdStillMatches(ops: seq<OmniOp>) {
    PairCount(ops) == 0 || (PairCount(ops) == 1 && LastPairFused(ops))
  }

  lemma {:induction false} LastPairCounts(ops: seq<OmniOp>)
    requires LastPairFused(ops)
    ensures PairCount(ops) >= 1
  {
    if |ops| > 2 { LastPairCounts(ops[1..]); }
  }

  lemma LastIdAfterFusion(ops: seq<OmniOp>)
    requires ops != [] && IdsArePositions(ops)
    ensures Fuse(ops) != [] && (Fuse(ops)[|Fuse(ops)| - 1].id == |Fuse(ops)| - 1 <==> LastIdStillMatches(ops))
    ensures Fuse(ops)[|Fuse(ops)| - 1].output == ops[|ops| - 1].output
  {
    FuseLength(ops);
    LastAfterFusion(ops);
    if LastPairFused(ops) { LastPairCounts(ops); }
  }

  lemma TilingKeepsNames(tile: int, ops: seq<OmniOp>)
    requires UniqueOutputs(ops)
    ensures UniqueOutputs(Tile(tile, ops))
    ensures forall i | 0 <= i < |ops| ::
            Tile(tile, ops)[i].id == ops[i].id && Tile(tile, ops)[i].output == ops[i].output
  {
    forall i, j | 0 <= i < j < |ops| ensures Tile(tile, ops)[i].output != Tile(tile, ops)[j].output {
      assert ops[i].output != ops[j].output;
    }
  }

  lemma FusedResult(ops: seq<OmniOp>)
    requires ops != [] && IdsArePositions(ops) && UniqueOutputs(ops)
    ensures var fused := Fuse(Fold(ops));
            && fused != [] && UniqueOutputs(fused)
            && fused[|fused| - 1].output == ops[|ops| - 1].output
            && (fused[|fused| - 1].id == |fused| - 1 <==> LastIdStillMatches(ops))
  {
    var f := Fold(ops);
    FoldKeepsSkeleton(ops);
    SkeletonUnique(ops, f);
    SkeletonCounts(ops, f);
    forall i | 0 <= i < |f| ensures f[i].id == i { assert f[i] == ops[i].(kind := f[i].kind); }
    LastIdAfterFusion(f);
    UniqueAfterFusion(f);
  }

  lemma ResultNotFusedAway(ops: seq<OmniOp>)
    requires ops != [] && UniqueOutputs(ops)
    ensures ops[|ops| - 1].output !in FusedAway(ops)
  {}

  lemma ResultValueKept(sem: Model, backend: TargetBackend, ops: seq<OmniOp>, env: Env)
    requires ops != [] && Admissible(sem, ops)
    ensures var result := ops[|ops| - 1].output;
            Lookup(Eval(sem, Rewritten(backend, ops), env), result) == Lookup(Eval(sem, ops, env), result)
  {
    RewritesPreserveMeaning(sem, backend, ops, env);
    ResultNotFusedAway(ops);
  }

  /** What dead code elimination makes of the last operation. */
  lemma LastOfRewritten(sem: Model, backend: TargetBackend, ops: seq<OmniOp>, env: Env)
    requires ops != [] && IdsArePositions(ops) && UniqueOutputs(ops)
    ensures var result := ops[|ops| - 1].output;
            && (Defines(Optimise(backend, ops), result) <==> LastIdStillMatches(ops))
            && (LastIdStillMatches(ops) ==>
                  Lookup(Eval(sem, Optimise(backend, ops), env), result)
                      == Lookup(Eval(sem, Rewritten(backend, ops), env), result))
  {
    FusedResult(ops);
    TilingKeepsNames(TileSize(backend), Fuse(Fold(ops)));
    LastSurvivesIff(sem, Rewritten(backend, ops), env);
  }

  /**
   Fusion leaves ids alone and dead code elimination looks for the id op_count - 1, so the result of a
   freshly built module stays defined exactly when fusion fired never, or once on the last two operations.
   */
  lemma ResultSurvivesIff(backend: TargetBackend, ops: seq<OmniOp>)
    requires ops != [] && IdsArePositions(ops) && UniqueOutputs(ops)
    ensures Defines(Optimise(backend, ops), ops[|ops| - 1].output) <==> LastIdStillMatches(ops)
  {
    LastOfRewritten(Probe(DARK), backend, ops, map[]);
  }

  /** The optimised module still defines the result, with its value under every semantics. */
  ghost predicate KeepsResult(backend: TargetBackend, ops: seq<OmniOp>)
    requires ops != []
  {
    var result := ops[|ops| - 1].output;
    && Defines(Optimise(backend, ops), result)
    && forall sem, env | ElementwiseTyped(sem, ops) ::
         Lookup(Eval(sem, Optimise(backend, ops), env), result) == Lookup(Eval(sem, ops, env), result)
  }

  lemma EarlyPairCounts(ops: seq<OmniOp>, i: nat)
    requires i + 1 < |ops| && Fusable(ops[i], ops[i + 1])
    ensures PairCount(ops) >= 1 + PairCount(ops[i + 1..])
  {
    if i > 0 {
      EarlyPairCounts(ops[1..], i - 1);
      assert ops[1..][i..] == ops[i + 1..];
    }
  }

  /** A pair before the end moves the last operation away from its id. */
  lemma EarlyPairMismatch(ops: seq<OmniOp>, i: nat)
    requires i + 2 < |ops| && Fusable(ops[i], ops[i + 1])
    ensures !LastIdStillMatches(ops)
  {
    EarlyPairCounts(ops, i);
    var rest := ops[i + 1..];
    if LastPairFused(ops) {
      assert rest[|rest| - 2] == ops[|ops| - 2] && rest[|rest| - 1] == ops[|ops| - 1];
      LastPairCounts(rest);
    }
  }

  lemma MatchMeansSingleUse(ops: seq<OmniOp>)
    requires LastIdStillMatches(ops)
    ensures SingleUse(ops)
  {
    if !SingleUse(ops) {
      var i, j :| 0 <= i && i + 2 <= j < |ops| && Fusable(ops[i], ops[i + 1]) && ops[i].output in ops[j].inputs;
      EarlyPairMismatch(ops, i);
      assert false;
    }
  }

  lemma MatchingResultKept(backend: TargetBackend, ops: seq<OmniOp>)
    requires ops != [] && IdsArePositions(ops) && UniqueOutputs(ops) && TypedPairs(ops)
    requires LastIdStillMatches(ops) && FaithfulPairs(ops)
    ensures KeepsResult(backend, ops)
  {
    ResultSurvivesIff(backend, ops);
    MatchMeansSingleUse(ops);
    var result := ops[|ops| - 1].output;
    forall sem, env | ElementwiseTyped(sem, ops)
      ensures Lookup(Eval(sem, Optimise(backend, ops), env), result) == Lookup(Eval(sem, ops, env), result)
    {
      LastOfRewritten(sem, backend, ops, env);
      ResultValueKept(sem, backend, ops, env);
    }
  }

  lemma UnfaithfulResultChanged(backend: TargetBackend, ops: seq<OmniOp>)
    requires ops != [] && IdsArePositions(ops) && UniqueOutputs(ops) && BinaryElementwise(ops)
    requires TypedPairs(ops) && LastIdStillMatches(ops) && !FaithfulPairs(ops)
    ensures !KeepsResult(backend, ops)
  {
    var i := UnfaithfulPosition(ops);
    MatchMeansSingleUse(ops);
    if i + 2 < |ops| { EarlyPairMismatch(ops, i); }
    assert i + 1 == |ops| - 1;
    UnfaithfulChangesRewritten(backend, ops, i);
    LastOfRewritten(Probe(LensFor(ops[i], ops[i + 1])), backend, ops, map[]);
  }

  /**
   The whole pipeline on a freshly built module keeps the result and its value exactly when fusion fired
   never, or once on the last two operations, and then on a faithful pair.
   */
  lemma PipelineKeepsResultIff(backend: TargetBackend, ops: seq<OmniOp>)
    requires ops != [] && IdsArePositions(ops) && UniqueOutputs(ops) && BinaryElementwise(ops)
    requires TypedPairs(ops)
    ensures KeepsResult(backend, ops) <==> LastIdStillMatches(ops) && FaithfulPairs(ops)
  {
    ResultSurvivesIff(backend, ops);
    if LastIdStillMatches(ops) {
      if FaithfulPairs(ops) { MatchingResultKept(backend, ops); } else { UnfaithfulResultChanged(backend, ops); }
    }
  }

  function LosingModule(t: TensorType): seq<OmniOp> {
    [OmniOp(0, MatMul, ["a", "b"], "c", map[], t), OmniOp(1, Relu, ["c"], "d", map[], t),
        OmniOp(2, Sigmoid, ["d"], "e", map[], t)]
  }

  /** A module without constants is left alone by folding. */
  lemma {:induction false} NothingToFold(ops: seq<OmniOp>)
    requires forall op | op in ops :: !op.kind.Fill? && !op.kind.Add? && !op.kind.Mul?
    ensures FoldAll(ops).0 == ops && FoldAll(ops).1 == map[]
  {
    if ops != [] {
      assert ops[|ops| - 1] in ops;
      NothingToFold(ops[..|ops| - 1]);
    }
  }

  /** A pair fused before the end makes the pass prune everything: here the result is lost. */
  lemma FusionThenDceLosesResult(t: TensorType, backend: TargetBackend)
    ensures Optimise(backend, LosingModule(t)) == []
  {
    var ops := LosingModule(t);
    NothingToFold(ops);
    assert ops[2..] == [ops[2]];
    var x := FusedOp(ops[0], ops[1]);
    assert Fuse(ops) == [x, ops[2]];
    var tiled := Tile(TileSize(backend), [x, ops[2]]);
    assert tiled[0].id == 0 && tiled[1].id == 2;
    assert tiled[..1][..0] == [];
    assert Sweep(tiled[..1], 2, {}) == [];
  }
}
