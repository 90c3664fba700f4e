/** The pass manager and its four loops (omni-core/src/mlir/passes.rs:28-257). */
module Passes {
  import opened Prelude
  import opened Dialect
  import opened Semantics
  import opened ConstantFolding
  import opened OperatorFusion
  import opened DeadCode

  /** The backends, without the fields no pass reads. */
  datatype TargetBackend = AmdRocm | AppleMetal | VulkanGeneric | CpuVectorized | RemoteP2p

  function TileSize(backend: TargetBackend): int {
    match backend
    case AmdRocm => 64
    case AppleMetal => 32
    case VulkanGeneric => 16
    case CpuVectorized => 8
    case RemoteP2p => 8
  }

  function TileOp(tile: int, op: OmniOp): OmniOp {
    if IsMatMul(op.kind) then
      op.(attrs := op.attrs[TILE_M := Int(tile)][TILE_N := Int(tile)][TILE_K := Int(16)][VECTOR_WIDTH := Int(4)])
    else op
  }

  /** What tiling leaves of an operation, backend by backend. */
  function Annotated(backend: TargetBackend, op: OmniOp): OmniOp {
    if op.kind != MatMul && op.kind != BatchedMatMul then op
    else
      var side := Int(if backend == AmdRocm then 64 else if backend == AppleMetal then 32
                      else if backend == VulkanGeneric then 16 else 8);
      op.(attrs := op.attrs["tile_m" := side]["tile_n" := side]["tile_k" := Int(16)]["vector_width" := Int(4)])
  }

  function Tile(tile: int, ops: seq<OmniOp>): (r: seq<OmniOp>)
    ensures |r| == |ops|
    ensures forall i | 0 <= i < |ops| :: r[i] == TileOp(tile, ops[i])
  {
    seq(|ops|, i requires 0 <= i < |ops| => TileOp(tile, ops[i]))
  }

  /** The whole optimiser as one function. */
  function Optimise(backend: TargetBackend, ops: seq<OmniOp>): seq<OmniOp> {
    Dce(Tile(TileSize(backend), Fuse(Fold(ops))))
  }

  function Reversed(ops: seq<OmniOp>): seq<OmniOp> {
    if ops == [] then [] else Reversed(ops[1..]) + [ops[0]]
  }

  lemma {:induction false} ReversedSnoc(ops: seq<OmniOp>, op: OmniOp)
    ensures Reversed(ops + [op]) == [op] + Reversed(ops)
  {
    if ops == [] {
      assert [op][1..] == [];
    } else {
      ReversedSnoc(ops[1..], op);
      assert (ops + [op])[1..] == ops[1..] + [op];
    }
  }

  lemma FuseSuffix(ops: seq<OmniOp>, i: nat)
    requires i < |ops|
    ensures Fuse(ops[i..]) == if i + 1 < |ops| && Fusable(ops[i], ops[i + 1])
                              then [FusedOp(ops[i], ops[i + 1])] + Fuse(ops[i + 2..])
                              else [ops[i]] + Fuse(ops[i + 1..])
  {
    var rest := ops[i..];
    if i + 1 < |ops| { assert rest[2..] == ops[i + 2..]; }
    assert rest[1..] == ops[i + 1..];
  }

  /** With `done` emitted and the operations from i on still to come, the loop is on its way to Fuse(ops). */
  ghost predicate Emitted(done: seq<OmniOp>, ops: seq<OmniOp>, i: nat)
    requires i <= |ops|
  {
    done + Fuse(ops[i..]) == Fuse(ops)
  }

  /** One step of the fusion loop at position i. */
  lemma FuseStep(done: seq<OmniOp>, ops: seq<OmniOp>, i: nat)
    requires i < |ops| && Emitted(done, ops, i)
    ensures if i + 1 < |ops| && Fusable(ops[i], ops[i + 1])
            then Emitted(done + [FusedOp(ops[i], ops[i + 1])], ops, i + 2)
            else Emitted(done + [ops[i]], ops, i + 1)
  {
    FuseSuffix(ops, i);
    if i + 1 < |ops| && Fusable(ops[i], ops[i + 1]) {
      Regroup(done, [FusedOp(ops[i], ops[i + 1])], Fuse(ops[i + 2..]));
    } else {
      Regroup(done, [ops[i]], Fuse(ops[i + 1..]));
    }
  }

  lemma AllEmitted(done: seq<OmniOp>, ops: seq<OmniOp>)
    ensures Emitted([], ops, 0)
    ensures Emitted(done, ops, |ops|) ==> done == Fuse(ops)
  {
    assert ops[0..] == ops && ops[|ops|..] == [];
  }

  class PassManager {
    const backend: TargetBackend

    constructor (backend: TargetBackend)
      ensures this.backend == backend
    {
      this.backend := backend;
    }

    method RunConstantFolding(m: OmniModule)
      requires FoldSafe(m.ops)
      modifies m`ops
      ensures m.ops == Fold(old(m.ops))
    {
      var constants: map<string, real> := map[];
      var foldedOps: seq<OmniOp> := [];
      for i := 0 to |m.ops|
        invariant m.ops == old(m.ops)
        invariant (foldedOps, constants) == FoldAll(m.ops[..i])
      {
        var op := m.ops[i];
        assert m.ops[..i + 1][..i] == m.ops[..i];
        if op.kind.Fill? {
          constants := constants[op.output := op.kind.value];
          foldedOps := foldedOps + [op];
        } else if (op.kind.Add? || op.kind.Mul?) && forall x | x in op.inputs :: x in constants {
          assert op.inputs[0] in op.inputs && op.inputs[1] in op.inputs;
          var value := Combine(op.kind, constants[op.inputs[0]], constants[op.inputs[1]]);
          constants := constants[op.output := value];
          foldedOps := foldedOps + [op.(kind := Fill(value))];
        } else {
          foldedOps := foldedOps + [op];
        }
      }
      assert m.ops[..|m.ops|] == m.ops;
      m.ops := foldedOps;
    }

    /** The fused operation; an Add contributes its operands other than the product. */
    method FusePair(current: OmniOp, next: OmniOp) returns (fused: OmniOp)
      ensures fused == FusedOp(current, next)
    {
      var inputs := current.inputs;
      if next.kind.Add? {
        for k := 0 to |next.inputs|
          invariant inputs == current.inputs + Without(next.inputs[..k], current.output)
        {
          assert next.inputs[..k + 1][..k] == next.inputs[..k];
          if next.inputs[k] != current.output { inputs := inputs + [next.inputs[k]]; }
        }
        assert next.inputs[..|next.inputs|] == next.inputs;
      }
      fused := current.(
        attrs := current.attrs[FUSED_ACTIVATION := Str(StepName(next.kind))],
        inputs := inputs, output := next.output, resultType := next.resultType);
    }

    method RunOperatorFusion(m: OmniModule)
      modifies m`ops
      ensures m.ops == Fuse(old(m.ops)) == MergedFrom(old(m.ops), 0)
    {
      FuseIsMerged(m.ops);
      if m.ops == [] { return; }
      var ops := m.ops;
      var fusedOps: seq<OmniOp> := [];
      var skipped: set<int> := {};
      AllEmitted([], ops);
      for i := 0 to |ops|
        invariant forall k | k in skipped :: k <= i && k < |ops|
        invariant Emitted(fusedOps, ops, if i in skipped then i + 1 else i)
      {
        if i in skipped { continue; }
        var current := ops[i];
        if i + 1 < |ops| && Fusable(current, ops[i + 1]) {
          var next := ops[i + 1];
          var fused := FusePair(current, next);
          FuseStep(fusedOps, ops, i);
          fusedOps := fusedOps + [fused];
          skipped := skipped + {i + 1};
          continue;
        }
        FuseStep(fusedOps, ops, i);
        fusedOps := fusedOps + [current];
      }
      AllEmitted(fusedOps, ops);
      m.ops := fusedOps;
    }

    method RunLoopTiling(m: OmniModule)
      modifies m`ops
      ensures m.ops == Tile(TileSize(backend), old(m.ops))
      ensures |m.ops| == |old(m.ops)| && forall i | 0 <= i < |m.ops| :: m.ops[i] == Annotated(backend, old(m.ops)[i])
    {
      var tile := TileSize(backend);
      for i := 0 to |m.ops|
        invariant |m.ops| == |old(m.ops)|
        invariant forall k | 0 <= k < |m.ops| ::
            m.ops[k] == if k < i then TileOp(tile, old(m.ops)[k]) else old(m.ops)[k]
      {
        var op := m.ops[i];
        if IsMatMul(op.kind) {
          m.ops := m.ops[i := op.(attrs :=
              op.attrs[TILE_M := Int(tile)][TILE_N := Int(tile)][TILE_K := Int(16)][VECTOR_WIDTH := Int(4)])];
        }
      }
    }

    method RunDce(m: OmniModule)
      modifies m`ops
      ensures m.ops == Dce(old(m.ops))
    {
      var ops := m.ops;
      var active: seq<OmniOp> := [];
      var referenced: set<string> := {};
      var i := |ops|;
      assert ops[..|ops|] == ops;
      while i > 0
        invariant 0 <= i <= |ops|
        invariant Sweep(ops[..i], |ops|, referenced) + Reversed(active) == Dce(ops)
      {
        i := i - 1;
        var op := ops[i];
        assert ops[..i + 1][..i] == ops[..i];
        if op.id == |ops| - 1 || op.output in referenced {
          referenced := referenced + InputsOf(op);
          ReversedSnoc(active, op);
          active := active + [op];
        }
      }
      m.ops := Reversed(active);
    }

    method Run(m: OmniModule)
      requires FoldSafe(m.ops)
      modifies m`ops
      ensures m.ops == Optimise(backend, old(m.ops))
    {
      RunConstantFolding(m);
      RunOperatorFusion(m);
      RunLoopTiling(m);
      RunDce(m);
    }
  }

  // ---- Tiling ----

  lemma TilingKeepsOp(sem: Model, tile: int, op: OmniOp, args: seq<Tensor>)
    ensures Apply(sem, TileOp(tile, op), args) == Apply(sem, op, args)
  {
    KeysDiffer();
    assert TileOp(tile, op).attrs - OPTIMISER_KEYS == op.attrs - OPTIMISER_KEYS;
  }

  lemma {:induction false} TilingPreservesMeaning(sem: Model, tile: int, ops: seq<OmniOp>, env: Env)
    ensures Eval(sem, Tile(tile, ops), env) == Eval(sem, ops, env)
  {
    if ops != [] {
      var k := |ops| - 1;
      TilingPreservesMeaning(sem, tile, ops[..k], env);
      assert Tile(tile, ops)[..k] == Tile(tile, ops[..k]);
      var before := Eval(sem, ops[..k], env);
      TilingKeepsOp(sem, tile, ops[k], Args(before, ops[k].inputs));
    }
  }
}
