/** From a module to the finished output buffer of its Vulkan kernel. */
module Vulkan {
  import opened Prelude
  import opened Matrices
  import opened Dialect
  import opened Semantics
  import opened ConstantFolding
  import opened OperatorFusion
  import opened FusionLimits
  import opened DeadCode
  import opened Passes
  import opened TiledKernel
  import opened KernelProduct
  import opened KernelFit

  /** The dispatch of op's kernel that multiplies x by y. */
  function LaunchFor(op: OmniOp, x: Tensor, y: Tensor): Launch
    requires Conformable(x, y)
  {
    Launch(ConfigOf(op), x.shape[0], y.shape[1], x.shape[1], x.data, y.data)
  }

  ghost predicate Finishes(sem: Model, op: OmniOp, x: Tensor, y: Tensor, schedule: seq<Thread>)
    requires Conformable(x, y)
  {
    Finished(LaunchFor(op, x, y), Run(sem, LaunchFor(op, x, y), schedule))
  }

  /** What a schedule of op's kernel leaves in an output buffer that first held c. */
  ghost function Output(sem: Model, op: OmniOp, x: Tensor, y: Tensor, schedule: seq<Thread>, c: seq<real>): seq<real>
    requires Conformable(x, y)
  {
    Stored(c, Run(sem, LaunchFor(op, x, y), schedule).log)
  }

  // ---- Which backends get a kernel that is right ----

  lemma TiledConfig(tile: int, op: OmniOp)
    requires IsMatMul(op.kind)
    ensures ConfigOf(TileOp(tile, op)) == Config(tile, tile, 16, ConfigOf(op).step)
  {
    KeysDiffer();
    assert TILE_M[5] == 'm' && TILE_N[5] == 'n' && TILE_K[5] == 'k' && |VECTOR_WIDTH| == 12;
  }

  /** Of the backends that use this generator, the kernel of a tiled product is right for Vulkan and no other. */
  lemma TilesFitIff(sem: Model, backend: TargetBackend, op: OmniOp)
    requires (backend.VulkanGeneric? || backend.CpuVectorized? || backend.RemoteP2p?) && IsMatMul(op.kind)
    ensures KernelRight(sem, ConfigOf(TileOp(TileSize(backend), op))) <==> backend.VulkanGeneric?
  {
    TiledConfig(TileSize(backend), op);
    KernelRightIff(sem, ConfigOf(TileOp(TileSize(backend), op)));
  }

  /**
   For the CPU and remote backends every finished run of a non-empty product indexes outside its tiles;
   past 8 rows two threads write one cell.
   */
  lemma NarrowBackendsMisbehave(sem: Model, backend: TargetBackend, op: OmniOp, l: Launch, schedule: seq<Thread>)
    requires (backend.CpuVectorized? || backend.RemoteP2p?) && IsMatMul(op.kind)
    requires l.cfg == ConfigOf(TileOp(TileSize(backend), op)) && l.m > 0 && l.n > 0 && l.k > 0
    requires Finished(l, Run(sem, l, schedule))
    ensures Run(sem, l, schedule).fault
    ensures l.m > 8 ==> exists i, j :: 0 <= i < j < |Run(sem, l, schedule).log|
                                       && Run(sem, l, schedule).log[i].index == Run(sem, l, schedule).log[j].index
  {
    TiledConfig(8, op);
    NarrowTileFaults(sem, l, schedule);
    if l.m > 8 { NarrowTileWritesTwice(sem, l, schedule); }
  }

  // ---- The kernel against the meaning of its operation ----

  /** A finished run applies the epilogue to every entry of the matrix product. */
  lemma KernelIsEpilogueOfProduct(sem: Model, op: OmniOp, x: Tensor, y: Tensor, schedule: seq<Thread>, c: seq<real>)
    requires ConfigOf(op).Fits() && Conformable(x, y) && |c| == x.shape[0] * y.shape[1]
             && Finishes(sem, op, x, y, schedule)
    ensures var out, product := Output(sem, op, x, y, schedule, c), MatrixProduct(x, y).data;
            |out| == |product| && forall i | 0 <= i < |product| ::
                out[i] == Epilogue(sem, ConfigOf(op).step, product[i])
  {
    var l := LaunchFor(op, x, y);
    FinishedRunComputesProduct(sem, l, schedule, c);
    FlatLength(l.m, l.n, Matrices.Mul(l.k, View(l.a, l.k), View(l.b, l.n)));
  }

  /** The epilogue of each fusable activation is that activation. */
  lemma EpilogueIsActivation(sem: Model, kind: OpKind, x: real)
    requires IsActivation(kind)
    ensures Epilogue(sem, Some(StepName(kind)), x) == Activate(sem, kind, x)
  {
    StepNamesDiffer();
  }

  /** A product fused with an activation: the kernel computes what the fused operation means. */
  lemma KernelMeansFusedOp(sem: Model, op: OmniOp, kind: OpKind, x: Tensor, y: Tensor, schedule: seq<Thread>,
      c: seq<real>)
    requires op.kind.MatMul? && ConfigOf(op).Fits() && IsActivation(kind) && ConfigOf(op).step == Some(StepName(kind))
    requires Conformable(x, y) && |c| == x.shape[0] * y.shape[1] && Finishes(sem, op, x, y, schedule)
    ensures Output(sem, op, x, y, schedule, c) == Apply(sem, op, [x, y]).data
  {
    var product := MatrixProduct(x, y);
    KernelIsEpilogueOfProduct(sem, op, x, y, schedule, c);
    StepNamesDiffer();
    assert [x, y][..2] == [x, y];
    assert Apply(sem, op, [x, y]) == Pointwise(sem, kind, product);
    forall i | 0 <= i < |product.data|
      ensures Epilogue(sem, ConfigOf(op).step, product.data[i]) == Activate(sem, kind, product.data[i])
    {
      EpilogueIsActivation(sem, kind, product.data[i]);
    }
  }

  /** A product with nothing fused: the kernel computes the plain product. */
  lemma KernelMeansPlainOp(sem: Model, op: OmniOp, x: Tensor, y: Tensor, schedule: seq<Thread>, c: seq<real>)
    requires op.kind.MatMul? && ConfigOf(op).Fits() && FUSED_ACTIVATION !in op.attrs
    requires Conformable(x, y) && |c| == x.shape[0] * y.shape[1] && Finishes(sem, op, x, y, schedule)
    ensures Output(sem, op, x, y, schedule, c) == Apply(sem, op, [x, y]).data
  {
    KernelIsEpilogueOfProduct(sem, op, x, y, schedule, c);
  }

  // ---- The bias of a fused Add ----

  /** The result type has the product's dimensions, and broadcasting leaves the product in place. */
  ghost predicate ProductTyped(sem: Model, t: TensorType, m: nat, n: nat) {
    sem.dims(t) == [m, n] && forall i | 0 <= i < m * n :: sem.align([m, n], [m, n], i) == i
  }

  /** The bias that meets each entry of an m by n product is zero. */
  ghost predicate ZeroBias(sem: Model, bias: Tensor, m: nat, n: nat) {
    forall i | 0 <= i < m * n :: Pick(sem, bias, [m, n], i) == 0.0
  }

  lemma SizeOfMatrix(m: nat, n: nat)
    ensures Size([m, n]) == m * n
  {
    assert [n][1..] == [];
    assert Size([n]) == n;
    assert [m, n][1..] == [n];
  }

  /** Adding a bias leaves a product as it is exactly when the bias is zero wherever it meets the product. */
  lemma BiasVanishesIff(sem: Model, t: TensorType, product: Tensor, bias: Tensor, m: nat, n: nat)
    requires ProductTyped(sem, t, m, n) && product.shape == [m, n] && |product.data| == m * n
    ensures product.data == Elementwise(sem, Add, t, product, bias).data <==> ZeroBias(sem, bias, m, n)
  {
    SizeOfMatrix(m, n);
    var sum := Elementwise(sem, Add, t, product, bias).data;
    assert |sum| == m * n;
    forall i | 0 <= i < m * n ensures sum[i] == product.data[i] + Pick(sem, bias, [m, n], i) {
      assert Pick(sem, product, [m, n], i) == product.data[i];
    }
    if product.data == sum {
      forall i | 0 <= i < m * n ensures Pick(sem, bias, [m, n], i) == 0.0 { assert product.data[i] == sum[i]; }
      assert ZeroBias(sem, bias, m, n);
    }
    if ZeroBias(sem, bias, m, n) {
      forall i | 0 <= i < m * n ensures product.data[i] == sum[i] { assert Pick(sem, bias, [m, n], i) == 0.0; }
      assert product.data == sum;
    }
  }

  /**
   A fused Add emits no epilogue, so the kernel leaves the product without the bias: the output is
   right exactly when the bias is zero wherever it meets the product.
   */
  lemma KernelDropsBias(sem: Model, op: OmniOp, x: Tensor, y: Tensor, bias: Tensor, schedule: seq<Thread>, c: seq<real>)
    requires op.kind.MatMul? && ConfigOf(op).Fits() && ConfigOf(op).step == Some(StepName(Add))
    requires Conformable(x, y) && |c| == x.shape[0] * y.shape[1] && Finishes(sem, op, x, y, schedule)
    ensures var out, m, n := Output(sem, op, x, y, schedule, c), x.shape[0], y.shape[1];
            && out == MatrixProduct(x, y).data
            && (ProductTyped(sem, op.resultType, m, n) ==>
                  (out == Apply(sem, op, [x, y, bias]).data <==> ZeroBias(sem, bias, m, n)))
  {
    var m, n := x.shape[0], y.shape[1];
    KernelIsEpilogueOfProduct(sem, op, x, y, schedule, c);
    StepNamesDiffer();
    assert [x, y, bias][..2] == [x, y];
    assert Apply(sem, op, [x, y, bias]) == Elementwise(sem, Add, op.resultType, MatrixProduct(x, y), bias);
    if ProductTyped(sem, op.resultType, m, n) { BiasVanishesIff(sem, op.resultType, MatrixProduct(x, y), bias, m, n); }
  }

  // ---- End to end ----

  lemma PairFolded(a: OmniOp, b: OmniOp)
    requires Fusable(a, b)
    ensures Fold([a, b]) == [a, b]
  {
    var ops := [a, b];
    assert ops[..1] == [a] && [a][..0] == [] && ops[..2] == ops;
    assert FoldAll([a]).0 == [a] && FoldAll([a]).1 == map[];
    assert FoldOp(b, map[]) == b;
  }

  lemma SingletonKept(op: OmniOp)
    requires op.id == 0
    ensures Dce([op]) == [op]
  {
    assert [op][..0] == [] && Sweep([], 1, {} + InputsOf(op)) == [];
    assert Dce([op]) == [] + [op];
  }

  /** The operation the optimiser makes of a fusable pair for Vulkan. */
  function Optimised(a: OmniOp, b: OmniOp): OmniOp { TileOp(16, FusedOp(a, b)) }

  /** The optimiser turns the pair into one operation whose kernel has 16-wide tiles. */
  lemma PairOptimised(a: OmniOp, b: OmniOp)
    requires Fusable(a, b) && a.id == 0
    ensures Optimise(VulkanGeneric, [a, b]) == [Optimised(a, b)]
    ensures ConfigOf(Optimised(a, b)) == Config(16, 16, 16, Some(StepName(b.kind)))
  {
    var x := FusedOp(a, b);
    PairFolded(a, b);
    assert [a, b][2..] == [];
    assert Fuse([a, b]) == [x];
    assert Tile(16, [x]) == [TileOp(16, x)];
    SingletonKept(TileOp(16, x));
    TiledConfig(16, x);
  }

  /**
   End to end: optimise a product followed by Relu, Gelu or Silu for Vulkan, run the emitted kernel
   under any schedule that finishes, and the buffer holds what the two operations mean in sequence.
   */
  lemma PairEndToEnd(sem: Model, mm: OmniOp, act: OmniOp, env: Env, schedule: seq<Thread>, c: seq<real>)
    requires mm.kind.MatMul? && Fusable(mm, act) && IsActivation(act.kind) && TypedPair(mm, act) && Faithful(mm, act)
    requires mm.id == 0 && |mm.inputs| == 2
    requires var x, y := Lookup(env, mm.inputs[0]), Lookup(env, mm.inputs[1]);
             Conformable(x, y) && |c| == x.shape[0] * y.shape[1] && Finishes(sem, Optimised(mm, act), x, y, schedule)
    ensures Optimise(VulkanGeneric, [mm, act]) == [Optimised(mm, act)]
    ensures Output(sem, Optimised(mm, act), Lookup(env, mm.inputs[0]), Lookup(env, mm.inputs[1]), schedule, c)
            == Lookup(Eval(sem, [mm, act], env), act.output).data
  {
    var fused := FusedOp(mm, act);
    var x, y := Lookup(env, mm.inputs[0]), Lookup(env, mm.inputs[1]);
    PairOptimised(mm, act);
    KernelMeansFusedOp(sem, Optimised(mm, act), act.kind, x, y, schedule, c);
    TilingKeepsOp(sem, 16, fused, [x, y]);
    assert fused.inputs == mm.inputs;
    assert Args(env, fused.inputs) == [x, y];
    FusedPairMeaning(sem, mm, act, env);
    EvalTwo(sem, mm, act, env);
  }

  lemma BiasPairInputs(mm: OmniOp, add: OmniOp, k: nat)
    requires Fusable(mm, add) && add.kind.Add? && TypedPair(mm, add) && Carried(mm).None? && |mm.inputs| == 2
    requires k < 2 && add.inputs[k] != mm.output
    ensures FusedOp(mm, add).inputs == mm.inputs + [add.inputs[k]] && !SelfAdd(mm, add)
  {
    assert add.inputs == [add.inputs[0], add.inputs[1]];
    assert add.inputs[k] in add.inputs;
    WithoutOne(add.inputs, mm.output, k);
  }

  lemma BiasPairMeaning(sem: Model, mm: OmniOp, add: OmniOp, k: nat, env: Env)
    requires Fusable(mm, add) && add.kind.Add? && TypedPair(mm, add) && Carried(mm).None? && |mm.inputs| == 2
    requires k < 2 && add.inputs[k] != mm.output
    ensures Apply(sem, Optimised(mm, add),
                  [Lookup(env, mm.inputs[0]), Lookup(env, mm.inputs[1]), Lookup(env, add.inputs[k])])
            == Apply(sem, add, Args(EvalOp(sem, mm, env), add.inputs))
  {
    var fused := FusedOp(mm, add);
    BiasPairInputs(mm, add, k);
    var args := Args(env, fused.inputs);
    assert args == [Lookup(env, mm.inputs[0]), Lookup(env, mm.inputs[1]), Lookup(env, add.inputs[k])];
    TilingKeepsOp(sem, 16, fused, args);
    FusedPairMeaning(sem, mm, add, env);
  }

  /** The same for a product and a bias k of an Add: the buffer is right exactly when that bias is zero throughout. */
  lemma BiasPairEndToEndIff(sem: Model, mm: OmniOp, add: OmniOp, k: nat, env: Env, schedule: seq<Thread>, c: seq<real>)
    requires mm.kind.MatMul? && Fusable(mm, add) && add.kind.Add? && TypedPair(mm, add) && Carried(mm).None?
    requires mm.id == 0 && |mm.inputs| == 2
    requires k < 2 && add.inputs[k] != mm.output
    requires var x, y := Lookup(env, mm.inputs[0]), Lookup(env, mm.inputs[1]);
             && Conformable(x, y) && |c| == x.shape[0] * y.shape[1] && Finishes(sem, Optimised(mm, add), x, y, schedule)
             && ProductTyped(sem, add.resultType, x.shape[0], y.shape[1])
    ensures var x, y := Lookup(env, mm.inputs[0]), Lookup(env, mm.inputs[1]);
            && Optimise(VulkanGeneric, [mm, add]) == [Optimised(mm, add)]
            && (Output(sem, Optimised(mm, add), x, y, schedule, c) == Lookup(Eval(sem, [mm, add], env), add.output).data
                <==> ZeroBias(sem, Lookup(env, add.inputs[k]), x.shape[0], y.shape[1]))
  {
    var x, y, bias := Lookup(env, mm.inputs[0]), Lookup(env, mm.inputs[1]), Lookup(env, add.inputs[k]);
    var o := Optimised(mm, add);
    PairOptimised(mm, add);
    KernelDropsBias(sem, o, x, y, bias, schedule, c);
    BiasPairMeaning(sem, mm, add, k, env);
    EvalTwo(sem, mm, add, env);
  }

  // ---- One module whose bias is lost ----

  function BiasModule(t: TensorType): seq<OmniOp> { ProductThen(t, [Op(1, Add, ["c", "bias"], "d", t)]) }

  lemma BiasModuleMeans(sem: Model, t: TensorType, env: Env)
    requires UnitType(sem, t) && UnitInputs(env, 2.0, 3.0) && Lookup(env, "bias") == Unit(1.0)
    ensures Lookup(Eval(sem, BiasModule(t), env), "d").data == [7.0]
  {
    var ops := BiasModule(t);
    assert ops == [ops[0], ops[1]];
    EvalTwo(sem, ops[0], ops[1], env);
    UnitMatMul(sem, t, env, 2.0, 3.0);
    var mid := env["c" := Unit(6.0)];
    assert "bias" != "c" by { assert |"bias"| == 4 && |"c"| == 1; }
    assert Args(mid, ["c", "bias"]) == [Unit(6.0), Unit(1.0)];
    UnitElementwise(sem, Add, t, Unit(6.0), Unit(1.0));
  }

  /** 2·3 + 1 is 7, but every finished run of the optimised module's kernel stores 6. */
  lemma BiasModuleLosesBias(sem: Model, t: TensorType, env: Env, schedule: seq<Thread>, c: real)
    requires UnitType(sem, t) && UnitInputs(env, 2.0, 3.0) && Lookup(env, "bias") == Unit(1.0)
    requires var o := Optimised(BiasModule(t)[0], BiasModule(t)[1]);
             Conformable(Unit(2.0), Unit(3.0)) && Finishes(sem, o, Unit(2.0), Unit(3.0), schedule)
    ensures var o := Optimised(BiasModule(t)[0], BiasModule(t)[1]);
            && Optimise(VulkanGeneric, BiasModule(t)) == [o]
            && Lookup(Eval(sem, BiasModule(t), env), "d").data == [7.0]
            && Output(sem, o, Unit(2.0), Unit(3.0), schedule, [c]) == [6.0]
  {
    BiasModuleMeans(sem, t, env);
    var mm, add := BiasModule(t)[0], BiasModule(t)[1];
    assert BiasModule(t) == [mm, add];
    PairOptimised(mm, add);
    KernelDropsBias(sem, Optimised(mm, add), Unit(2.0), Unit(3.0), Unit(1.0), schedule, [c]);
    UnitProduct(2.0, 3.0);
  }
}
