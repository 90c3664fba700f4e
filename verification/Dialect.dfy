/** The `omni.tensor` dialect: types, operations, modules (omni-core/src/mlir/dialect.rs). */
module Dialect {
  import opened Prelude

  datatype ElementType = U8 | I8 | I16 | I32 | I64 | F16 | BF16 | F32 | F64 | F8E4M3 | BoolType | OpaqueType

  datatype MemoryEncoding = RowMajor | ColumnMajor | Tiled(tileShape: seq<int>) | Sparse

  /** A dimension of `None` is dynamic. */
  datatype TensorType = TensorType(shape: seq<Option<int>>, elementType: ElementType, encoding: MemoryEncoding)

  datatype UnaryFunc = Exp | Log | Sqrt | Rsqrt | AbsFunc | Neg | Ceil | Floor | Round | Cos | Sin | Tan | Erf
  datatype BinaryFunc = Pow | MaxFunc | MinFunc | Mod | Atan2

  datatype OpKind =
    | MatMul | BatchedMatMul | Gemv
    | Conv(numSpatialDims: nat) | ConvTranspose(numSpatialDims: nat) | DepthwiseConv
    | ScaledDotProductAttention(causal: bool) | MultiHeadAttention(numHeads: nat)
    | Add | Mul | Div | Sub | Unary(unary: UnaryFunc) | Binary(binary: BinaryFunc)
    | Relu | Sigmoid | Tanh | Gelu | Silu | Softmax(axis: int)
    | LayerNorm(eps: real) | GroupNorm(numGroups: nat, eps: real) | RmsNorm(eps: real)
    | ReduceSum(axes: seq<int>, keepDims: bool) | ReduceMean(axes: seq<int>, keepDims: bool)
    | ReduceMax(axes: seq<int>, keepDims: bool)
    | Reshape | Transpose(perm: seq<nat>) | Concat(axis: int) | Split(axis: int, splitSizes: seq<int>)
    | Broadcast | Gather(axis: int) | Scatter(axis: int)
    | MemCopy | Fill(value: real)
    | OpaqueKernel(ptxHash: nat)

  datatype AttrValue = Int(i: int) | Float(f: real) | Bool(b: bool) | Str(s: string) | IntList(l: seq<int>)

  datatype OmniOp = OmniOp(
    id: nat, kind: OpKind, inputs: seq<string>, output: string,
    attrs: map<string, AttrValue>, resultType: TensorType)

  predicate IsMatMul(kind: OpKind) { kind.MatMul? || kind.BatchedMatMul? }

  /** Every id is the position of its operation, as `push_op` assigns them. */
  ghost predicate IdsArePositions(ops: seq<OmniOp>) {
    forall i | 0 <= i < |ops| :: ops[i].id == i
  }

  /** Static single assignment: no two operations define the same name. */
  ghost predicate UniqueOutputs(ops: seq<OmniOp>) {
    forall i, j | 0 <= i < j < |ops| :: ops[i].output != ops[j].output
  }

  /** No operation reads a name that it or a later operation defines. */
  ghost predicate DefinedBeforeUse(ops: seq<OmniOp>) {
    forall i, j | 0 <= i <= j < |ops| :: ops[j].output !in ops[i].inputs
  }

  ghost predicate Defines(ops: seq<OmniOp>, n: string) {
    exists op :: op in ops && op.output == n
  }

  ghost predicate Reads(ops: seq<OmniOp>, n: string) {
    exists j :: 0 <= j < |ops| && n in ops[j].inputs
  }

  class OmniModule {
    var ops: seq<OmniOp>
    var valueTypes: map<string, TensorType>
    var nextId: nat

    constructor ()
      ensures ops == [] && valueTypes == map[] && nextId == 0
    {
      ops, valueTypes, nextId := [], map[], 0;
    }

    /** Holds of every module built by PushOp alone. */
    ghost predicate Built() reads this {
      nextId == |ops| && IdsArePositions(ops) && forall op | op in ops :: op.output in valueTypes
    }

    method PushOp(op: OmniOp) returns (id: nat)
      modifies this
      ensures id == old(nextId) && nextId == id + 1
      ensures ops == old(ops) + [op.(id := id)]
      ensures valueTypes == old(valueTypes)[op.output := op.resultType]
      ensures old(Built()) ==> Built()
    {
      id := nextId;
      nextId := nextId + 1;
      valueTypes := valueTypes[op.output := op.resultType];
      ops := ops + [op.(id := id)];
    }
  }
}
