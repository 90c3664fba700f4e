/** Blind splitting and scheduling (omni-net/src/scheduler/router.rs). */
module Router {
  import opened Prelude
  import opened Dialect

  /** A float without rounding: a real, an infinity or not a number. */
  datatype Float = Finite(r: real) | PosInf | NegInf | NaN

  datatype WorkerNode = WorkerNode(peerId: string, fp16Tflops: real, rttMs: real, vramBytes: nat, currentLoad: real)

  datatype TaskDispatch = TaskDispatch(targetPeerId: string, opId: nat, op: OmniOp, priority: Float)

  predicate Sensitive(kind: OpKind) { kind.Gather? || kind.Scatter? || kind.Softmax? }

  predicate Offloadable(kind: OpKind) {
    kind.MatMul? || kind.BatchedMatMul? || kind.Add? || kind.Mul? || kind.Unary?
  }

  /** The operations that are (or are not) offloadable, in their original order. */
  function Part(ops: seq<OmniOp>, offload: bool): seq<OmniOp> {
    if ops == [] then []
    else
      var k := |ops| - 1;
      Part(ops[..k], offload) + if Offloadable(ops[k].kind) == offload then [ops[k]] else []
  }

  method BlindSplit(m: OmniModule) returns (local: seq<OmniOp>, global: seq<OmniOp>)
    ensures local == Part(m.ops, false) && global == Part(m.ops, true)
  {
    local, global := [], [];
    for i := 0 to |m.ops|
      invariant local == Part(m.ops[..i], false) && global == Part(m.ops[..i], true)
    {
      var op := m.ops[i];
      assert m.ops[..i + 1][..i] == m.ops[..i];
      if Sensitive(op.kind) {
        local := local + [op];
      } else if Offloadable(op.kind) {
        global := global + [op];
      } else {
        local := local + [op];
      }
    }
    assert m.ops[..|m.ops|] == m.ops;
  }

  /** Nothing is lost, duplicated or invented. */
  lemma {:induction false} SplitConserves(ops: seq<OmniOp>)
    ensures multiset(Part(ops, false)) + multiset(Part(ops, true)) == multiset(ops)
  {
    if ops != [] {
      var k := |ops| - 1;
      SplitConserves(ops[..k]);
      assert ops == ops[..k] + [ops[k]];
      assert multiset(ops) == multiset(ops[..k]) + multiset{ops[k]};
      var there := Offloadable(ops[k].kind);
      assert multiset(Part(ops, there)) == multiset(Part(ops[..k], there)) + multiset{ops[k]};
      assert Part(ops, !there) == Part(ops[..k], !there);
    }
  }

  /** Only offloadable operations leave the machine, and those are never sensitive. */
  lemma {:induction false} SensitiveStaysLocal(ops: seq<OmniOp>)
    ensures forall op :: op in Part(ops, true) <==> op in ops && (op.kind.MatMul? || op.kind.BatchedMatMul?
                                                                  || op.kind.Add? || op.kind.Mul? || op.kind.Unary?)
    ensures forall op | op in ops && (op.kind.Gather? || op.kind.Scatter? || op.kind.Softmax?) ::
              op in Part(ops, false) && op !in Part(ops, true)
  {
    if ops != [] {
      var k := |ops| - 1;
      SensitiveStaysLocal(ops[..k]);
      assert ops == ops[..k] + [ops[k]];
    }
  }

  ghost predicate IncreasingIds(ops: seq<OmniOp>) {
    forall i, j | 0 <= i < j < |ops| :: ops[i].id < ops[j].id
  }

  /** Each part of a module with increasing ids has increasing ids, so both keep the program order. */
  lemma {:induction false} SplitIsStable(ops: seq<OmniOp>, offload: bool)
    requires IncreasingIds(ops)
    ensures IncreasingIds(Part(ops, offload))
    ensures forall op | op in Part(ops, offload) :: op in ops
  {
    if ops != [] {
      var k := |ops| - 1;
      SplitIsStable(ops[..k], offload);
      var init := Part(ops[..k], offload);
      forall i | 0 <= i < |init| ensures init[i].id < ops[k].id {
        assert init[i] in ops[..k];
      }
    }
  }

  // ---- Scheduling ----

  /** x / y, where a zero y is the positive zero that 1 - 1 rounds to. */
  function Divide(x: real, y: real): Float {
    if y != 0.0 then Finite(x / y) else if x > 0.0 then PosInf else if x < 0.0 then NegInf else NaN
  }

  function Sign(x: Float): real {
    match x
    case Finite(r) => r
    case PosInf => 1.0
    case NegInf => -1.0
    case NaN => 0.0
  }

  /** An infinity times zero is not a number; otherwise it keeps to the rule of signs. */
  function Times(x: Float, y: Float): Float {
    if x.NaN? || y.NaN? then NaN
    else if x.Finite? && y.Finite? then Finite(x.r * y.r)
    else if Sign(x) == 0.0 || Sign(y) == 0.0 then NaN
    else if (Sign(x) > 0.0) == (Sign(y) > 0.0) then PosInf
    else NegInf
  }

  /** The comparison x > y, false whenever one is not a number. */
  predicate Greater(x: Float, y: Float) {
    match x
    case Finite(r) => y.NegInf? || (y.Finite? && r > y.r)
    case PosInf => y.NegInf? || y.Finite?
    case NegInf => false
    case NaN => false
  }

  function LoadFactor(w: WorkerNode): real {
    if w.currentLoad >= 99.0 then 100.0 else 1.0 + w.currentLoad / 100.0
  }

  function Score(w: WorkerNode): Float {
    Times(Divide(w.fp16Tflops, LoadFactor(w)), Divide(1000.0, w.rttMs + 1.0))
  }

  /** A worker with figures as a measurement gives them. */
  predicate Measured(w: WorkerNode) { w.fp16Tflops >= 0.0 && w.rttMs >= 0.0 && w.currentLoad >= 0.0 }

  /** Throughput over load times inverse latency; from 99 percent load on the load counts a hundredfold. */
  function Figure(w: WorkerNode): real
    requires Measured(w)
  {
    if w.currentLoad < 99.0 then w.fp16Tflops / (1.0 + w.currentLoad / 100.0) * (1000.0 / (w.rttMs + 1.0))
    else w.fp16Tflops / 100.0 * (1000.0 / (w.rttMs + 1.0))
  }

  lemma MeasuredScore(w: WorkerNode)
    requires Measured(w)
    ensures LoadFactor(w) >= 1.0 && Score(w) == Finite(Figure(w))
  {}

  lemma QuotientSign(x: real, y: real)
    requires y != 0.0
    ensures x > 0.0 && y > 0.0 ==> x / y > 0.0
    ensures x < 0.0 && y > 0.0 ==> x / y < 0.0
    ensures x == 0.0 ==> x / y == 0.0
  {}

  /** Where the score divides by zero: no throughput gives no number, otherwise an infinity of its sign. */
  lemma DegenerateScore(w: WorkerNode)
    requires w.rttMs == -1.0 || w.currentLoad == -100.0
    ensures w.fp16Tflops == 0.0 ==> Score(w) == NaN
    ensures w.fp16Tflops > 0.0 && w.rttMs >= -1.0 && w.currentLoad >= -100.0 ==> Score(w) == PosInf
    ensures w.fp16Tflops < 0.0 && w.rttMs >= -1.0 && w.currentLoad >= -100.0 ==> Score(w) == NegInf
  {
    if w.rttMs != -1.0 { QuotientSign(1000.0, w.rttMs + 1.0); }
    if w.currentLoad != -100.0 { QuotientSign(w.fp16Tflops, LoadFactor(w)); }
  }

  lemma QuotientNonNegative(x: real, y: real)
    requires x >= 0.0 && y > 0.0
    ensures x / y >= 0.0
  {}

  lemma ScoreNonNegative(w: WorkerNode)
    requires Measured(w)
    ensures Score(w).Finite? && Score(w).r >= 0.0
  {
    MeasuredScore(w);
    QuotientNonNegative(w.fp16Tflops, LoadFactor(w));
    QuotientNonNegative(1000.0, w.rttMs + 1.0);
    var x, y := w.fp16Tflops / LoadFactor(w), 1000.0 / (w.rttMs + 1.0);
    assert x * y >= 0.0;
  }

  lemma NonNegativeFactor(a: real, y: real)
    requires y > 0.0 && a * y >= 0.0
    ensures a >= 0.0
  {}

  lemma DivideBoth(q: real, x: real, y: real)
    requires y > 0.0 && q * y <= x
    ensures q <= x / y
  {
    var k := x / y;
    assert k * y == x;
    NonNegativeFactor(k - q, y);
  }

  lemma Shrinking(x: real, y: real, y': real)
    requires 0.0 <= x && 0.0 < y' <= y
    ensures x / y <= x / y'
  {
    var q := x / y;
    assert q >= 0.0 by { QuotientNonNegative(x, y); }
    assert q * y == x;
    assert q * y' <= x by { assert q * (y - y') >= 0.0; }
    assert q <= x / y' by { DivideBoth(q, x, y'); }
  }

  lemma QuotientMonotone(x: real, y: real, x': real, y': real)
    requires 0.0 <= x <= x' && 0.0 < y' <= y
    ensures x / y <= x' / y'
  {
    assert x / y <= x' / y by { assert (x' - x) / y >= 0.0 by { QuotientNonNegative(x' - x, y); } }
    assert x' / y <= x' / y' by { Shrinking(x', y, y'); }
  }

  lemma NonNegativeProduct(x: real, y: real)
    requires x >= 0.0 && y >= 0.0
    ensures x * y >= 0.0
  {}

  lemma ProductsMonotone(a: real, b: real, c: real, d: real)
    requires 0.0 <= a <= b && c <= d && 0.0 <= d
    ensures a * c <= b * d
  {
    NonNegativeProduct(a, d - c);
    NonNegativeProduct(b - a, d);
    assert b * d - a * c == a * (d - c) + (b - a) * d;
  }

  lemma RatesMonotone(t: real, t': real, f: real, f': real, r: real, r': real)
    requires 0.0 <= t <= t' && 0.0 < f' <= f && 0.0 < r' <= r
    ensures (t / f) * (1000.0 / r) <= (t' / f') * (1000.0 / r')
  {
    var a, b, c, d := t / f, t' / f', 1000.0 / r, 1000.0 / r';
    assert a <= b by { QuotientMonotone(t, f, t', f'); }
    assert c <= d by { QuotientMonotone(1000.0, r, 1000.0, r'); }
    assert 0.0 <= a by { QuotientNonNegative(t, f); }
    assert 0.0 <= d by { QuotientNonNegative(1000.0, r'); }
    ProductsMonotone(a, b, c, d);
  }

  /** More throughput, less latency and less load never make the score worse. */
  lemma ScoreMonotone(v: WorkerNode, w: WorkerNode)
    requires Measured(v) && Measured(w)
    requires v.fp16Tflops <= w.fp16Tflops && w.rttMs <= v.rttMs && w.currentLoad <= v.currentLoad
    ensures Score(v).Finite? && Score(w).Finite? && Score(v).r <= Score(w).r
  {
    MeasuredScore(v);
    MeasuredScore(w);
    RatesMonotone(v.fp16Tflops, w.fp16Tflops, LoadFactor(v), LoadFactor(w), v.rttMs + 1.0, w.rttMs + 1.0);
  }

  /** Position b holds the first worker with the largest score among those that have one above -1. */
  ghost predicate FirstBest(workers: seq<WorkerNode>, b: int) {
    && 0 <= b < |workers| && Greater(Score(workers[b]), Finite(-1.0))
    && (forall i | 0 <= i < |workers| :: !Greater(Score(workers[i]), Score(workers[b])))
    && (forall i | 0 <= i < b && !Score(workers[i]).NaN? :: Greater(Score(workers[b]), Score(workers[i])))
  }

  /** The search starts from the first worker at -1, so a worker is only chosen for its score when that is above -1. */
  ghost predicate Chosen(workers: seq<WorkerNode>, b: int, best: Float) {
    if exists i :: 0 <= i < |workers| && Greater(Score(workers[i]), Finite(-1.0)) then
      FirstBest(workers, b) && best == Score(workers[b])
    else b == 0 && best == Finite(-1.0)
  }

  lemma GreaterChain(x: Float, y: Float, z: Float)
    requires Greater(x, y) && !Greater(z, y) && !z.NaN?
    ensures Greater(x, z)
  {}

  method BestWorker(workers: seq<WorkerNode>) returns (b: nat, best: Float)
    requires workers != []
    ensures b < |workers| && Chosen(workers, b, best)
  {
    b, best := 0, Finite(-1.0);
    for i := 0 to |workers|
      invariant b < |workers|
      invariant best == Finite(-1.0) ==> b == 0
      invariant best != Finite(-1.0) ==> b < i && best == Score(workers[b]) && Greater(best, Finite(-1.0))
      invariant forall j | 0 <= j < i :: !Greater(Score(workers[j]), best)
      invariant best != Finite(-1.0) ==>
                  forall j | 0 <= j < b && !Score(workers[j]).NaN? :: Greater(best, Score(workers[j]))
    {
      var score := Score(workers[i]);
      if Greater(score, best) {
        forall j | 0 <= j < i && !Score(workers[j]).NaN? ensures Greater(score, Score(workers[j])) {
          GreaterChain(score, best, Score(workers[j]));
        }
        b, best := i, score;
      }
    }
  }

  /** Measured workers are always chosen for their score, the first with the largest. */
  lemma MeasuredChosenIff(workers: seq<WorkerNode>, b: int, best: Float)
    requires workers != []
    requires forall w | w in workers :: w.fp16Tflops >= 0.0 && w.rttMs >= 0.0 && w.currentLoad >= 0.0
    ensures Chosen(workers, b, best) <==>
            && 0 <= b < |workers| && best == Finite(Figure(workers[b]))
            && (forall i | 0 <= i < |workers| :: Figure(workers[i]) <= Figure(workers[b]))
            && (forall i | 0 <= i < b :: Figure(workers[i]) < Figure(workers[b]))
  {
    forall i | 0 <= i < |workers|
      ensures Score(workers[i]) == Finite(Figure(workers[i])) && Figure(workers[i]) >= 0.0
    {
      MeasuredScore(workers[i]);
      ScoreNonNegative(workers[i]);
    }
    assert Greater(Score(workers[0]), Finite(-1.0));
  }

  /** A choice other than the default has a number above -1 or an infinite score; not a number is never chosen. */
  lemma ChosenScore(workers: seq<WorkerNode>, b: int, best: Float)
    requires Chosen(workers, b, best)
    ensures best == Finite(-1.0) ==> b == 0
    ensures best != Finite(-1.0) ==> 0 <= b < |workers| && best == Score(workers[b])
    ensures best != Finite(-1.0) ==> best == PosInf || (best.Finite? && best.r > -1.0)
  {}

  lemma ChosenUnique(workers: seq<WorkerNode>, a: int, b: int, x: Float, y: Float)
    requires Chosen(workers, a, x) && Chosen(workers, b, y)
    ensures a == b && x == y
  {}

  /** Every operation once, in order, to worker w, at the score over the position. */
  ghost predicate DispatchedTo(dispatches: seq<TaskDispatch>, ops: seq<OmniOp>, w: WorkerNode, best: Float) {
    && |dispatches| == |ops|
    && forall i | 0 <= i < |ops| ::
         dispatches[i] == TaskDispatch(w.peerId, ops[i].id, ops[i], Times(best, Finite(1.0 / (i + 1) as real)))
  }

  /** Every operation once, in order, to the same chosen worker, at the best score over its position. */
  method ScheduleGlobalOps(ops: seq<OmniOp>, workers: seq<WorkerNode>) returns (r: Result<seq<TaskDispatch>>)
    ensures workers == [] ==> r == Err(NoWorkers)
    ensures workers != [] ==> r.Ok? && exists b: nat, best ::
              b < |workers| && Chosen(workers, b, best) && DispatchedTo(r.value, ops, workers[b], best)
  {
    if workers == [] { return Err(NoWorkers); }
    var dispatches: seq<TaskDispatch> := [];
    ghost var b0, s0 := BestWorker(workers);
    for i := 0 to |ops|
      invariant DispatchedTo(dispatches, ops[..i], workers[b0], s0)
    {
      var b, best := BestWorker(workers);
      ChosenUnique(workers, b, b0, best, s0);
      var priority := Times(best, Finite(1.0 / (i + 1) as real));
      dispatches := dispatches + [TaskDispatch(workers[b].peerId, ops[i].id, ops[i], priority)];
    }
    assert ops[..|ops|] == ops;
    r := Ok(dispatches);
  }
}
