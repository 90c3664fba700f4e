/** Pass 4: dead code elimination, sweeping from the bottom (omni-core/src/mlir/passes.rs:229-257). */
module DeadCode {
  import opened Dialect
  import opened Semantics

  function InputsOf(op: OmniOp): set<string> { set x | x in op.inputs }

  /** The operations kept from a prefix, given the names the kept operations after it read. */
  function Sweep(ops: seq<OmniOp>, total: nat, refs: set<string>): seq<OmniOp> {
    if ops == [] then []
    else
      var k := |ops| - 1;
      var op := ops[k];
      if op.id == total - 1 || op.output in refs then Sweep(ops[..k], total, refs + InputsOf(op)) + [op]
      else Sweep(ops[..k], total, refs)
  }

  function Dce(ops: seq<OmniOp>): seq<OmniOp> { Sweep(ops, |ops|, {}) }

  // ---- What is kept ----

  /** Position j is the root, or a later needed operation reads its output. */
  ghost predicate Needed(ops: seq<OmniOp>, total: nat, j: nat)
    requires j < |ops|
    decreases |ops| - j
  {
    ops[j].id == total - 1 || exists k :: j < k < |ops| && Needed(ops, total, k) && ops[j].output in ops[k].inputs
  }

  /** The needed operations among the first n, in order. */
  ghost function Select(ops: seq<OmniOp>, total: nat, n: nat): seq<OmniOp>
    requires n <= |ops|
  {
    if n == 0 then [] else Select(ops, total, n - 1) + if Needed(ops, total, n - 1) then [ops[n - 1]] else []
  }

  /** refs holds exactly the names read by needed operations from n on. */
  ghost predicate RefsFrom(ops: seq<OmniOp>, total: nat, n: nat, refs: set<string>)
    requires n <= |ops|
  {
    forall x: string :: x in refs <==> exists k :: n <= k < |ops| && Needed(ops, total, k) && x in ops[k].inputs
  }

  lemma {:induction false} SweepSelects(ops: seq<OmniOp>, total: nat, n: nat, refs: set<string>)
    requires n <= |ops| && RefsFrom(ops, total, n, refs)
    ensures Sweep(ops[..n], total, refs) == Select(ops, total, n)
  {
    if n > 0 {
      var op := ops[n - 1];
      assert ops[..n][..n - 1] == ops[..n - 1];
      var refs' := if Needed(ops, total, n - 1) then refs + InputsOf(op) else refs;
      forall x: string
        ensures x in refs' <==> exists k :: n - 1 <= k < |ops| && Needed(ops, total, k) && x in ops[k].inputs
      {
        if x in refs {
          var k :| n <= k < |ops| && Needed(ops, total, k) && x in ops[k].inputs;
        }
      }
      SweepSelects(ops, total, n - 1, refs');
    }
  }

  /**
   The pass keeps, in order, exactly the operations from which a chain of reads leads to the root,
   where the root is whatever operation carries the id op_count - 1.
   */
  lemma DceKeepsExactlyNeeded(ops: seq<OmniOp>)
    ensures Dce(ops) == Select(ops, |ops|, |ops|)
  {
    assert ops[..|ops|] == ops;
    SweepSelects(ops, |ops|, |ops|, {});
  }

  lemma {:induction false} InSelect(ops: seq<OmniOp>, total: nat, n: nat, op: OmniOp)
    requires n <= |ops|
    ensures op in Select(ops, total, n) <==> exists j: nat :: j < n && Needed(ops, total, j) && ops[j] == op
  {
    if n > 0 { InSelect(ops, total, n - 1, op); }
  }

  lemma InDce(ops: seq<OmniOp>, op: OmniOp)
    ensures op in Dce(ops) <==> exists j: nat :: j < |ops| && Needed(ops, |ops|, j) && ops[j] == op
  {
    DceKeepsExactlyNeeded(ops);
    InSelect(ops, |ops|, |ops|, op);
  }

  /** No kept operation loses a definition it read. */
  lemma DceLosesNoDefinition(ops: seq<OmniOp>, op: OmniOp, x: string)
    requires DefinedBeforeUse(ops)
    requires op in Dce(ops) && x in op.inputs && Defines(ops, x)
    ensures Defines(Dce(ops), x)
  {
    InDce(ops, op);
    var k: nat :| k < |ops| && Needed(ops, |ops|, k) && ops[k] == op;
    var d: OmniOp :| d in ops && d.output == x;
    var j: nat :| j < |ops| && ops[j] == d;
    assert j < k;
    assert Needed(ops, |ops|, j);
    InDce(ops, d);
  }

  ghost predicate ReadLater(kept: seq<OmniOp>, p: nat)
    requires p < |kept|
  {
    exists q :: p < q < |kept| && kept[p].output in kept[q].inputs
  }

  lemma {:induction false} SweepReads(ops: seq<OmniOp>, total: nat, refs: set<string>, p: nat)
    requires p < |Sweep(ops, total, refs)|
    ensures var kept := Sweep(ops, total, refs);
            kept[p].id == total - 1 || kept[p].output in refs || ReadLater(kept, p)
  {
    var init, op := ops[..|ops| - 1], ops[|ops| - 1];
    if op.id == total - 1 || op.output in refs {
      var kept := Sweep(init, total, refs + InputsOf(op));
      if p < |kept| {
        SweepReads(init, total, refs + InputsOf(op), p);
        var all := kept + [op];
        if kept[p].output in op.inputs {
          assert all[|kept|] == op;
        } else if ReadLater(kept, p) {
          var q :| p < q < |kept| && kept[p].output in kept[q].inputs;
          assert all[q] == kept[q];
        }
      }
    } else {
      SweepReads(init, total, refs, p);
    }
  }

  /** Every kept operation but the root is read by an operation kept after it. */
  lemma KeptIsRead(ops: seq<OmniOp>, p: nat)
    requires p < |Dce(ops)| && Dce(ops)[p].id != |ops| - 1
    ensures ReadLater(Dce(ops), p)
  {
    SweepReads(ops, |ops|, {}, p);
  }

  lemma {:induction false} SweepSubset(ops: seq<OmniOp>, total: nat, refs: set<string>)
    ensures forall op | op in Sweep(ops, total, refs) :: op in ops
  {
    if ops != [] {
      var op := ops[|ops| - 1];
      SweepSubset(ops[..|ops| - 1], total, refs);
      SweepSubset(ops[..|ops| - 1], total, refs + InputsOf(op));
    }
  }

  // ---- Meaning ----

  /** Every name in refs has the same value before and after the sweep. */
  lemma {:induction false} SweepAgrees(sem: Model, ops: seq<OmniOp>, total: nat, refs: set<string>, env: Env)
    ensures forall n | n in refs :: Lookup(Eval(sem, Sweep(ops, total, refs), env), n) == Lookup(Eval(sem, ops, env), n)
  {
    if ops != [] {
      var init, op := ops[..|ops| - 1], ops[|ops| - 1];
      if op.id == total - 1 || op.output in refs {
        SweepAgrees(sem, init, total, refs + InputsOf(op), env);
        var swept := Sweep(init, total, refs + InputsOf(op));
        EvalSnoc(sem, swept, op, env);
        ArgsAgree(Eval(sem, swept, env), Eval(sem, init, env), op.inputs);
      } else {
        SweepAgrees(sem, init, total, refs, env);
      }
    }
  }

  /** The last operation survives, with its value, exactly when its id is op_count - 1. */
  lemma LastSurvivesIff(sem: Model, ops: seq<OmniOp>, env: Env)
    requires ops != [] && UniqueOutputs(ops)
    ensures var last := ops[|ops| - 1];
            && (Defines(Dce(ops), last.output) <==> last.id == |ops| - 1)
            && (last.id == |ops| - 1 ==>
                  Lookup(Eval(sem, Dce(ops), env), last.output) == Lookup(Eval(sem, ops, env), last.output))
  {
    var k := |ops| - 1;
    var init, last := ops[..k], ops[k];
    if last.id == k {
      SweepAgrees(sem, init, |ops|, InputsOf(last), env);
      var swept := Sweep(init, |ops|, InputsOf(last));
      assert {} + InputsOf(last) == InputsOf(last);
      assert Dce(ops) == swept + [last];
      EvalSnoc(sem, swept, last, env);
      ArgsAgree(Eval(sem, swept, env), Eval(sem, init, env), last.inputs);
      assert last in Dce(ops);
    } else {
      SweepSubset(init, |ops|, {});
      assert Dce(ops) == Sweep(init, |ops|, {});
      forall op | op in Dce(ops) ensures op.output != last.output {
        var i :| 0 <= i < k && init[i] == op;
        assert ops[i].output != ops[k].output;
      }
    }
  }
}
