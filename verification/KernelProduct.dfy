/** With tiles as wide as the workgroup, every schedule of the shader computes the matrix product. */
module KernelProduct {
  import opened Prelude
  import opened Matrices
  import opened Semantics
  import opened TiledKernel

  /** The operands, with zeros where a thread would read past an edge. */
  function PadA(l: Launch): Matrix { (r, i) => if 0 <= r < l.m && 0 <= i < l.k then Cell(l.a, l.k, r, i) else 0.0 }
  function PadB(l: Launch): Matrix { (i, c) => if 0 <= i < l.k && 0 <= c < l.n then Cell(l.b, l.n, i, c) else 0.0 }

  /** Products a thread at p has accumulated. */
  function Products(p: Position): nat {
    16 * p.phase + if p.offset < 3 then 0 else if p.offset < 19 then p.offset - 3 else 16
  }

  /** A thread at p has loaded its own cells of the current phase. */
  ghost predicate LoadedA(l: Launch, p: Position, tile: map<Slot, real>, t: Thread) {
    p.offset >= 1 ==> Own(t) in tile && tile[Own(t)] == PadA(l)(l.Row(t), 16 * p.phase + t.tx)
  }

  ghost predicate LoadedB(l: Launch, p: Position, tile: map<Slot, real>, t: Thread) {
    p.offset >= 2 ==> Own(t) in tile && tile[Own(t)] == PadB(l)(16 * p.phase + t.ty, l.Col(t))
  }

  ghost predicate TilesLoaded(l: Launch, s: State) {
    forall t | l.Has(t) && s.at(t).phase < l.Phases() ::
        LoadedA(l, s.at(t), s.tileA, t) && LoadedB(l, s.at(t), s.tileB, t)
  }

  ghost predicate PartialSum(l: Launch, p: Position, sum: real, t: Thread) {
    sum == Dot(Products(p), PadA(l), PadB(l), l.Row(t), l.Col(t))
  }

  ghost predicate SumsPartial(l: Launch, s: State) {
    forall t | l.Has(t) && s.at(t) != End(l) :: PartialSum(l, s.at(t), s.sum(t), t)
  }

  ghost predicate ValuesRight(sem: Model, l: Launch, s: State) {
    forall i | 0 <= i < |s.log| :: s.log[i].value == Expected(sem, l, l.Row(s.log[i].writer), l.Col(s.log[i].writer))
  }

  ghost predicate Inv(sem: Model, l: Launch, s: State) {
    Orderly(l, s) && TilesLoaded(l, s) && SumsPartial(l, s) && !s.fault && ValuesRight(sem, l, s)
  }

  // ---- One step ----

  /** While t multiplies, every thread of its group is between the two barriers of the same phase. */
  lemma GroupInPhase(l: Launch, s: State, t: Thread, u: Thread)
    requires l.cfg.Fits() && Orderly(l, s) && l.Has(t) && l.Has(u) && SameGroup(t, u)
    requires Multiplies(l, s.at(t))
    ensures s.at(u).phase == s.at(t).phase && s.at(u).offset >= 2
  {
    assert SameGroup(u, t);
    assert Passed(l, s.at(t)) <= Reached(l, s.at(u)) && Passed(l, s.at(u)) <= Reached(l, s.at(t));
  }

  /** A product reads the entries it should: both cells were loaded in this phase. */
  lemma ReadsLoaded(l: Launch, s: State, t: Thread)
    requires l.cfg.Fits() && Orderly(l, s) && TilesLoaded(l, s) && l.Has(t) && Multiplies(l, s.at(t))
    ensures CanRead(s, t)
    ensures s.tileA[LeftSlot(s.at(t), t)] == PadA(l)(l.Row(t), Products(s.at(t)))
    ensures s.tileB[RightSlot(s.at(t), t)] == PadB(l)(Products(s.at(t)), l.Col(t))
  {
    var k := s.at(t).offset - 3;
    var u, v := t.(tx := k), t.(ty := k);
    GroupInPhase(l, s, t, u);
    GroupInPhase(l, s, t, v);
    assert Own(u) == LeftSlot(s.at(t), t) && Own(v) == RightSlot(s.at(t), t);
    assert LoadedA(l, s.at(u), s.tileA, u) && LoadedB(l, s.at(v), s.tileB, v);
    assert l.Row(u) == l.Row(t) && l.Col(v) == l.Col(t);
  }

  lemma FetchIsPad(l: Launch, p: Position, t: Thread)
    requires l.cfg.Fits() && l.Has(t)
    ensures FetchA(l, p, t) == PadA(l)(l.Row(t), 16 * p.phase + t.tx)
    ensures FetchB(l, p, t) == PadB(l)(16 * p.phase + t.ty, l.Col(t))
  {
    assert p.phase * l.cfg.tileK == 16 * p.phase;
    assert t.gy * l.cfg.tileM == 16 * t.gy && t.gx * l.cfg.tileN == 16 * t.gx;
  }

  lemma StepKeepsTiles(sem: Model, l: Launch, s: State, t: Thread)
    requires l.cfg.Fits() && TilesLoaded(l, s) && Enabled(l, s, t)
    ensures TilesLoaded(l, Execute(sem, l, s, t))
  {
    var s' := Execute(sem, l, s, t);
    FetchIsPad(l, s.at(t), t);
    forall u | l.Has(u) && s'.at(u).phase < l.Phases()
      ensures LoadedA(l, s'.at(u), s'.tileA, u) && LoadedB(l, s'.at(u), s'.tileB, u)
    {
      if u != t {
        if Own(u) == Own(t) { OwnDeterminesThread(u, t); }
        assert LoadedA(l, s.at(u), s.tileA, u) && LoadedB(l, s.at(u), s.tileB, u);
      }
    }
  }

  /** One more term brings a partial sum to the next position. */
  lemma AddTerm(l: Launch, p: Position, sum: real, sum': real, x: real, y: real, t: Thread)
    requires l.cfg.Fits() && PartialSum(l, p, sum, t) && Multiplies(l, p)
    requires x == PadA(l)(l.Row(t), Products(p)) && y == PadB(l)(Products(p), l.Col(t))
    requires sum' == sum + x * y
    ensures PartialSum(l, Next(l, p), sum', t)
  {
    assert Products(Next(l, p)) == Products(p) + 1;
    DotNext(Products(p), PadA(l), PadB(l), l.Row(t), l.Col(t), sum, x, y);
  }

  lemma WaitingKeepsProducts(l: Launch, p: Position)
    requires l.cfg.Fits() && OnPath(l, p) && p.phase < l.Phases() && !Multiplies(l, p)
    ensures Products(Next(l, p)) == Products(p)
  {}

  lemma NextSumIs(l: Launch, s: State, t: Thread)
    requires Multiplies(l, s.at(t)) ==> CanRead(s, t)
    ensures Multiplies(l, s.at(t)) ==>
              NextSum(l, s, t) == s.sum(t) + s.tileA[LeftSlot(s.at(t), t)] * s.tileB[RightSlot(s.at(t), t)]
    ensures !Multiplies(l, s.at(t)) ==> NextSum(l, s, t) == s.sum(t)
  {}

  lemma PartialSumStep(l: Launch, s: State, t: Thread)
    requires l.cfg.Fits() && Orderly(l, s) && TilesLoaded(l, s) && l.Has(t) && s.at(t).phase < l.Phases()
    requires PartialSum(l, s.at(t), s.sum(t), t)
    ensures PartialSum(l, Next(l, s.at(t)), NextSum(l, s, t), t)
  {
    if Multiplies(l, s.at(t)) {
      ReadsLoaded(l, s, t);
      NextSumIs(l, s, t);
      AddTerm(l, s.at(t), s.sum(t), NextSum(l, s, t), s.tileA[LeftSlot(s.at(t), t)], s.tileB[RightSlot(s.at(t), t)], t);
    } else {
      NextSumIs(l, s, t);
      WaitingKeepsProducts(l, s.at(t));
    }
  }

  lemma StepKeepsSums(sem: Model, l: Launch, s: State, t: Thread)
    requires l.cfg.Fits() && Orderly(l, s) && TilesLoaded(l, s) && SumsPartial(l, s) && Enabled(l, s, t)
    ensures SumsPartial(l, Execute(sem, l, s, t))
  {
    NextOnPath(l, s.at(t));
    if s.at(t).phase < l.Phases() { PartialSumStep(l, s, t); }
  }

  lemma StepDoesNotFault(sem: Model, l: Launch, s: State, t: Thread)
    requires l.cfg.Fits() && Orderly(l, s) && TilesLoaded(l, s) && Enabled(l, s, t)
    ensures !Faults(l, s, t)
  {
    if Multiplies(l, s.at(t)) { ReadsLoaded(l, s, t); }
  }

  lemma {:induction false} PadTail(l: Launch, j: nat, r: int, c: int)
    requires j >= l.k && 0 <= r < l.m && 0 <= c < l.n
    ensures Dot(j, PadA(l), PadB(l), r, c) == Dot(l.k, View(l.a, l.k), View(l.b, l.n), r, c)
  {
    if j == l.k {
      DotCong(j, PadA(l), PadB(l), View(l.a, l.k), View(l.b, l.n), r, r, c, c);
    } else {
      PadTail(l, j - 1, r, c);
    }
  }

  lemma CellInRange(l: Launch, t: Thread)
    requires l.cfg.Fits() && l.Stores(t)
    ensures 0 <= l.Row(t) < l.m && 0 <= l.Col(t) < l.n
  {}

  /** A thread that reaches its store has summed the whole inner dimension. */
  lemma FinalSum(l: Launch, s: State, t: Thread)
    requires l.cfg.Fits() && SumsPartial(l, s) && l.Stores(t) && s.at(t) == StorePosition(l)
    ensures s.sum(t) == Dot(l.k, View(l.a, l.k), View(l.b, l.n), l.Row(t), l.Col(t))
  {
    CellInRange(l, t);
    assert PartialSum(l, s.at(t), s.sum(t), t);
    assert Products(StorePosition(l)) >= l.k;
    PadTail(l, Products(StorePosition(l)), l.Row(t), l.Col(t));
  }

  lemma StepKeepsValues(sem: Model, l: Launch, s: State, t: Thread)
    requires l.cfg.Fits() && SumsPartial(l, s) && ValuesRight(sem, l, s) && Enabled(l, s, t)
    ensures ValuesRight(sem, l, Execute(sem, l, s, t))
  {
    if s.at(t) == StorePosition(l) && l.Stores(t) { FinalSum(l, s, t); }
  }

  // ---- Every schedule ----

  /** At every moment of every schedule: tiles loaded, sums partial, no fault, stores correct. */
  lemma {:induction false} EveryScheduleKeepsInv(sem: Model, l: Launch, schedule: seq<Thread>)
    requires l.cfg.Fits()
    ensures Inv(sem, l, Run(sem, l, schedule))
  {
    EveryScheduleOrderly(sem, l, schedule);
    if schedule != [] {
      var s, t := Run(sem, l, schedule[..|schedule| - 1]), schedule[|schedule| - 1];
      EveryScheduleKeepsInv(sem, l, schedule[..|schedule| - 1]);
      if Enabled(l, s, t) {
        StepKeepsTiles(sem, l, s, t);
        StepKeepsSums(sem, l, s, t);
        StepDoesNotFault(sem, l, s, t);
        StepKeepsValues(sem, l, s, t);
      }
    }
  }

  lemma IndexDeterminesCell(n: nat, r: int, c: int, r': int, c': int)
    requires 0 <= r && 0 <= r' && 0 <= c < n && 0 <= c' < n && r * n + c == r' * n + c'
    ensures r == r' && c == c'
  {
    DivModOfIndex(n, r, c);
    DivModOfIndex(n, r', c');
  }

  /** Threads that store are determined by the cell they store. */
  lemma CellDeterminesThread(l: Launch, t: Thread, u: Thread)
    requires l.cfg.tileM == l.cfg.tileN == 16 && l.Stores(t) && l.Stores(u) && l.Row(t) == l.Row(u)
    requires l.Col(t) == l.Col(u)
    ensures t == u
  {}

  /** No cell is ever written twice, in any schedule at any moment. */
  lemma NoCellWrittenTwice(sem: Model, l: Launch, schedule: seq<Thread>, i: nat, j: nat)
    requires l.cfg.Fits() && i < j < |Run(sem, l, schedule).log|
    ensures Run(sem, l, schedule).log[i].index != Run(sem, l, schedule).log[j].index
  {
    EveryScheduleOrderly(sem, l, schedule);
    var t, u := Run(sem, l, schedule).log[i].writer, Run(sem, l, schedule).log[j].writer;
    CellInRange(l, t);
    CellInRange(l, u);
    if l.Row(t) * l.n + l.Col(t) == l.Row(u) * l.n + l.Col(u) {
      IndexDeterminesCell(l.n, l.Row(t), l.Col(t), l.Row(u), l.Col(u));
      CellDeterminesThread(l, t, u);
    }
  }

  /** The log entry that writes cell (r, q). */
  lemma WriterOf(l: Launch, s: State, r: int, q: int) returns (i: nat)
    requires l.cfg.Fits() && 0 <= r < l.m && 0 <= q < l.n
    requires Orderly(l, s) && Finished(l, s)
    ensures i < |s.log| && s.log[i].index == r * l.n + q
  {
    var t := Thread(q / 16, r / 16, q % 16, r % 16);
    assert l.Row(t) == r && l.Col(t) == q;
    assert l.Stores(t) && Wrote(s, t);
    i :| 0 <= i < |s.log| && s.log[i].writer == t;
  }

  lemma EntryValue(sem: Model, l: Launch, s: State, r: int, q: int, j: int)
    requires l.cfg.Fits() && 0 <= r < l.m && 0 <= q < l.n && Inv(sem, l, s)
    requires 0 <= j < |s.log| && s.log[j].index == r * l.n + q
    ensures s.log[j].value == Expected(sem, l, r, q)
  {
    var u := s.log[j].writer;
    CellInRange(l, u);
    IndexDeterminesCell(l.n, l.Row(u), l.Col(u), r, q);
  }

  lemma StoredCell(sem: Model, l: Launch, s: State, c: seq<real>, r: int, q: int)
    requires l.cfg.Fits() && |c| == l.m * l.n && 0 <= r < l.m && 0 <= q < l.n
    requires Inv(sem, l, s) && Finished(l, s)
    ensures Cell(Stored(c, s.log), l.n, r, q) == Expected(sem, l, r, q)
  {
    var i := WriterOf(l, s, r, q);
    IndexInRange(l.m, l.n, r, q);
    forall j | 0 <= j < |s.log| && s.log[j].index == r * l.n + q ensures s.log[j].value == Expected(sem, l, r, q) {
      EntryValue(sem, l, s, r, q, j);
    }
    StoredAt(c, s.log, r * l.n + q, Expected(sem, l, r, q));
  }

  /** Any schedule that finishes leaves the activated matrix product in the output buffer. */
  lemma FinishedRunComputesProduct(sem: Model, l: Launch, schedule: seq<Thread>, c: seq<real>)
    requires l.cfg.Fits() && |c| == l.m * l.n
    requires Finished(l, Run(sem, l, schedule))
    ensures Stored(c, Run(sem, l, schedule).log) == ExpectedBuffer(sem, l)
  {
    var s := Run(sem, l, schedule);
    EveryScheduleKeepsInv(sem, l, schedule);
    forall r, q | 0 <= r < l.m && 0 <= q < l.n ensures Cell(Stored(c, s.log), l.n, r, q) == Expected(sem, l, r, q) {
      StoredCell(sem, l, s, c, r, q);
    }
    FlatUnique(Stored(c, s.log), l.m, l.n, (r, q) => Expected(sem, l, r, q));
  }

  /** v is the Relu, Gelu or Silu of p, or p itself where the step is none of them. */
  ghost predicate Activated(sem: Model, step: Option<string>, p: real, v: real) {
    && (step == Some("Relu") ==> v == if p < 0.0 then 0.0 else p)
    && (step == Some("Gelu") ==> v == p * 0.5 * (1.0 + sem.erf(p * 0.70710678)))
    && (step == Some("Silu") && 1.0 + sem.exp(-p) != 0.0 ==> v == p / (1.0 + sem.exp(-p)))
    && (step != Some("Relu") && step != Some("Gelu") && step != Some("Silu") ==> v == p)
  }

  lemma EpilogueActivates(sem: Model, step: Option<string>, p: real)
    ensures Activated(sem, step, p, Epilogue(sem, step, p))
  {
    assert "Relu"[0] == 'R' && "Gelu"[0] == 'G' && "Silu"[0] == 'S';
  }

  lemma StoredEntry(sem: Model, l: Launch, schedule: seq<Thread>, c: seq<real>, r: nat, q: nat)
    requires l.cfg.Fits() && |c| == l.m * l.n && r < l.m && q < l.n
    requires Finished(l, Run(sem, l, schedule))
    ensures var out := Stored(c, Run(sem, l, schedule).log);
            0 <= r * l.n + q < |out| && out[r * l.n + q] == Expected(sem, l, r, q)
  {
    EveryScheduleKeepsInv(sem, l, schedule);
    StoredCell(sem, l, Run(sem, l, schedule), c, r, q);
    CellIsEntry(Stored(c, Run(sem, l, schedule).log), l.m, l.n, r, q);
  }

  /** What stands in cell (r, q) of the finished buffer, in terms of the product of row r and column q. */
  lemma StoredActivation(sem: Model, l: Launch, schedule: seq<Thread>, c: seq<real>, r: nat, q: nat)
    requires l.cfg.Fits() && |c| == l.m * l.n && r < l.m && q < l.n
    requires Finished(l, Run(sem, l, schedule))
    ensures var out, p := Stored(c, Run(sem, l, schedule).log), Dot(l.k, View(l.a, l.k), View(l.b, l.n), r, q);
            0 <= r * l.n + q < |out| && Activated(sem, l.cfg.step, p, out[r * l.n + q])
  {
    StoredEntry(sem, l, schedule, c, r, q);
    EpilogueActivates(sem, l.cfg.step, Dot(l.k, View(l.a, l.k), View(l.b, l.n), r, q));
  }
}
