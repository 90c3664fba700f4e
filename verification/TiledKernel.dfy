/**
 The tiled matrix-product shader (omni-core/src/codegen/spirv.rs:58-136) as a state machine over its
 threads, for whatever tile sizes the operation carries.

 Every workgroup has 16 by 16 threads and its own pair of shared tiles.  One schedule step runs one
 atomic step of one thread anywhere in the grid; a barrier lets a thread through once every thread
 of its group has reached it.  A schedule is any sequence of threads.  The shading language leaves a
 shared access outside the declared tile, or a read of a cell nobody wrote, undefined: the machine
 records either as a fault.
 */
module TiledKernel {
  import opened Prelude
  import opened Matrices
  import opened Dialect
  import opened Semantics

  const SIDE: int := 16

  // ---- What the generator reads off the operation ----

  datatype Config = Config(tileM: int, tileN: int, tileK: int, step: Option<string>) {
    predicate Positive() { tileM > 0 && tileN > 0 && tileK > 0 }
    /** The tiles are as wide as the workgroup. */
    predicate Fits() { tileM == 16 && tileN == 16 && tileK == 16 }
  }

  function IntAttr(attrs: Attrs, key: string, default: int): int {
    if key in attrs && attrs[key].Int? then attrs[key].i else default
  }

  function ConfigOf(op: OmniOp): Config {
    Config(IntAttr(op.attrs, TILE_M, 16), IntAttr(op.attrs, TILE_N, 16), IntAttr(op.attrs, TILE_K, 16),
           if FUSED_ACTIVATION in op.attrs && op.attrs[FUSED_ACTIVATION].Str? then
               Some(op.attrs[FUSED_ACTIVATION].s) else None)
  }

  /** An attribute of the wrong type counts as missing, and a missing tile size is 16. */
  lemma ConfigReads(op: OmniOp)
    ensures var tile := (key: string) => if key in op.attrs && op.attrs[key].Int? then op.attrs[key].i else 16;
            var cfg := ConfigOf(op);
            && cfg.tileM == tile("tile_m") && cfg.tileN == tile("tile_n") && cfg.tileK == tile("tile_k")
            && (forall name :: cfg.step == Some(name) <==>
                  "fused_activation" in op.attrs && op.attrs["fused_activation"] == Str(name))
  {}

  /** The line emitted before the store; unknown names, "Add" among them, emit nothing. */
  function Epilogue(sem: Model, step: Option<string>, sum: real): real {
    if step == Some("Relu") then Max(sum, 0.0)
    else if step == Some("Gelu") then sum * 0.5 * (1.0 + sem.erf(sum * 0.70710678))
    else if step == Some("Silu") then Quotient(sum, 1.0 + sem.exp(-sum))
    else sum
  }

  // ---- The machine ----

  function CeilDiv(x: nat, y: int): nat { if y <= 0 then 0 else (x + y - 1) / y }

  datatype Thread = Thread(gx: int, gy: int, tx: int, ty: int)

  predicate SameGroup(t: Thread, u: Thread) { t.gx == u.gx && t.gy == u.gy }

  /** The push constants and operands, over ceil(n/tileN) by ceil(m/tileM) workgroups. */
  datatype Launch = Launch(cfg: Config, m: nat, n: nat, k: nat, a: seq<real>, b: seq<real>) {
    function Phases(): nat { CeilDiv(k, cfg.tileK) }
    predicate Has(t: Thread) {
      0 <= t.gx < CeilDiv(n, cfg.tileN) && 0 <= t.gy < CeilDiv(m, cfg.tileM) && 0 <= t.tx < SIDE && 0 <= t.ty < SIDE
    }
    function Row(t: Thread): int { t.gy * cfg.tileM + t.ty }
    function Col(t: Thread): int { t.gx * cfg.tileN + t.tx }
    predicate Stores(t: Thread) { Has(t) && Row(t) < m && Col(t) < n }
  }

  /** A phase is load A, load B, barrier, tileK products, barrier; after the last comes the store. */
  datatype Position = Position(phase: nat, offset: nat)

  /** A cell of one workgroup's shared tile. */
  datatype Slot = Slot(gx: int, gy: int, i: int, j: int)

  datatype Write = Write(writer: Thread, index: int, value: real)

  datatype State = State(
    at: Thread -> Position, sum: Thread -> real,
    tileA: map<Slot, real>, tileB: map<Slot, real>, fault: bool, log: seq<Write>)

  function Initial(): State {
    State(_ => Position(0, 0), _ => 0.0, map[], map[], false, [])
  }

  function StorePosition(l: Launch): Position { Position(l.Phases(), 0) }
  function End(l: Launch): Position { Position(l.Phases(), 1) }

  predicate OnPath(l: Launch, p: Position) {
    || (p.phase < l.Phases() && p.offset <= l.cfg.tileK + 3)
    || p == StorePosition(l) || p == End(l)
  }

  function Next(l: Launch, p: Position): Position {
    if p.phase < l.Phases() && p.offset == l.cfg.tileK + 3 then Position(p.phase + 1, 0)
    else Position(p.phase, p.offset + 1)
  }

  predicate AtBarrier(l: Launch, p: Position) {
    p.phase < l.Phases() && (p.offset == 2 || p.offset == l.cfg.tileK + 3)
  }

  predicate Multiplies(l: Launch, p: Position) {
    p.phase < l.Phases() && 3 <= p.offset < l.cfg.tileK + 3
  }

  /** Barriers a thread at p has passed, and barriers it has reached. */
  function Passed(l: Launch, p: Position): nat { 2 * p.phase + if p.offset > 2 then 1 else 0 }
  function Reached(l: Launch, p: Position): nat {
    2 * p.phase + (if p.offset >= 2 then 1 else 0)
    + if p.phase < l.Phases() && p.offset >= l.cfg.tileK + 3 then 1 else 0
  }

  ghost predicate Enabled(l: Launch, s: State, t: Thread) {
    && l.Has(t) && s.at(t) != End(l)
    && (AtBarrier(l, s.at(t)) ==>
          forall u | l.Has(u) && SameGroup(t, u) :: Reached(l, s.at(u)) >= Reached(l, s.at(t)))
  }

  function Set<T>(f: Thread -> T, t: Thread, v: T): Thread -> T {
    u => if u == t then v else f(u)
  }

  function Own(t: Thread): Slot { Slot(t.gx, t.gy, t.ty, t.tx) }

  predicate LoadsA(l: Launch, p: Position) { p.phase < l.Phases() && p.offset == 0 }
  predicate LoadsB(l: Launch, p: Position) { p.phase < l.Phases() && p.offset == 1 }

  /** Indexing sA[ty][tx] and sB[ty][tx] as declared: sA is tileM by tileK, sB is tileK by tileN. */
  predicate InA(l: Launch, t: Thread) { t.ty < l.cfg.tileM && t.tx < l.cfg.tileK }
  predicate InB(l: Launch, t: Thread) { t.ty < l.cfg.tileK && t.tx < l.cfg.tileN }

  /** A buffer read; the shader's guards keep it inside. */
  function At(buffer: seq<real>, index: int): real { if 0 <= index < |buffer| then buffer[index] else 0.0 }

  /** The guarded operand reads of the two loads. */
  function FetchA(l: Launch, p: Position, t: Thread): real {
    var i := p.phase * l.cfg.tileK + t.tx;
    if l.Row(t) < l.m && i < l.k then At(l.a, l.Row(t) * l.k + i) else 0.0
  }
  function FetchB(l: Launch, p: Position, t: Thread): real {
    var i := p.phase * l.cfg.tileK + t.ty;
    if i < l.k && l.Col(t) < l.n then At(l.b, i * l.n + l.Col(t)) else 0.0
  }

  function NextA(l: Launch, s: State, t: Thread): map<Slot, real> {
    if LoadsA(l, s.at(t)) && InA(l, t) then s.tileA[Own(t) := FetchA(l, s.at(t), t)] else s.tileA
  }

  function NextB(l: Launch, s: State, t: Thread): map<Slot, real> {
    if LoadsB(l, s.at(t)) && InB(l, t) then s.tileB[Own(t) := FetchB(l, s.at(t), t)] else s.tileB
  }

  /** The cells sA[ty][k] and sB[k][tx] of the product at position p. */
  function LeftSlot(p: Position, t: Thread): Slot { Slot(t.gx, t.gy, t.ty, p.offset - 3) }
  function RightSlot(p: Position, t: Thread): Slot { Slot(t.gx, t.gy, p.offset - 3, t.tx) }

  predicate CanRead(s: State, t: Thread) {
    LeftSlot(s.at(t), t) in s.tileA && RightSlot(s.at(t), t) in s.tileB
  }

  function NextSum(l: Launch, s: State, t: Thread): real {
    if Multiplies(l, s.at(t)) && CanRead(s, t) then
        s.sum(t) + s.tileA[LeftSlot(s.at(t), t)] * s.tileB[RightSlot(s.at(t), t)]
    else s.sum(t)
  }

  predicate Faults(l: Launch, s: State, t: Thread) {
    || (LoadsA(l, s.at(t)) && !InA(l, t))
    || (LoadsB(l, s.at(t)) && !InB(l, t))
    || (Multiplies(l, s.at(t)) && !CanRead(s, t))
  }

  function NewWrites(sem: Model, l: Launch, s: State, t: Thread): seq<Write> {
    if s.at(t) == StorePosition(l) && l.Row(t) < l.m && l.Col(t) < l.n then
      [Write(t, l.Row(t) * l.n + l.Col(t), Epilogue(sem, l.cfg.step, s.sum(t)))]
    else []
  }

  /** One step of thread t, its barrier condition met. */
  function Execute(sem: Model, l: Launch, s: State, t: Thread): State {
    State(Set(s.at, t, Next(l, s.at(t))), Set(s.sum, t, NextSum(l, s, t)),
          NextA(l, s, t), NextB(l, s, t), s.fault || Faults(l, s, t), s.log + NewWrites(sem, l, s, t))
  }

  /** The shader line by line: which step touches what. */
  lemma StepEffects(sem: Model, l: Launch, s: State, t: Thread)
    requires OnPath(l, s.at(t))
    ensures var p, s' := s.at(t), Execute(sem, l, s, t);
            var load, i := p.phase < l.Phases(), p.phase * l.cfg.tileK + t.tx;
            && (forall u | u != t :: s'.at(u) == s.at(u) && s'.sum(u) == s.sum(u))
            && (load && p.offset == 0 && t.ty < l.cfg.tileM && t.tx < l.cfg.tileK ==>
                  s'.tileA == s.tileA[Slot(t.gx, t.gy, t.ty, t.tx) := FetchA(l, p, t)])
            && (!(load && p.offset == 0) ==> s'.tileA == s.tileA)
            && (load && p.offset == 1 && t.ty < l.cfg.tileK && t.tx < l.cfg.tileN ==>
                  s'.tileB == s.tileB[Slot(t.gx, t.gy, t.ty, t.tx) := FetchB(l, p, t)])
            && (!(load && p.offset == 1) ==> s'.tileB == s.tileB)
            && (!(load && 3 <= p.offset < l.cfg.tileK + 3) ==> s'.sum(t) == s.sum(t))
            && (!load && p.offset == 0 && l.Row(t) < l.m && l.Col(t) < l.n ==> |s'.log| == |s.log| + 1)
            && (load || p.offset != 0 ==> s'.log == s.log)
            && (!load ==> s'.fault == s.fault)
  {}

  /**
   A thread waits nowhere but at the two barriers of a phase, and there only for the threads of its own
   workgroup that have not come as far.
   */
  lemma EnabledIff(l: Launch, s: State, t: Thread)
    requires l.cfg.Positive() && forall u | l.Has(u) :: OnPath(l, s.at(u))
    ensures var p := s.at(t);
            Enabled(l, s, t) <==>
              && l.Has(t) && p != End(l)
              && (p.phase < l.Phases() && (p.offset == 2 || p.offset == l.cfg.tileK + 3) ==>
                    forall u | l.Has(u) && u.gx == t.gx && u.gy == t.gy ::
                      s.at(u).phase > p.phase || (s.at(u).phase == p.phase && s.at(u).offset >= p.offset))
  {
    var p := s.at(t);
    if l.Has(t) && AtBarrier(l, p) {
      forall u | l.Has(u)
        ensures Reached(l, s.at(u)) >= Reached(l, p) <==>
                s.at(u).phase > p.phase || (s.at(u).phase == p.phase && s.at(u).offset >= p.offset)
      {}
    }
  }

  /** A thread that is blocked or finished does not move. */
  ghost function Step(sem: Model, l: Launch, s: State, t: Thread): State {
    if Enabled(l, s, t) then Execute(sem, l, s, t) else s
  }

  ghost function Run(sem: Model, l: Launch, schedule: seq<Thread>): State {
    if schedule == [] then Initial()
    else Step(sem, l, Run(sem, l, schedule[..|schedule| - 1]), schedule[|schedule| - 1])
  }

  lemma RunSnoc(sem: Model, l: Launch, schedule: seq<Thread>, t: Thread)
    ensures Run(sem, l, schedule + [t]) == Step(sem, l, Run(sem, l, schedule), t)
  {
    assert (schedule + [t])[..|schedule|] == schedule;
  }

  ghost predicate Finished(l: Launch, s: State) {
    forall t | l.Has(t) :: s.at(t) == End(l)
  }

  // ---- What holds whatever the tiles are ----

  ghost predicate InStep(l: Launch, s: State) {
    forall t, u | l.Has(t) && l.Has(u) && SameGroup(t, u) :: Passed(l, s.at(t)) <= Reached(l, s.at(u))
  }

  ghost predicate LogPlaced(l: Launch, s: State) {
    && (forall i | 0 <= i < |s.log| ::
          var w := s.log[i];
          l.Stores(w.writer) && s.at(w.writer) == End(l) && w.index == l.Row(w.writer) * l.n + l.Col(w.writer))
    && (forall i, j | 0 <= i < j < |s.log| :: s.log[i].writer != s.log[j].writer)
  }

  ghost predicate Wrote(s: State, t: Thread) { exists i :: 0 <= i < |s.log| && s.log[i].writer == t }

  ghost predicate LogComplete(l: Launch, s: State) {
    forall t | l.Stores(t) && s.at(t) == End(l) :: Wrote(s, t)
  }

  ghost predicate Orderly(l: Launch, s: State) {
    (forall t | l.Has(t) :: OnPath(l, s.at(t))) && InStep(l, s) && LogPlaced(l, s) && LogComplete(l, s)
  }

  lemma NextOnPath(l: Launch, p: Position)
    requires l.cfg.Positive() && OnPath(l, p) && p != End(l)
    ensures OnPath(l, Next(l, p)) && Reached(l, p) <= Reached(l, Next(l, p))
    ensures Passed(l, Next(l, p)) != Passed(l, p) ==> AtBarrier(l, p) && Passed(l, Next(l, p)) == Reached(l, p)
    ensures Next(l, p) == End(l) <==> p == StorePosition(l)
  {}

  lemma StepKeepsTiming(sem: Model, l: Launch, s: State, t: Thread)
    requires l.cfg.Positive() && Orderly(l, s) && Enabled(l, s, t)
    ensures forall u | l.Has(u) :: OnPath(l, Execute(sem, l, s, t).at(u))
    ensures InStep(l, Execute(sem, l, s, t))
  {
    var s' := Execute(sem, l, s, t);
    NextOnPath(l, s.at(t));
    forall u, v | l.Has(u) && l.Has(v) && SameGroup(u, v) ensures Passed(l, s'.at(u)) <= Reached(l, s'.at(v)) {
      assert Passed(l, s.at(u)) <= Reached(l, s.at(v));
    }
  }

  lemma StepKeepsLogPlaced(sem: Model, l: Launch, s: State, t: Thread)
    requires l.cfg.Positive() && Orderly(l, s) && Enabled(l, s, t)
    ensures LogPlaced(l, Execute(sem, l, s, t))
  {
    var s' := Execute(sem, l, s, t);
    NextOnPath(l, s.at(t));
    forall i | 0 <= i < |s.log| ensures s.log[i].writer != t { assert s.at(s.log[i].writer) == End(l); }
    forall i | 0 <= i < |s'.log|
      ensures var w := s'.log[i];
        l.Stores(w.writer) && s'.at(w.writer) == End(l) && w.index == l.Row(w.writer) * l.n + l.Col(w.writer)
    {
      if i < |s.log| { assert s'.log[i] == s.log[i]; }
    }
  }

  lemma StepKeepsLogComplete(sem: Model, l: Launch, s: State, t: Thread)
    requires l.cfg.Positive() && Orderly(l, s) && Enabled(l, s, t)
    ensures LogComplete(l, Execute(sem, l, s, t))
  {
    var s' := Execute(sem, l, s, t);
    NextOnPath(l, s.at(t));
    forall u | l.Stores(u) && s'.at(u) == End(l) ensures Wrote(s', u) {
      if u == t {
        assert s'.log[|s.log|].writer == t;
      } else {
        var i :| 0 <= i < |s.log| && s.log[i].writer == u;
        assert s'.log[i].writer == u;
      }
    }
  }

  /** At every moment of every schedule the barriers are in step and the log is in order. */
  lemma {:induction false} EveryScheduleOrderly(sem: Model, l: Launch, schedule: seq<Thread>)
    requires l.cfg.Positive()
    ensures Orderly(l, Run(sem, l, schedule))
  {
    if schedule != [] {
      var s, t := Run(sem, l, schedule[..|schedule| - 1]), schedule[|schedule| - 1];
      EveryScheduleOrderly(sem, l, schedule[..|schedule| - 1]);
      if Enabled(l, s, t) {
        StepKeepsTiming(sem, l, s, t);
        StepKeepsLogPlaced(sem, l, s, t);
        StepKeepsLogComplete(sem, l, s, t);
      }
    }
  }

  // ---- The barriers keep shared accesses apart ----

  /** Whatever the tiles and the schedule, no thread multiplies while another of its group still loads. */
  lemma BarriersSeparate(sem: Model, l: Launch, schedule: seq<Thread>, t: Thread, u: Thread)
    requires l.cfg.Positive() && l.Has(t) && l.Has(u) && SameGroup(t, u)
    ensures var s := Run(sem, l, schedule);
            Multiplies(l, s.at(t)) ==> !LoadsA(l, s.at(u)) && !LoadsB(l, s.at(u))
  {
    EveryScheduleOrderly(sem, l, schedule);
    var s := Run(sem, l, schedule);
    assert SameGroup(u, t);
    assert Passed(l, s.at(t)) <= Reached(l, s.at(u)) && Passed(l, s.at(u)) <= Reached(l, s.at(t));
  }

  lemma OwnDeterminesThread(t: Thread, u: Thread)
    requires Own(t) == Own(u)
    ensures t == u
  {}

  /** The next step of t writes the given cell of a shared tile, or reads it. */
  predicate WritesA(l: Launch, s: State, t: Thread, x: Slot) { LoadsA(l, s.at(t)) && x == Own(t) }
  predicate WritesB(l: Launch, s: State, t: Thread, x: Slot) { LoadsB(l, s.at(t)) && x == Own(t) }
  predicate ReadsA(l: Launch, s: State, t: Thread, x: Slot) { Multiplies(l, s.at(t)) && x == LeftSlot(s.at(t), t) }
  predicate ReadsB(l: Launch, s: State, t: Thread, x: Slot) { Multiplies(l, s.at(t)) && x == RightSlot(s.at(t), t) }

  /** At no moment do two threads stand before accesses to one shared cell of which one is a write. */
  lemma EveryScheduleRaceFree(sem: Model, l: Launch, schedule: seq<Thread>, t: Thread, u: Thread, x: Slot)
    requires l.cfg.Positive() && l.Has(t) && l.Has(u) && t != u
    ensures var s := Run(sem, l, schedule);
            && (WritesA(l, s, t, x) ==> !WritesA(l, s, u, x) && !ReadsA(l, s, u, x))
            && (WritesB(l, s, t, x) ==> !WritesB(l, s, u, x) && !ReadsB(l, s, u, x))
  {
    if Own(t) == Own(u) { OwnDeterminesThread(t, u); }
    if SameGroup(t, u) { BarriersSeparate(sem, l, schedule, u, t); }
  }

  // ---- No schedule gets stuck ----

  ghost function Threads(l: Launch): set<Thread> {
    set gx, gy, tx, ty | 0 <= gx < CeilDiv(l.n, l.cfg.tileN) && 0 <= gy < CeilDiv(l.m, l.cfg.tileM)
        && 0 <= tx < SIDE && 0 <= ty < SIDE
      :: Thread(gx, gy, tx, ty)
  }

  lemma AllThreads(l: Launch)
    ensures forall t :: t in Threads(l) <==> l.Has(t)
  {
    forall t | l.Has(t) ensures t in Threads(l) { assert t == Thread(t.gx, t.gy, t.tx, t.ty); }
  }

  lemma {:induction false} LeastAdvanced(l: Launch, s: State, ts: set<Thread>) returns (t: Thread)
    requires ts != {}
    ensures t in ts && forall u | u in ts :: Reached(l, s.at(t)) <= Reached(l, s.at(u))
  {
    t :| t in ts;
    if ts != {t} {
      var u := LeastAdvanced(l, s, ts - {t});
      if Reached(l, s.at(u)) < Reached(l, s.at(t)) { t := u; }
    }
  }

  /** The threads of w's workgroup. */
  ghost function GroupOf(l: Launch, w: Thread): set<Thread> {
    set t | t in Threads(l) && t.gx == w.gx && t.gy == w.gy
  }

  /**
   Until a thread has finished, some thread of its workgroup can move, wherever the other workgroups are: the
   barriers cannot deadlock.
   */
  lemma NoDeadlock(l: Launch, s: State, w: Thread)
    requires l.cfg.Positive() && forall t | l.Has(t) :: OnPath(l, s.at(t))
    requires l.Has(w) && s.at(w) != End(l)
    ensures exists t :: Enabled(l, s, t) && t.gx == w.gx && t.gy == w.gy
  {
    AllThreads(l);
    var group := GroupOf(l, w);
    assert w in group;
    var t := LeastAdvanced(l, s, group);
    if s.at(t) == End(l) {
      assert Reached(l, s.at(w)) >= 2 * l.Phases();
      assert Enabled(l, s, w);
    } else {
      assert Enabled(l, s, t);
    }
  }

  /** Steps left on the path from p. */
  ghost function Left(l: Launch, p: Position): nat
    requires l.cfg.Positive() && OnPath(l, p)
    decreases l.Phases() - p.phase, l.cfg.tileK + 4 - p.offset
  {
    if p == End(l) then 0 else 1 + Left(l, Next(l, p))
  }

  ghost function SomeThread(ts: set<Thread>): Thread
    requires ts != {}
    ensures SomeThread(ts) in ts
  {
    var t :| t in ts; t
  }

  /** Steps the threads in ts still have to take. */
  ghost function Work(l: Launch, at: Thread -> Position, ts: set<Thread>): nat
    requires l.cfg.Positive()
  {
    if ts == {} then 0
    else
      var t := SomeThread(ts);
      Work(l, at, ts - {t}) + if OnPath(l, at(t)) then Left(l, at(t)) else 0
  }

  lemma {:induction false} WorkDrops(l: Launch, at: Thread -> Position, t: Thread, ts: set<Thread>)
    requires l.cfg.Positive() && OnPath(l, at(t)) && at(t) != End(l)
    ensures Work(l, Set(at, t, Next(l, at(t))), ts) == Work(l, at, ts) - if t in ts then 1 else 0
  {
    if ts != {} {
      NextOnPath(l, at(t));
      WorkDrops(l, at, t, ts - {SomeThread(ts)});
    }
  }

  ghost function WorkAfter(sem: Model, l: Launch, schedule: seq<Thread>): nat
    requires l.cfg.Positive()
  {
    Work(l, Run(sem, l, schedule).at, Threads(l))
  }

  /** While threads are unfinished, one of them can take a step. */
  lemma Advance(sem: Model, l: Launch, schedule: seq<Thread>) returns (t: Thread)
    requires l.cfg.Positive() && !Finished(l, Run(sem, l, schedule))
    ensures WorkAfter(sem, l, schedule + [t]) < WorkAfter(sem, l, schedule)
  {
    var s := Run(sem, l, schedule);
    EveryScheduleOrderly(sem, l, schedule);
    var w :| l.Has(w) && s.at(w) != End(l);
    NoDeadlock(l, s, w);
    t :| Enabled(l, s, t);
    AllThreads(l);
    WorkDrops(l, s.at, t, Threads(l));
    RunSnoc(sem, l, schedule, t);
    assert Execute(sem, l, s, t).at == Set(s.at, t, Next(l, s.at(t)));
  }

  /** Any partial schedule can be completed, so no interleaving paints itself into a corner. */
  lemma {:induction false} EveryScheduleCanFinish(sem: Model, l: Launch, schedule: seq<Thread>)
    returns (rest: seq<Thread>)
    requires l.cfg.Positive()
    ensures Finished(l, Run(sem, l, schedule + rest))
    decreases WorkAfter(sem, l, schedule)
  {
    rest := [];
    assert schedule + rest == schedule;
    if !Finished(l, Run(sem, l, schedule)) {
      var t := Advance(sem, l, schedule);
      var more := EveryScheduleCanFinish(sem, l, schedule + [t]);
      rest := [t] + more;
      assert schedule + rest == schedule + [t] + more;
    }
  }

  // ---- The output buffer ----

  /** The output buffer after the logged writes. */
  function Stored(c: seq<real>, log: seq<Write>): (r: seq<real>)
    ensures |r| == |c|
  {
    if log == [] then c
    else
      var before, w := Stored(c, log[..|log| - 1]), log[|log| - 1];
      if 0 <= w.index < |c| then before[w.index := w.value] else before
  }

  lemma {:induction false} StoredAt(c: seq<real>, log: seq<Write>, j: nat, v: real)
    requires j < |c|
    requires forall i | 0 <= i < |log| && log[i].index == j :: log[i].value == v
    requires exists i :: 0 <= i < |log| && log[i].index == j
    ensures Stored(c, log)[j] == v
  {
    var k := |log| - 1;
    if log[k].index != j {
      var i :| 0 <= i < |log| && log[i].index == j;
      assert log[..k][i].index == j;
      StoredAt(c, log[..k], j, v);
    }
  }

  /** A cell nobody writes keeps what was there. */
  lemma {:induction false} StoredElsewhere(c: seq<real>, log: seq<Write>, j: nat)
    requires j < |c| && forall i | 0 <= i < |log| :: log[i].index != j
    ensures Stored(c, log)[j] == c[j]
  {
    if log != [] {
      assert log[|log| - 1].index != j;
      StoredElsewhere(c, log[..|log| - 1], j);
    }
  }

  /** What the cell (r, c) of the result must be. */
  function Expected(sem: Model, l: Launch, r: int, c: int): real {
    Epilogue(sem, l.cfg.step, Dot(l.k, View(l.a, l.k), View(l.b, l.n), r, c))
  }

  function ExpectedBuffer(sem: Model, l: Launch): seq<real> {
    Flat(l.m, l.n, (r, c) => Expected(sem, l, r, c))
  }
}
