/** The tile sizes for which the shader is right, exactly. */
module KernelFit {
  import opened Matrices
  import opened Semantics
  import opened TiledKernel
  import opened KernelProduct

  /** No fault, no cell written twice, and the product in the buffer once the run has finished. */
  ghost predicate RunRight(sem: Model, l: Launch, schedule: seq<Thread>, c: seq<real>) {
    var s := Run(sem, l, schedule);
    && !s.fault
    && (forall i, j | 0 <= i < j < |s.log| :: s.log[i].index != s.log[j].index)
    && (Finished(l, s) ==> Stored(c, s.log) == ExpectedBuffer(sem, l))
  }

  /** Every launch of the kernel with this configuration is right under every schedule. */
  ghost predicate KernelRight(sem: Model, cfg: Config) {
    forall m: nat, n: nat, k: nat, a: seq<real>, b: seq<real>, c: seq<real>, schedule: seq<Thread> |
      |a| == m * k && |b| == k * n && |c| == m * n :: RunRight(sem, Launch(cfg, m, n, k, a, b), schedule, c)
  }

  // ---- Tiles narrower than the workgroup ----

  lemma QuotientBelow(z: nat, y: nat, q: nat)
    requires y > 0 && z / y < q
    ensures z < q * y
  {
    RowsApart(y, z / y, q);
    assert z == (z / y) * y + z % y;
  }

  lemma CeilAtLeast(x: nat, y: int, q: nat)
    requires y > 0 && x > (q - 1) * y && q > 0
    ensures CeilDiv(x, y) >= q
  {
    assert q * y == (q - 1) * y + y;
    if (x + y - 1) / y < q { QuotientBelow(x + y - 1, y, q); }
  }

  /** The two loads of a first step pair fault exactly outside the declared tileM by tileK and tileK by tileN arrays. */
  lemma FirstLoadsFault(sem: Model, l: Launch, t: Thread)
    requires l.cfg.Positive() && l.Has(t) && l.k > 0
    ensures Run(sem, l, [t]).fault <==> t.ty >= l.cfg.tileM || t.tx >= l.cfg.tileK
    ensures Run(sem, l, [t, t]).fault <==>
            t.ty >= l.cfg.tileM || t.tx >= l.cfg.tileK || t.ty >= l.cfg.tileK || t.tx >= l.cfg.tileN
  {
    CeilAtLeast(l.k, l.cfg.tileK, 1);
    assert [t] == [] + [t] && [t, t] == [t] + [t];
    RunSnoc(sem, l, [], t);
    RunSnoc(sem, l, [t], t);
    assert Enabled(l, Run(sem, l, []), t);
    assert Run(sem, l, [t]).at(t) == Position(0, 1);
    assert Enabled(l, Run(sem, l, [t]), t);
  }

  predicate Beyond(p: Position, offset: nat) { p.phase >= 1 || p.offset > offset }

  /** A thread outside a tile has faulted by the time it has loaded that tile. */
  ghost predicate FaultsOutside(l: Launch, s: State) {
    forall t | l.Has(t) && l.Phases() > 0
        && ((!InA(l, t) && Beyond(s.at(t), 0)) || (!InB(l, t) && Beyond(s.at(t), 1))) :: s.fault
  }

  lemma {:induction false} OutsideFaults(sem: Model, l: Launch, schedule: seq<Thread>)
    requires l.cfg.Positive()
    ensures FaultsOutside(l, Run(sem, l, schedule))
  {
    if schedule != [] {
      var s, t := Run(sem, l, schedule[..|schedule| - 1]), schedule[|schedule| - 1];
      OutsideFaults(sem, l, schedule[..|schedule| - 1]);
      EveryScheduleOrderly(sem, l, schedule[..|schedule| - 1]);
      if Enabled(l, s, t) { assert OnPath(l, s.at(t)); }
    }
  }

  lemma CeilOfOne(y: int)
    requires y > 0
    ensures CeilDiv(1, y) == 1
  {
    DivModOfIndex(y, 1, 0);
  }

  lemma CeilOfMore(x: int, y: int)
    requires 0 < x <= y
    ensures CeilDiv(x, y) == 1
  {
    DivModOfIndex(y, 1, x - 1);
  }

  /**
   With row tiles narrower than the workgroup neighbouring groups overlap: as soon as there is a
   second group, every finished run writes some cell twice.
   */
  lemma NarrowTileWritesTwice(sem: Model, l: Launch, schedule: seq<Thread>)
    requires l.cfg.Positive() && l.cfg.tileM < 16 && l.m > l.cfg.tileM && l.n > 0
    requires Finished(l, Run(sem, l, schedule))
    ensures exists i, j :: 0 <= i < j < |Run(sem, l, schedule).log|
                           && Run(sem, l, schedule).log[i].index == Run(sem, l, schedule).log[j].index
  {
    var s, tile := Run(sem, l, schedule), l.cfg.tileM;
    EveryScheduleOrderly(sem, l, schedule);
    var t, u := Thread(0, 0, 0, tile), Thread(0, 1, 0, 0);
    CeilAtLeast(l.m, tile, 2);
    CeilAtLeast(l.n, l.cfg.tileN, 1);
    assert l.Row(t) == l.Row(u) == tile && l.Col(t) == l.Col(u) == 0;
    assert l.Stores(t) && l.Stores(u) && Wrote(s, t) && Wrote(s, u);
    var i :| 0 <= i < |s.log| && s.log[i].writer == t;
    var j :| 0 <= j < |s.log| && s.log[j].writer == u;
    assert s.log[i].index == s.log[j].index;
    if i < j { assert 0 <= i < j < |s.log|; } else { assert 0 <= j < i < |s.log|; }
  }

  /** With a tile narrower than the workgroup every run that finishes a non-empty product has faulted. */
  lemma NarrowTileFaults(sem: Model, l: Launch, schedule: seq<Thread>)
    requires l.cfg.Positive() && (l.cfg.tileM < 16 || l.cfg.tileN < 16 || l.cfg.tileK < 16)
    requires l.m > 0 && l.n > 0 && l.k > 0 && Finished(l, Run(sem, l, schedule))
    ensures Run(sem, l, schedule).fault
  {
    CeilAtLeast(l.m, l.cfg.tileM, 1);
    CeilAtLeast(l.n, l.cfg.tileN, 1);
    CeilAtLeast(l.k, l.cfg.tileK, 1);
    OutsideFaults(sem, l, schedule);
    assert l.Has(Thread(0, 0, 15, 15));
  }

  lemma NarrowTileWrong(sem: Model, cfg: Config)
    requires cfg.Positive() && (cfg.tileM < 16 || cfg.tileN < 16 || cfg.tileK < 16)
    ensures !KernelRight(sem, cfg)
  {
    var l := Launch(cfg, 1, 1, 1, [0.0], [0.0]);
    var schedule := EveryScheduleCanFinish(sem, l, []);
    assert [] + schedule == schedule;
    NarrowTileFaults(sem, l, schedule);
    assert !RunRight(sem, l, schedule, [0.0]);
  }

  // ---- Tiles wider than the workgroup ----

  /** Nobody loads the columns of the A tile from 16 on. */
  ghost predicate NarrowlyLoaded(s: State) {
    forall x | x in s.tileA :: x.j < 16
  }

  /** A thread that has come past the product with index 16 has read a cell nobody wrote. */
  ghost predicate FaultsPast(l: Launch, s: State) {
    forall t | l.Has(t) && (s.at(t).phase >= 1 || s.at(t).offset > 19) :: s.fault
  }

  lemma {:induction false} WideInnerTileFaults(sem: Model, l: Launch, schedule: seq<Thread>)
    requires l.cfg.Positive() && l.cfg.tileK > 16 && l.Phases() == 1
    ensures NarrowlyLoaded(Run(sem, l, schedule)) && FaultsPast(l, Run(sem, l, schedule))
  {
    if schedule != [] {
      var s, t := Run(sem, l, schedule[..|schedule| - 1]), schedule[|schedule| - 1];
      WideInnerTileFaults(sem, l, schedule[..|schedule| - 1]);
      if Enabled(l, s, t) {
        if s.at(t) == Position(0, 19) { assert LeftSlot(s.at(t), t) !in s.tileA; }
      }
    }
  }

  lemma WideInnerTileWrong(sem: Model, cfg: Config)
    requires cfg.Positive() && cfg.tileK > 16
    ensures !KernelRight(sem, cfg)
  {
    var zeros := seq(17, _ => 0.0);
    var l := Launch(cfg, 1, 1, 17, zeros, zeros);
    CeilOfMore(17, cfg.tileK);
    CeilOfOne(cfg.tileM);
    CeilOfOne(cfg.tileN);
    var schedule := EveryScheduleCanFinish(sem, l, []);
    assert [] + schedule == schedule;
    WideInnerTileFaults(sem, l, schedule);
    assert l.Has(Thread(0, 0, 0, 0));
    assert Run(sem, l, schedule).fault;
    assert !RunRight(sem, l, schedule, [0.0]);
  }

  lemma WideRowUnwritten(sem: Model, l: Launch, schedule: seq<Thread>)
    requires l.cfg.Positive() && l.m == 17 && l.n == 1 && CeilDiv(17, l.cfg.tileM) == 1 && CeilDiv(1, l.cfg.tileN) == 1
    ensures forall i | 0 <= i < |Run(sem, l, schedule).log| :: Run(sem, l, schedule).log[i].index != 16
  {
    EveryScheduleOrderly(sem, l, schedule);
    var s := Run(sem, l, schedule);
    forall i | 0 <= i < |s.log| ensures s.log[i].index != 16 {
      assert l.Row(s.log[i].writer) < 16 && l.Col(s.log[i].writer) == 0;
    }
  }

  /** Rows past the workgroup's 16 belong to no thread of the only group, so their cells keep their old content. */
  lemma WideRowTileWrong(sem: Model, cfg: Config)
    requires cfg.Positive() && cfg.tileM > 16
    ensures !KernelRight(sem, cfg)
  {
    var l := Launch(cfg, 17, 1, 0, [], []);
    var c := seq(17, _ => Expected(sem, l, 16, 0) + 1.0);
    CeilOfMore(17, cfg.tileM);
    CeilOfOne(cfg.tileN);
    var schedule := EveryScheduleCanFinish(sem, l, []);
    assert [] + schedule == schedule;
    WideRowUnwritten(sem, l, schedule);
    StoredElsewhere(c, Run(sem, l, schedule).log, 16);
    FlatCell(17, 1, (r, q) => Expected(sem, l, r, q), 16, 0);
    assert ExpectedBuffer(sem, l)[16] == Expected(sem, l, 16, 0);
    assert !RunRight(sem, l, schedule, c);
  }

  lemma WideColumnUnwritten(sem: Model, l: Launch, schedule: seq<Thread>)
    requires l.cfg.Positive() && l.m == 1 && l.n == 17 && CeilDiv(1, l.cfg.tileM) == 1 && CeilDiv(17, l.cfg.tileN) == 1
    ensures forall i | 0 <= i < |Run(sem, l, schedule).log| :: Run(sem, l, schedule).log[i].index != 16
  {
    EveryScheduleOrderly(sem, l, schedule);
    var s := Run(sem, l, schedule);
    forall i | 0 <= i < |s.log| ensures s.log[i].index != 16 {
      assert l.Col(s.log[i].writer) < 16 && l.Row(s.log[i].writer) == 0;
    }
  }

  lemma WideColumnTileWrong(sem: Model, cfg: Config)
    requires cfg.Positive() && cfg.tileN > 16
    ensures !KernelRight(sem, cfg)
  {
    var l := Launch(cfg, 1, 17, 0, [], []);
    var c := seq(17, _ => Expected(sem, l, 0, 16) + 1.0);
    CeilOfMore(17, cfg.tileN);
    CeilOfOne(cfg.tileM);
    var schedule := EveryScheduleCanFinish(sem, l, []);
    assert [] + schedule == schedule;
    WideColumnUnwritten(sem, l, schedule);
    StoredElsewhere(c, Run(sem, l, schedule).log, 16);
    FlatCell(1, 17, (r, q) => Expected(sem, l, r, q), 0, 16);
    assert ExpectedBuffer(sem, l)[16] == Expected(sem, l, 0, 16);
    assert !RunRight(sem, l, schedule, c);
  }

  // ---- Cells and threads ----

  predicate Owns(l: Launch, t: Thread, r: int, c: int) { l.Stores(t) && l.Row(t) == r && l.Col(t) == c }

  ghost predicate OwnedOnce(l: Launch, r: int, c: int) {
    exists t :: Owns(l, t, r, c) && forall u | Owns(l, u, r, c) :: u == t
  }

  ghost predicate EveryCellOwnedOnce(cfg: Config) {
    forall m: nat, n: nat, r, c | 0 <= r < m && 0 <= c < n :: OwnedOnce(Launch(cfg, m, n, 0, [], []), r, c)
  }

  lemma FittingCellOwnedOnce(l: Launch, r: int, c: int)
    requires l.cfg.tileM == 16 && l.cfg.tileN == 16 && 0 <= r < l.m && 0 <= c < l.n
    ensures OwnedOnce(l, r, c)
  {
    var t := Thread(c / 16, r / 16, c % 16, r % 16);
    assert l.Row(t) == r && l.Col(t) == c;
    assert Owns(l, t, r, c);
    forall u | Owns(l, u, r, c) ensures u == t { CellDeterminesThread(l, u, t); }
  }

  /** One row or one column more than the tile shows the misfit. */
  lemma MisfitCell(cfg: Config, m: nat, n: nat, r: int, c: int)
    requires cfg.Positive()
    requires (cfg.tileM != 16 && m == (if cfg.tileM < 16 then cfg.tileM else 16) + 1 && r == m - 1 && n == 1 && c == 0)
             || (cfg.tileN != 16 && n == (if cfg.tileN < 16 then cfg.tileN else 16) + 1
                 && c == n - 1 && m == 1 && r == 0)
    ensures !OwnedOnce(Launch(cfg, m, n, 0, [], []), r, c)
  {
    var l := Launch(cfg, m, n, 0, [], []);
    if cfg.tileM != 16 && n == 1 && m > 1 {
      CeilOfOne(cfg.tileN);
      if cfg.tileM < 16 {
        CeilAtLeast(m, cfg.tileM, 2);
        assert Owns(l, Thread(0, 0, 0, r), r, c) && Owns(l, Thread(0, 1, 0, 0), r, c);
      } else {
        CeilOfMore(m, cfg.tileM);
      }
    } else {
      CeilOfOne(cfg.tileM);
      if cfg.tileN < 16 {
        CeilAtLeast(n, cfg.tileN, 2);
        assert Owns(l, Thread(0, 0, c, 0), r, c) && Owns(l, Thread(1, 0, 0, 0), r, c);
      } else {
        CeilOfMore(n, cfg.tileN);
      }
    }
  }

  /** The groups' threads cover every output cell exactly once just when the row and column tiles are 16. */
  lemma CoverageIff(cfg: Config)
    requires cfg.Positive()
    ensures EveryCellOwnedOnce(cfg) <==> cfg.tileM == 16 && cfg.tileN == 16
  {
    if cfg.tileM == 16 && cfg.tileN == 16 {
      forall m: nat, n: nat, r, c | 0 <= r < m && 0 <= c < n ensures OwnedOnce(Launch(cfg, m, n, 0, [], []), r, c) {
        FittingCellOwnedOnce(Launch(cfg, m, n, 0, [], []), r, c);
      }
    } else if cfg.tileM != 16 {
      var m := (if cfg.tileM < 16 then cfg.tileM else 16) + 1;
      MisfitCell(cfg, m, 1, m - 1, 0);
    } else {
      var n := (if cfg.tileN < 16 then cfg.tileN else 16) + 1;
      MisfitCell(cfg, 1, n, 0, n - 1);
    }
  }

  // ---- The exact condition ----

  lemma FittingRunRight(sem: Model, l: Launch, schedule: seq<Thread>, c: seq<real>)
    requires l.cfg.Fits() && |c| == l.m * l.n
    ensures RunRight(sem, l, schedule, c)
  {
    var s := Run(sem, l, schedule);
    EveryScheduleKeepsInv(sem, l, schedule);
    forall i, j | 0 <= i < j < |s.log| ensures s.log[i].index != s.log[j].index {
      NoCellWrittenTwice(sem, l, schedule, i, j);
    }
    if Finished(l, s) { FinishedRunComputesProduct(sem, l, schedule, c); }
  }

  /** The kernel is right for all sizes, operands and schedules exactly when all three tiles are 16. */
  lemma KernelRightIff(sem: Model, cfg: Config)
    requires cfg.tileM > 0 && cfg.tileN > 0 && cfg.tileK > 0
    ensures KernelRight(sem, cfg) <==> cfg.tileM == cfg.tileN == cfg.tileK == 16
  {
    if cfg.Fits() {
      forall m: nat, n: nat, k: nat, a: seq<real>, b: seq<real>, c: seq<real>, schedule: seq<Thread> |
        |a| == m * k && |b| == k * n && |c| == m * n
        ensures RunRight(sem, Launch(cfg, m, n, k, a, b), schedule, c)
      {
        FittingRunRight(sem, Launch(cfg, m, n, k, a, b), schedule, c);
      }
    } else if cfg.tileK > 16 {
      WideInnerTileWrong(sem, cfg);
    } else if cfg.tileM > 16 {
      WideRowTileWrong(sem, cfg);
    } else if cfg.tileN > 16 {
      WideColumnTileWrong(sem, cfg);
    } else {
      NarrowTileWrong(sem, cfg);
    }
  }
}
