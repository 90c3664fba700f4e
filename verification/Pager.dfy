/**
 The sliding pager: commands, the worker alone, and every interleaving with clients
 (omni-core/src/memory/pager.rs).
 */
module Pager {
  import opened Prelude
  import opened Allocator

  datatype Command = Prefetch(addr: nat) | Evict(addr: nat) | Shutdown

  // ---- The worker run alone ----

  /** One command, its check and its migration back to back. */
  function Process(m: Memory, cmd: Command): Memory {
    match cmd
    case Prefetch(a) => if DomainOf(m, a) == Some(LocalDevice) then m else MigrateStep(m, a, LocalDevice)
    case Evict(a) => if DomainOf(m, a) == Some(LocalDevice) then MigrateStep(m, a, Host) else m
    case Shutdown => m
  }

  function Drain(m: Memory, cmds: seq<Command>): Memory {
    if cmds == [] then m else Process(Drain(m, cmds[..|cmds| - 1]), cmds[|cmds| - 1])
  }

  /** The commands the worker handles before it stops. */
  function UntilShutdown(cmds: seq<Command>): (r: seq<Command>)
    ensures |r| <= |cmds|
  {
    if cmds == [] || cmds[0] == Shutdown then [] else [cmds[0]] + UntilShutdown(cmds[1..])
  }

  /** They are what comes before the first Shutdown. */
  lemma {:induction false} UntilShutdownCuts(cmds: seq<Command>)
    ensures var r := UntilShutdown(cmds);
            r == cmds[..|r|] && Shutdown !in r && (|r| < |cmds| ==> cmds[|r|] == Shutdown)
  {
    if cmds != [] && cmds[0] != Shutdown { UntilShutdownCuts(cmds[1..]); }
  }

  lemma {:induction false} DrainConcat(m: Memory, a: seq<Command>, b: seq<Command>)
    ensures Drain(m, a + b) == Drain(Drain(m, a), b)
  {
    if b == [] {
      assert a + b == a;
    } else {
      var k := |b| - 1;
      assert (a + b)[..|a + b| - 1] == a + b[..k];
      DrainConcat(m, a, b[..k]);
    }
  }

  lemma DrainOne(m: Memory, cmd: Command)
    ensures Drain(m, [cmd]) == Process(m, cmd)
  {
    assert [cmd][..0] == [];
  }

  /** The receive loop on a channel holding `cmds` whose sender then disconnects. */
  method RunWorker(cmds: seq<Command>, alloc: DuvasAllocator)
    requires alloc.Valid()
    modifies alloc
    ensures alloc.Valid() && alloc.State() == Drain(old(alloc.State()), UntilShutdown(cmds))
  {
    ghost var start := alloc.State();
    ghost var done: seq<Command> := [];
    var i := 0;
    while i < |cmds|
      invariant 0 <= i <= |cmds| && alloc.Valid()
      invariant UntilShutdown(cmds) == done + UntilShutdown(cmds[i..])
      invariant alloc.State() == Drain(start, done)
    {
      var cmd := cmds[i];
      assert cmds[i..][1..] == cmds[i + 1..];
      DrainConcat(start, done, [cmd]);
      DrainOne(alloc.State(), cmd);
      i := i + 1;
      match cmd {
        case Prefetch(a) =>
          var domain := alloc.GetDomain(a);
          if domain != Some(LocalDevice) { var _ := alloc.Migrate(a, LocalDevice); }
        case Evict(a) =>
          var domain := alloc.GetDomain(a);
          if domain == Some(LocalDevice) { var _ := alloc.Migrate(a, Host); }
        case Shutdown =>
          assert done + [] == done;
          return;
      }
      done := done + [cmd];
    }
    assert cmds[i..] == [] && done + [] == done;
  }

  // ---- What a drained history decides ----

  ghost predicate Prefetched(cmds: seq<Command>, a: nat) { Prefetch(a) in cmds }

  /** The last command naming a is a prefetch. */
  ghost predicate LastIsPrefetch(cmds: seq<Command>, a: nat) {
    exists i :: 0 <= i < |cmds| && cmds[i] == Prefetch(a) && forall j | i < j < |cmds| :: cmds[j] != Evict(a)
  }

  /** The domain of a live address, read off its command history. */
  ghost function Decided(d: MemoryDomain, cmds: seq<Command>, a: nat): MemoryDomain {
    if Prefetch(a) !in cmds && Evict(a) !in cmds then d
    else if LastIsPrefetch(cmds, a) then LocalDevice
    else if d == LocalDevice || Prefetched(cmds, a) then Host
    else d
  }

  lemma LastIsPrefetchSnoc(cmds: seq<Command>, cmd: Command, a: nat)
    ensures LastIsPrefetch(cmds + [cmd], a) <==> cmd == Prefetch(a) || (cmd != Evict(a) && LastIsPrefetch(cmds, a))
  {
    var all := cmds + [cmd];
    if cmd == Prefetch(a) {
      assert all[|cmds|] == Prefetch(a);
    } else {
      if LastIsPrefetch(all, a) {
        var i :| 0 <= i < |all| && all[i] == Prefetch(a) && forall j | i < j < |all| :: all[j] != Evict(a);
        assert all[|cmds|] != Evict(a);
        assert cmds[i] == Prefetch(a);
        forall j | i < j < |cmds| ensures cmds[j] != Evict(a) { assert all[j] == cmds[j]; }
      }
      if cmd != Evict(a) && LastIsPrefetch(cmds, a) {
        var i :| 0 <= i < |cmds| && cmds[i] == Prefetch(a) && forall j | i < j < |cmds| :: cmds[j] != Evict(a);
        assert all[i] == Prefetch(a);
      }
    }
  }

  lemma PrefetchOnly(cmds: seq<Command>, a: nat)
    requires Prefetch(a) in cmds && Evict(a) !in cmds
    ensures LastIsPrefetch(cmds, a)
  {
    var i :| 0 <= i < |cmds| && cmds[i] == Prefetch(a);
  }

  lemma DecidedSnoc(d: MemoryDomain, cmds: seq<Command>, cmd: Command, a: nat)
    ensures Decided(d, cmds + [cmd], a) ==
            if cmd == Prefetch(a) then LocalDevice
            else if cmd == Evict(a) && Decided(d, cmds, a) == LocalDevice then Host
            else Decided(d, cmds, a)
  {
    LastIsPrefetchSnoc(cmds, cmd, a);
    var all := cmds + [cmd];
    assert Prefetch(a) in all <==> Prefetch(a) in cmds || cmd == Prefetch(a);
    assert Evict(a) in all <==> Evict(a) in cmds || cmd == Evict(a);
    if Prefetch(a) in cmds && Evict(a) !in cmds { assert LastIsPrefetch(cmds, a) by { PrefetchOnly(cmds, a); } }
  }

  /** After any drain every live address has the domain its history decides, and nothing else about it changed. */
  lemma {:induction false} DrainDecidesDomains(m: Memory, cmds: seq<Command>)
    ensures Drain(m, cmds).blocks.Keys == m.blocks.Keys
    ensures Drain(m, cmds).virtualBytes == m.virtualBytes && Drain(m, cmds).nextAddr == m.nextAddr
    ensures forall a | a in m.blocks ::
              Drain(m, cmds).blocks[a] == m.blocks[a].(domain := Decided(m.blocks[a].domain, cmds, a))
  {
    if cmds != [] {
      var init, cmd := cmds[..|cmds| - 1], cmds[|cmds| - 1];
      DrainDecidesDomains(m, init);
      assert cmds == init + [cmd];
      forall a | a in m.blocks
        ensures Drain(m, cmds).blocks[a] == m.blocks[a].(domain := Decided(m.blocks[a].domain, cmds, a))
      {
        DecidedSnoc(m.blocks[a].domain, init, cmd, a);
      }
    }
  }

  // ---- One slide_window batch ----

  function Evictions(addrs: seq<nat>): seq<Command> { seq(|addrs|, i requires 0 <= i < |addrs| => Evict(addrs[i])) }
  function Prefetches(addrs: seq<nat>): seq<Command> { seq(|addrs|, i requires 0 <= i < |addrs| => Prefetch(addrs[i])) }

  class VirtualSlidingPager {
    var queue: seq<Command>

    constructor () ensures queue == [] { queue := []; }

    /** Evictions first, then prefetches; the active layers are only logged. */
    method SlideWindow(active: seq<nat>, prefetch: seq<nat>, evict: seq<nat>)
      modifies this
      ensures queue == old(queue) + Evictions(evict) + Prefetches(prefetch)
    {
      for i := 0 to |evict|
        invariant queue == old(queue) + Evictions(evict)[..i]
      {
        queue := queue + [Evict(evict[i])];
      }
      for i := 0 to |prefetch|
        invariant queue == old(queue) + Evictions(evict) + Prefetches(prefetch)[..i]
      {
        queue := queue + [Prefetch(prefetch[i])];
      }
    }
  }

  /** Evictions never raise the device bytes, prefetches never lower them. */
  lemma {:induction false} DrainMonotone(m: Memory, cmds: seq<Command>, evictions: bool)
    requires forall c | c in cmds :: if evictions then c.Evict? else c.Prefetch?
    ensures if evictions then Drain(m, cmds).deviceBytes <= m.deviceBytes
            else m.deviceBytes <= Drain(m, cmds).deviceBytes
  {
    if cmds != [] {
      assert cmds[|cmds| - 1] in cmds;
      DrainMonotone(m, cmds[..|cmds| - 1], evictions);
    }
  }

  /** Draining one batch from an empty queue never exceeds the larger of the device bytes before and after. */
  lemma BatchPeak(m: Memory, prefetch: seq<nat>, evict: seq<nat>, i: nat)
    requires i <= |evict| + |prefetch|
    ensures var batch := Evictions(evict) + Prefetches(prefetch);
            var peak := Drain(m, batch[..i]).deviceBytes;
            peak <= m.deviceBytes || peak <= Drain(m, batch).deviceBytes
  {
    var e, p := Evictions(evict), Prefetches(prefetch);
    var batch := e + p;
    if i <= |evict| {
      assert batch[..i] == e[..i];
      DrainMonotone(m, e[..i], true);
    } else {
      assert batch == batch[..i] + batch[i..];
      DrainConcat(m, batch[..i], batch[i..]);
      forall c | c in batch[i..] ensures c.Prefetch? {
        var j :| i <= j < |batch| && batch[j] == c;
        assert batch[j] == p[j - |evict|];
      }
      DrainMonotone(Drain(m, batch[..i]), batch[i..], false);
    }
  }

  /** Where one batch leaves each live address. */
  lemma BatchDecides(d: MemoryDomain, prefetch: seq<nat>, evict: seq<nat>, a: nat)
    ensures Decided(d, Evictions(evict) + Prefetches(prefetch), a) ==
            if a in prefetch then LocalDevice else if a in evict && d == LocalDevice then Host else d
  {
    var e, p := Evictions(evict), Prefetches(prefetch);
    var batch := e + p;
    if a in prefetch {
      var i :| 0 <= i < |prefetch| && prefetch[i] == a;
      assert batch[|e| + i] == Prefetch(a);
      assert LastIsPrefetch(batch, a);
    } else {
      assert Prefetch(a) !in batch;
      if a in evict {
        var i :| 0 <= i < |evict| && evict[i] == a;
        assert batch[i] == Evict(a);
      } else {
        assert Evict(a) !in batch;
      }
    }
  }

  /**
   The documentation calls active layers pinned, but the code only logs them: a resident active layer
   stays resident exactly when it is being prefetched too or is not in the eviction list.
   */
  lemma ActiveLayerStaysIff(m: Memory, active: seq<nat>, prefetch: seq<nat>, evict: seq<nat>, a: nat)
    requires a in active && DomainOf(m, a) == Some(LocalDevice)
    ensures DomainOf(Drain(m, Evictions(evict) + Prefetches(prefetch)), a) == Some(LocalDevice)
            <==> a in prefetch || a !in evict
  {
    DrainDecidesDomains(m, Evictions(evict) + Prefetches(prefetch));
    BatchDecides(LocalDevice, prefetch, evict, a);
  }

  // ---- Clients and worker interleaved ----

  /** Between the check and the migration the worker holds no lock. */
  datatype Worker = Idle | Received(cmd: Command) | Deciding(cmd: Command, target: MemoryDomain) | Stopped

  /** `sent` and `done` are histories; `dropped` records that the pager's destructor has run its send. */
  datatype System = System(
    mem: Memory, queue: seq<Command>, worker: Worker,
    sent: seq<Command>, done: seq<Command>, dropped: bool)

  datatype Action =
    | ClientAlloc(size: nat, isStatic: bool) | ClientFree(addr: nat) | ClientMigrate(addr: nat, target: MemoryDomain)
    | Send(cmd: Command) | BeginDrop | WorkerMoves

  function Started(m: Memory): System { System(m, [], Idle, [], [], false) }

  function WorkerStep(s: System): System {
    match s.worker
    case Idle => if s.queue == [] then s else s.(queue := s.queue[1..], worker := Received(s.queue[0]))
    case Received(cmd) =>
      (match cmd
       case Prefetch(a) =>
         if DomainOf(s.mem, a) == Some(LocalDevice) then s.(worker := Idle, done := s.done + [cmd])
         else s.(worker := Deciding(cmd, LocalDevice))
       case Evict(a) =>
         if DomainOf(s.mem, a) == Some(LocalDevice) then s.(worker := Deciding(cmd, Host))
         else s.(worker := Idle, done := s.done + [cmd])
       case Shutdown => s.(worker := Stopped, done := s.done + [cmd]))
    case Deciding(cmd, target) =>
      if cmd.Shutdown? then s
      else s.(mem := MigrateStep(s.mem, cmd.addr, target), worker := Idle, done := s.done + [cmd])
    case Stopped => s
  }

  /** Only slide_window sends before the drop, and it never sends a Shutdown. */
  function Act(capacity: nat, s: System, act: Action): System {
    match act
    case ClientAlloc(size, isStatic) => s.(mem := AllocStep(capacity, s.mem, size, isStatic))
    case ClientFree(a) => s.(mem := FreeStep(s.mem, a))
    case ClientMigrate(a, d) => s.(mem := MigrateStep(s.mem, a, d))
    case Send(cmd) => if s.dropped || cmd == Shutdown then s else s.(queue := s.queue + [cmd], sent := s.sent + [cmd])
    case BeginDrop =>
      if s.dropped then s
      else s.(queue := s.queue + [Shutdown], sent := s.sent + [Shutdown], dropped := true)
    case WorkerMoves => WorkerStep(s)
  }

  function RunActions(capacity: nat, s: System, acts: seq<Action>): System {
    if acts == [] then s else Act(capacity, RunActions(capacity, s, acts[..|acts| - 1]), acts[|acts| - 1])
  }

  function InFlight(w: Worker): seq<Command> {
    match w
    case Received(cmd) => [cmd]
    case Deciding(cmd, _) => [cmd]
    case _ => []
  }

  /** First in, first out: nothing is lost, duplicated or reordered, and Shutdown comes last. */
  ghost predicate Fifo(s: System) {
    && s.sent == s.done + InFlight(s.worker) + s.queue
    && (forall i | 0 <= i < |s.sent| :: s.sent[i] == Shutdown <==> s.dropped && i == |s.sent| - 1)
    && (s.dropped ==> s.sent != [])
    && (s.worker.Stopped? <==> Shutdown in s.done)
    && (s.worker.Deciding? ==> s.worker.cmd != Shutdown)
  }

  ghost predicate Sound(s: System) { Consistent(s.mem) && Fifo(s) }

  lemma ReceiveKeepsFifo(s: System)
    requires Fifo(s) && s.worker.Idle? && s.queue != []
    ensures Fifo(WorkerStep(s))
  {
    assert s.queue == [s.queue[0]] + s.queue[1..];
  }

  lemma HandleKeepsFifo(s: System)
    requires Fifo(s) && !s.worker.Idle?
    ensures Fifo(WorkerStep(s))
  {
    var s' := WorkerStep(s);
    if s'.done != s.done {
      var cmd := s.worker.cmd;
      assert s'.done == s.done + [cmd];
      assert Shutdown in s'.done <==> Shutdown in s.done || cmd == Shutdown;
    }
  }

  lemma WorkerStepKeepsFifo(s: System)
    requires Fifo(s)
    ensures Fifo(WorkerStep(s))
  {
    if !s.worker.Idle? {
      HandleKeepsFifo(s);
    } else if s.queue != [] {
      ReceiveKeepsFifo(s);
    }
  }

  lemma ActKeepsSound(capacity: nat, s: System, act: Action)
    requires Sound(s)
    ensures Sound(Act(capacity, s, act))
  {
    match act
    case ClientAlloc(size, isStatic) => AllocKeepsConsistent(capacity, s.mem, size, isStatic);
    case ClientFree(a) => FreeKeepsConsistent(s.mem, a);
    case ClientMigrate(a, d) => MigrateKeepsConsistent(s.mem, a, d);
    case Send(cmd) =>
    case BeginDrop =>
    case WorkerMoves =>
      WorkerStepKeepsFifo(s);
      if s.worker.Deciding? && !s.worker.cmd.Shutdown? {
        MigrateKeepsConsistent(s.mem, s.worker.cmd.addr, s.worker.target);
      }
  }

  /** Every interleaving keeps the accounting exact and the channel first-in first-out. */
  lemma {:induction false} EveryRunSound(capacity: nat, acts: seq<Action>)
    ensures Sound(RunActions(capacity, Started(EMPTY), acts))
  {
    if acts == [] {
      EmptyConsistent();
    } else {
      EveryRunSound(capacity, acts[..|acts| - 1]);
      ActKeepsSound(capacity, RunActions(capacity, Started(EMPTY), acts[..|acts| - 1]), acts[|acts| - 1]);
    }
  }

  /** The destructor joins a stopped worker: by then every command sent has been handled, Shutdown last. */
  lemma StoppedMeansAllHandled(capacity: nat, acts: seq<Action>)
    requires RunActions(capacity, Started(EMPTY), acts).worker.Stopped?
    ensures var s := RunActions(capacity, Started(EMPTY), acts);
            s.dropped && s.queue == [] && s.done == s.sent && s.sent != [] && s.sent[|s.sent| - 1] == Shutdown
  {
    var s := RunActions(capacity, Started(EMPTY), acts);
    EveryRunSound(capacity, acts);
    var i :| 0 <= i < |s.done| && s.done[i] == Shutdown;
    assert s.sent[i] == Shutdown;
  }

  /** How much the worker still has to do. */
  function Remaining(s: System): nat {
    3 * |s.queue| + match s.worker
                    case Idle => 0
                    case Received(_) => 2
                    case Deciding(_, _) => 1
                    case Stopped => 0
  }

  function Moves(acts: seq<Action>): nat {
    if acts == [] then 0 else Moves(acts[..|acts| - 1]) + if acts[|acts| - 1] == WorkerMoves then 1 else 0
  }

  /** After the drop the worker is never blocked, and has something left to do until it stops. */
  lemma DropStep(s: System)
    requires Fifo(s) && s.dropped && !s.worker.Stopped?
    ensures Remaining(s) > 0
    ensures WorkerStep(s).worker.Stopped? || Remaining(WorkerStep(s)) < Remaining(s)
  {
    assert s.sent[|s.sent| - 1] == Shutdown && Shutdown in s.sent;
    assert s.worker.Idle? && s.queue == [] ==> s.sent == s.done;
  }

  /** After the drop no client action adds work. */
  lemma DropAct(capacity: nat, s: System, act: Action)
    requires Fifo(s) && s.dropped
    ensures var e := Act(capacity, s, act);
            && e.dropped && e.sent == s.sent && (s.worker.Stopped? ==> e.worker.Stopped?)
            && (e.worker.Stopped? || Remaining(e) + (if act == WorkerMoves then 1 else 0) <= Remaining(s))
  {
    if act == WorkerMoves && !s.worker.Stopped? { DropStep(s); }
  }

  /**
   However the clients interleave after the drop, as many worker moves as remain bring the worker to its
   stop, so the join returns.
   */
  lemma {:induction false} DropTerminates(capacity: nat, s: System, acts: seq<Action>)
    requires Sound(s) && s.dropped
    ensures var e := RunActions(capacity, s, acts);
            && Sound(e) && e.dropped && e.sent == s.sent
            && (e.worker.Stopped? || Remaining(e) + Moves(acts) <= Remaining(s))
            && (Moves(acts) >= Remaining(s) ==> e.worker.Stopped?)
  {
    if acts != [] {
      var init, act := acts[..|acts| - 1], acts[|acts| - 1];
      DropTerminates(capacity, s, init);
      ActKeepsSound(capacity, RunActions(capacity, s, init), act);
      DropAct(capacity, RunActions(capacity, s, init), act);
    }
    var e := RunActions(capacity, s, acts);
    if !e.worker.Stopped? { DropStep(e); }
  }

  /** Once stopped, the worker handles nothing more. */
  lemma {:induction false} StoppedForever(capacity: nat, s: System, acts: seq<Action>)
    requires s.worker.Stopped?
    ensures RunActions(capacity, s, acts).worker.Stopped? && RunActions(capacity, s, acts).done == s.done
  {
    if acts != [] { StoppedForever(capacity, s, acts[..|acts| - 1]); }
  }

  /**
   Addresses below the next one are never reused: once such an address is free it stays free in every
   continuation, so a migration decided before a free can never hit another block.
   */
  lemma {:induction false} AddressesNeverReused(capacity: nat, s: System, acts: seq<Action>, a: nat)
    requires a < s.mem.nextAddr && a !in s.mem.blocks
    ensures RunActions(capacity, s, acts).mem.nextAddr >= s.mem.nextAddr
    ensures a !in RunActions(capacity, s, acts).mem.blocks
  {
    if acts != [] { AddressesNeverReused(capacity, s, acts[..|acts| - 1], a); }
  }

  lemma {:induction false} RunConcat(capacity: nat, s: System, a: seq<Action>, b: seq<Action>)
    ensures RunActions(capacity, s, a + b) == RunActions(capacity, RunActions(capacity, s, a), b)
  {
    if b == [] {
      assert a + b == a;
    } else {
      var k := |b| - 1;
      assert (a + b)[..|a + b| - 1] == a + b[..k];
      RunConcat(capacity, s, a, b[..k]);
    }
  }

  // ---- Are addresses unique? ----

  /** The address that allocation number i of a run returns. */
  function AllocatedAt(capacity: nat, s: System, acts: seq<Action>, i: nat): nat
    requires i < |acts|
  {
    RunActions(capacity, s, acts[..i]).mem.nextAddr
  }

  ghost predicate EmptyAllocations(acts: seq<Action>) {
    forall act | act in acts && act.ClientAlloc? :: act.size == 0
  }

  lemma EmptyAllocationsSnoc(acts: seq<Action>, act: Action)
    ensures EmptyAllocations(acts + [act]) <==> EmptyAllocations(acts) && (act.ClientAlloc? ==> act.size == 0)
  {
    assert act in acts + [act];
    if EmptyAllocations(acts + [act]) {
      forall x | x in acts && x.ClientAlloc? ensures x.size == 0 { assert x in acts + [act]; }
    }
  }

  lemma AlignedZeroIff(size: nat)
    ensures Aligned(size) == 0 <==> size == 0
  {}

  lemma ActNextAddr(capacity: nat, s: System, act: Action)
    ensures Act(capacity, s, act).mem.nextAddr == s.mem.nextAddr + if act.ClientAlloc? then Aligned(act.size) else 0
  {}

  /** The next address never falls, and stands still exactly while allocations are empty. */
  lemma {:induction false} NextAddrStandsIff(capacity: nat, s: System, acts: seq<Action>)
    ensures RunActions(capacity, s, acts).mem.nextAddr >= s.mem.nextAddr
    ensures RunActions(capacity, s, acts).mem.nextAddr == s.mem.nextAddr <==> EmptyAllocations(acts)
  {
    if acts != [] {
      var init, act := acts[..|acts| - 1], acts[|acts| - 1];
      NextAddrStandsIff(capacity, s, init);
      ActNextAddr(capacity, RunActions(capacity, s, init), act);
      EmptyAllocationsSnoc(init, act);
      assert acts == init + [act];
      if act.ClientAlloc? { AlignedZeroIff(act.size); }
    }
  }

  /**
   Over every run, two allocations return the same address exactly when the earlier one and all between
   them are of size 0.
   */
  lemma AddressSharedIff(capacity: nat, s: System, acts: seq<Action>, i: nat, j: nat)
    requires i < j < |acts| && acts[i].ClientAlloc? && acts[j].ClientAlloc?
    ensures AllocatedAt(capacity, s, acts, i) == AllocatedAt(capacity, s, acts, j)
            <==> forall k | i <= k < j && acts[k].ClientAlloc? :: acts[k].size == 0
  {
    var between := acts[i..j];
    assert acts[..j] == acts[..i] + between;
    RunConcat(capacity, s, acts[..i], between);
    NextAddrStandsIff(capacity, RunActions(capacity, s, acts[..i]), between);
    if EmptyAllocations(between) {
      forall k | i <= k < j && acts[k].ClientAlloc? ensures acts[k].size == 0 { assert between[k - i] in between; }
    }
  }

  // ---- The split between check and migration ----

  /** What the worker decided fits its command. */
  ghost predicate DecisionFits(w: Worker) {
    w.Deciding? ==> (w.cmd.Prefetch? && w.target == LocalDevice) || (w.cmd.Evict? && w.target == Host)
  }

  lemma {:induction false} EveryDecisionFits(capacity: nat, acts: seq<Action>)
    ensures DecisionFits(RunActions(capacity, Started(EMPTY), acts).worker)
  {
    if acts != [] { EveryDecisionFits(capacity, acts[..|acts| - 1]); }
  }

  /** Neither the device nor where evictions go. */
  predicate Elsewhere(d: MemoryDomain) { d != LocalDevice && d != Host }

  /**
   The migration differs from check and migration made afresh exactly when an eviction finds its block on
   a peer or in swap, from where the check would not have taken it.
   */
  lemma StaleMigrationIff(s: System)
    requires s.worker.Deciding? && DecisionFits(s.worker)
    ensures WorkerStep(s).mem != Process(s.mem, s.worker.cmd) <==>
            s.worker.cmd.Evict? && s.worker.cmd.addr in s.mem.blocks
                && Elsewhere(s.mem.blocks[s.worker.cmd.addr].domain)
  {
    var m, a := s.mem, s.worker.cmd.addr;
    if s.worker.cmd.Evict? && a in m.blocks && Elsewhere(m.blocks[a].domain) {
      assert WorkerStep(s).mem.blocks[a].domain == Host;
    }
  }

  predicate ByClient(act: Action) { !act.WorkerMoves? }

  /** What the clients' actions leave of a block: freed, on the device or the host, or elsewhere. */
  datatype Place = Gone | Near | Away

  function PlaceOf(d: MemoryDomain): Place { if Elsewhere(d) then Away else Near }

  /**
   A block that starts at `start`; a block of size 0 at the next address is replaced by the next allocation,
   on the device or the host.
   */
  ghost function Moved(start: Place, acts: seq<Action>, a: nat, nextAddr: nat): Place {
    if acts == [] then start
    else
      var init, before := acts[..|acts| - 1], Moved(start, acts[..|acts| - 1], a, nextAddr);
      match acts[|acts| - 1]
      case ClientFree(x) => if x == a then Gone else before
      case ClientMigrate(x, to) => if x == a && before != Gone then PlaceOf(to) else before
      case ClientAlloc(_, _) => if a == nextAddr && EmptyAllocations(init) then Near else before
      case _ => before
  }

  ghost function PlaceIn(m: Memory, a: nat): Place { if a in m.blocks then PlaceOf(m.blocks[a].domain) else Gone }

  /** Client actions leave the worker alone and do to the block at a what Moved says. */
  lemma {:induction false} ClientsMove(capacity: nat, s: System, acts: seq<Action>, a: nat)
    requires a <= s.mem.nextAddr && forall act | act in acts :: ByClient(act)
    ensures RunActions(capacity, s, acts).worker == s.worker
    ensures PlaceIn(RunActions(capacity, s, acts).mem, a) == Moved(PlaceIn(s.mem, a), acts, a, s.mem.nextAddr)
  {
    if acts != [] {
      var init := acts[..|acts| - 1];
      assert acts[|acts| - 1] in acts;
      ClientsMove(capacity, s, init, a);
      NextAddrStandsIff(capacity, s, init);
    }
  }

  /**
   An eviction that was decided while its block was resident goes wrong exactly when, before the worker
   gets to it, the clients' last migration of the block sent it elsewhere, and they have neither freed it
   since nor, if it is empty and at the next address, replaced it.
   */
  lemma EvictionOvertakenIff(capacity: nat, s: System, acts: seq<Action>, a: nat)
    requires s.worker == Received(Evict(a)) && DomainOf(s.mem, a) == Some(LocalDevice) && a <= s.mem.nextAddr
    requires forall act | act in acts :: ByClient(act)
    ensures var s' := RunActions(capacity, WorkerStep(s), acts);
            && s'.worker == Deciding(Evict(a), Host)
            && (WorkerStep(s').mem != Process(s'.mem, Evict(a)) <==> Moved(Near, acts, a, s.mem.nextAddr) == Away)
  {
    ClientsMove(capacity, WorkerStep(s), acts, a);
    StaleMigrationIff(RunActions(capacity, WorkerStep(s), acts));
  }

  lemma RunSnoc(capacity: nat, s: System, acts: seq<Action>, act: Action)
    ensures RunActions(capacity, s, acts + [act]) == Act(capacity, RunActions(capacity, s, acts), act)
  {
    assert (acts + [act])[..|acts|] == acts;
  }

  const EVICTING: seq<Action> := [] + [ClientAlloc(PAGE, false)] + [Send(Evict(BASE))] + [WorkerMoves]

  lemma EvictingRun(capacity: nat)
    requires capacity >= PAGE
    ensures var s := RunActions(capacity, Started(EMPTY), EVICTING);
            s.worker == Received(Evict(BASE)) && DomainOf(s.mem, BASE) == Some(LocalDevice)
  {
    var alloc, send := ClientAlloc(PAGE, false), Send(Evict(BASE));
    RunSnoc(capacity, Started(EMPTY), [], alloc);
    RunSnoc(capacity, Started(EMPTY), [] + [alloc], send);
    RunSnoc(capacity, Started(EMPTY), [] + [alloc] + [send], WorkerMoves);
    assert Aligned(PAGE) == PAGE;
  }

  /** Evict, checked while resident; a client sends the block to a peer; the worker then takes it from there. */
  lemma PeerBlockEvicted(capacity: nat)
    requires capacity >= PAGE
    ensures var s := RunActions(capacity, Started(EMPTY), EVICTING + [WorkerMoves] + [ClientMigrate(BASE, RemotePeer)]);
            && DomainOf(s.mem, BASE) == DomainOf(Process(s.mem, Evict(BASE)), BASE) == Some(RemotePeer)
            && DomainOf(WorkerStep(s).mem, BASE) == Some(Host)
  {
    EvictingRun(capacity);
    RunSnoc(capacity, Started(EMPTY), EVICTING, WorkerMoves);
    RunSnoc(capacity, Started(EMPTY), EVICTING + [WorkerMoves], ClientMigrate(BASE, RemotePeer));
  }

  /** Where clients never send a block to a peer or to swap, the split never shows. */
  lemma {:induction false} SplitHarmless(capacity: nat, acts: seq<Action>)
    requires forall act | act in acts && act.ClientMigrate? :: !Elsewhere(act.target)
    ensures var s := RunActions(capacity, Started(EMPTY), acts);
            && (forall a | a in s.mem.blocks :: !Elsewhere(s.mem.blocks[a].domain))
            && (s.worker.Deciding? ==> WorkerStep(s).mem == Process(s.mem, s.worker.cmd))
  {
    if acts != [] {
      assert acts[|acts| - 1] in acts;
      SplitHarmless(capacity, acts[..|acts| - 1]);
      EveryDecisionFits(capacity, acts[..|acts| - 1]);
    }
    EveryDecisionFits(capacity, acts);
    var s := RunActions(capacity, Started(EMPTY), acts);
    if s.worker.Deciding? { StaleMigrationIff(s); }
  }

  /** An action that asks for data on the device other than by allocating it. */
  predicate AsksForDevice(act: Action) {
    (act.ClientMigrate? && act.target == LocalDevice) || (act.Send? && act.cmd.Prefetch?)
  }

  ghost predicate NoPrefetchPending(s: System) {
    && (forall cmd | cmd in s.queue :: !cmd.Prefetch?)
    && (s.worker.Received? ==> !s.worker.cmd.Prefetch?)
    && (s.worker.Deciding? ==> s.worker.target != LocalDevice)
  }

  /** Only migrations and prefetches can overcommit: without them the device stays within capacity. */
  lemma {:induction false} AllocationRespectsCapacity(capacity: nat, acts: seq<Action>)
    requires forall act | act in acts :: !AsksForDevice(act)
    ensures RunActions(capacity, Started(EMPTY), acts).mem.deviceBytes <= capacity
    ensures NoPrefetchPending(RunActions(capacity, Started(EMPTY), acts))
  {
    if acts != [] {
      var act := acts[|acts| - 1];
      assert act in acts;
      AllocationRespectsCapacity(capacity, acts[..|acts| - 1]);
      var s := RunActions(capacity, Started(EMPTY), acts[..|acts| - 1]);
      assert s.queue != [] ==> s.queue[0] in s.queue;
    }
  }

  /** The system once the queue has been handled, up to a Shutdown if it holds one. */
  function Drained(s: System): System {
    var pre := UntilShutdown(s.queue);
    var s' := s.(mem := Drain(s.mem, pre), done := s.done + pre, queue := s.queue[|pre|..]);
    if s'.queue == [] then s' else s'.(queue := s'.queue[1..], worker := Stopped, done := s'.done + [Shutdown])
  }

  /** The system once the first queued command has been handled. */
  function HandledOne(s: System): System
    requires s.queue != []
  {
    s.(mem := Process(s.mem, s.queue[0]), queue := s.queue[1..], done := s.done + [s.queue[0]])
  }

  lemma DrainHead(m: Memory, cmds: seq<Command>)
    requires cmds != []
    ensures Drain(m, cmds) == Drain(Process(m, cmds[0]), cmds[1..])
  {
    assert cmds == [cmds[0]] + cmds[1..];
    DrainConcat(m, [cmds[0]], cmds[1..]);
    DrainOne(m, cmds[0]);
  }

  lemma DrainedStepwise(s: System)
    requires s.queue != [] && s.queue[0] != Shutdown
    ensures Drained(HandledOne(s)) == Drained(s)
  {
    var pre, rest := UntilShutdown(s.queue), UntilShutdown(s.queue[1..]);
    assert pre == [s.queue[0]] + rest && pre[1..] == rest;
    DrainHead(s.mem, pre);
    assert s.done + [s.queue[0]] + rest == s.done + pre;
    assert s.queue[1..][|rest|..] == s.queue[|pre|..];
  }

  lemma StopsAtShutdown(capacity: nat, s: System)
    requires s.worker.Idle? && s.queue != [] && s.queue[0] == Shutdown
    ensures RunActions(capacity, s, [WorkerMoves, WorkerMoves]) == Drained(s)
  {
    var w := WorkerMoves;
    assert [w, w][..1] == [w] && [w][..0] == [];
    assert RunActions(capacity, s, [w]) == WorkerStep(s);
    assert s.done + [] == s.done && s.queue[0..] == s.queue;
  }

  lemma HandleOne(capacity: nat, s: System) returns (moves: seq<Action>)
    requires s.worker.Idle? && s.queue != [] && s.queue[0] != Shutdown
    ensures forall m | m in moves :: m == WorkerMoves
    ensures RunActions(capacity, s, moves) == HandledOne(s)
  {
    var w := WorkerMoves;
    var s1 := WorkerStep(s);
    var s2 := WorkerStep(s1);
    assert [w, w][..1] == [w] && [w][..0] == [] && [w, w, w][..2] == [w, w];
    assert RunActions(capacity, s, [w]) == s1;
    assert RunActions(capacity, s, [w, w]) == s2;
    assert RunActions(capacity, s, [w, w, w]) == WorkerStep(s2);
    moves := if s2.worker.Idle? then [w, w] else [w, w, w];
  }

  /**
   With no client in between, the split check and migration amount to draining the queue in order, up
   to a Shutdown if it holds one.
   */
  lemma {:induction false} WorkerAloneDrains(capacity: nat, s: System) returns (moves: seq<Action>)
    requires s.worker.Idle?
    ensures forall m | m in moves :: m == WorkerMoves
    ensures RunActions(capacity, s, moves) == Drained(s)
    decreases |s.queue|
  {
    if s.queue == [] {
      moves := [];
      assert s.done + s.queue == s.done;
    } else if s.queue[0] == Shutdown {
      moves := [WorkerMoves, WorkerMoves];
      StopsAtShutdown(capacity, s);
    } else {
      var first := HandleOne(capacity, s);
      var rest := WorkerAloneDrains(capacity, HandledOne(s));
      moves := first + rest;
      RunConcat(capacity, s, first, rest);
      DrainedStepwise(s);
    }
  }
}
