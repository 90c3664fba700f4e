/** The DUVAS allocator (omni-core/src/memory/allocator.rs). */
module Allocator {
  import opened Prelude

  datatype MemoryDomain = Host | LocalDevice | RemotePeer | Swap

  datatype Block = Block(addr: nat, size: nat, domain: MemoryDomain, isStatic: bool)

  /** The allocator's fields, as one value. */
  datatype Memory = Memory(blocks: map<nat, Block>, virtualBytes: int, deviceBytes: int, nextAddr: nat)

  const BASE: nat := 0x10_0000_0000
  const PAGE: nat := 4096

  const EMPTY: Memory := Memory(map[], 0, 0, BASE)

  /** Rounded up to whole pages, as the source's mask does. */
  function Aligned(size: nat): (r: nat)
    ensures r % PAGE == 0 && size <= r < size + PAGE
  {
    (size + 4095) / 4096 * 4096
  }

  // ---- The operations, each atomic under the mutex ----

  function AllocStep(capacity: nat, m: Memory, size: nat, isStatic: bool): Memory {
    var aligned := Aligned(size);
    var fits := m.deviceBytes + aligned <= capacity;
    var block := Block(m.nextAddr, aligned, if fits then LocalDevice else Host, isStatic);
    Memory(m.blocks[m.nextAddr := block], m.virtualBytes + aligned,
           m.deviceBytes + (if fits then aligned else 0), m.nextAddr + aligned)
  }

  function FreeStep(m: Memory, addr: nat): Memory {
    if addr in m.blocks then
      var b := m.blocks[addr];
      m.(blocks := m.blocks - {addr}, virtualBytes := m.virtualBytes - b.size,
         deviceBytes := m.deviceBytes - if b.domain == LocalDevice then b.size else 0)
    else m
  }

  function MigrateStep(m: Memory, addr: nat, target: MemoryDomain): Memory {
    if addr in m.blocks && m.blocks[addr].domain != target then
      var b := m.blocks[addr];
      m.(blocks := m.blocks[addr := b.(domain := target)],
         deviceBytes := m.deviceBytes - (if b.domain == LocalDevice then b.size else 0)
                        + (if target == LocalDevice then b.size else 0))
    else m
  }

  function DomainOf(m: Memory, addr: nat): Option<MemoryDomain> {
    if addr in m.blocks then Some(m.blocks[addr].domain) else None
  }

  // ---- Accounting ----

  function Weight(b: Block, deviceOnly: bool): nat {
    if deviceOnly && b.domain != LocalDevice then 0 else b.size
  }

  ghost function SomeKey(blocks: map<nat, Block>): nat
    requires |blocks| > 0
    ensures SomeKey(blocks) in blocks
  {
    var k :| k in blocks.Keys; k
  }

  ghost function Total(blocks: map<nat, Block>, deviceOnly: bool): nat
    decreases |blocks|
  {
    if |blocks| == 0 then 0
    else
      var k := SomeKey(blocks);
      Weight(blocks[k], deviceOnly) + Total(blocks - {k}, deviceOnly)
  }

  lemma {:induction false} TotalWithout(blocks: map<nat, Block>, k: nat, deviceOnly: bool)
    requires k in blocks
    ensures Total(blocks, deviceOnly) == Weight(blocks[k], deviceOnly) + Total(blocks - {k}, deviceOnly)
    decreases |blocks|
  {
    assert |blocks| > 0;
    var p := SomeKey(blocks);
    if p != k {
      TotalWithout(blocks - {p}, k, deviceOnly);
      TotalWithout(blocks - {k}, p, deviceOnly);
      assert blocks - {p} - {k} == blocks - {k} - {p};
    }
  }

  lemma TotalInsert(blocks: map<nat, Block>, k: nat, b: Block, deviceOnly: bool)
    ensures Total(blocks[k := b], deviceOnly) == Weight(b, deviceOnly) + Total(blocks - {k}, deviceOnly)
  {
    TotalWithout(blocks[k := b], k, deviceOnly);
    assert blocks[k := b] - {k} == blocks - {k};
  }

  ghost predicate Placed(m: Memory, a: nat) requires a in m.blocks {
    && m.blocks[a].addr == a && a % PAGE == 0 && m.blocks[a].size % PAGE == 0
    && BASE <= a && a + m.blocks[a].size <= m.nextAddr
  }

  /** The counters equal what is live. */
  ghost predicate Counted(m: Memory) {
    m.virtualBytes == Total(m.blocks, false) && m.deviceBytes == Total(m.blocks, true)
  }

  /** Blocks are page-aligned, disjoint and below the next address. */
  ghost predicate LaidOut(m: Memory) {
    && m.nextAddr % PAGE == 0 && m.nextAddr >= BASE
    && (forall a | a in m.blocks :: Placed(m, a))
    && (forall a, b | a in m.blocks && b in m.blocks && a < b :: a + m.blocks[a].size <= b)
  }

  ghost predicate Consistent(m: Memory) { Counted(m) && LaidOut(m) }

  /** No decrement the source performs on an unsigned counter can underflow. */
  lemma NoUnderflow(m: Memory, a: nat)
    requires Consistent(m) && a in m.blocks
    ensures m.blocks[a].size <= m.virtualBytes
    ensures m.blocks[a].domain == LocalDevice ==> m.blocks[a].size <= m.deviceBytes
  {
    TotalWithout(m.blocks, a, false);
    TotalWithout(m.blocks, a, true);
  }

  lemma EmptyConsistent()
    ensures Consistent(EMPTY)
  {}

  /** A block already at the next address has size 0, so overwriting it loses nothing. */
  lemma ReplacedIsEmpty(m: Memory, deviceOnly: bool)
    requires LaidOut(m)
    ensures Total(m.blocks, deviceOnly) == Total(m.blocks - {m.nextAddr}, deviceOnly)
  {
    if m.nextAddr in m.blocks {
      assert Placed(m, m.nextAddr);
      TotalWithout(m.blocks, m.nextAddr, deviceOnly);
    } else {
      assert m.blocks - {m.nextAddr} == m.blocks;
    }
  }

  lemma AllocKeepsCounted(capacity: nat, m: Memory, size: nat, isStatic: bool)
    requires Consistent(m)
    ensures Counted(AllocStep(capacity, m, size, isStatic))
  {
    var b := AllocStep(capacity, m, size, isStatic).blocks[m.nextAddr];
    forall d ensures Total(m.blocks[m.nextAddr := b], d) == Total(m.blocks, d) + Weight(b, d) {
      TotalInsert(m.blocks, m.nextAddr, b, d);
      ReplacedIsEmpty(m, d);
    }
  }

  lemma AlignedSum(x: nat, y: nat)
    requires x % PAGE == 0 && y % PAGE == 0
    ensures (x + y) % PAGE == 0
  {}

  lemma AllocKeepsLaidOut(capacity: nat, m: Memory, size: nat, isStatic: bool)
    requires LaidOut(m)
    ensures LaidOut(AllocStep(capacity, m, size, isStatic))
  {
    var m', at := AllocStep(capacity, m, size, isStatic), m.nextAddr;
    AlignedSum(m.nextAddr, Aligned(size));
    forall a | a in m'.blocks ensures Placed(m', a) {
      if a != at { assert Placed(m, a); }
    }
    forall a, c | a in m'.blocks && c in m'.blocks && a < c ensures a + m'.blocks[a].size <= c {
      if a != at { assert Placed(m, a); }
      if c != at { assert Placed(m, c); }
    }
  }

  /** Holds even when a zero-size block already sits at the next address and is overwritten. */
  lemma AllocKeepsConsistent(capacity: nat, m: Memory, size: nat, isStatic: bool)
    requires Consistent(m)
    ensures Consistent(AllocStep(capacity, m, size, isStatic))
  {
    AllocKeepsCounted(capacity, m, size, isStatic);
    AllocKeepsLaidOut(capacity, m, size, isStatic);
  }

  lemma FreeKeepsConsistent(m: Memory, addr: nat)
    requires Consistent(m)
    ensures Consistent(FreeStep(m, addr))
  {
    if addr in m.blocks {
      TotalWithout(m.blocks, addr, false);
      TotalWithout(m.blocks, addr, true);
      var m' := FreeStep(m, addr);
      forall a | a in m'.blocks ensures Placed(m', a) { assert Placed(m, a); }
    }
  }

  /** A migration changes the domain of its block and nothing else about the blocks. */
  lemma MigrateEffect(m: Memory, addr: nat, target: MemoryDomain)
    ensures MigrateStep(m, addr, target).nextAddr == m.nextAddr
    ensures MigrateStep(m, addr, target).blocks ==
            if addr in m.blocks then m.blocks[addr := m.blocks[addr].(domain := target)] else m.blocks
  {}

  lemma MigrateKeepsCounted(m: Memory, addr: nat, target: MemoryDomain)
    requires Counted(m)
    ensures Counted(MigrateStep(m, addr, target))
  {
    if addr in m.blocks && m.blocks[addr].domain != target {
      var b := m.blocks[addr].(domain := target);
      forall d ensures Total(m.blocks[addr := b], d) == Total(m.blocks, d) - Weight(m.blocks[addr], d) + Weight(b, d) {
        TotalWithout(m.blocks, addr, d);
        TotalInsert(m.blocks, addr, b, d);
      }
    }
  }

  lemma MigrateKeepsConsistent(m: Memory, addr: nat, target: MemoryDomain)
    requires Consistent(m)
    ensures Consistent(MigrateStep(m, addr, target))
  {
    MigrateKeepsCounted(m, addr, target);
    var m' := MigrateStep(m, addr, target);
    forall a | a in m'.blocks ensures Placed(m', a) { assert Placed(m, a); }
  }

  /**
   Freeing what was just allocated restores everything but the next address, unless a zero-size block
   sat at that address: the allocation overwrote it, and it does not come back.
   */
  lemma AllocThenFreeIff(capacity: nat, m: Memory, size: nat, isStatic: bool)
    ensures FreeStep(AllocStep(capacity, m, size, isStatic), m.nextAddr) == m.(nextAddr := m.nextAddr + Aligned(size))
            <==> m.nextAddr !in m.blocks
  {
    var b := AllocStep(capacity, m, size, isStatic).blocks[m.nextAddr];
    assert m.blocks[m.nextAddr := b] - {m.nextAddr} == m.blocks - {m.nextAddr};
    if m.nextAddr !in m.blocks {
      assert m.blocks - {m.nextAddr} == m.blocks;
    } else {
      assert m.nextAddr !in m.blocks - {m.nextAddr};
    }
  }

  class DuvasAllocator {
    var allocations: map<nat, Block>
    var allocatedVirtualBytes: nat
    var allocatedDeviceBytes: nat
    var nextAddr: nat
    const capacity: nat

    function State(): Memory reads this {
      Memory(allocations, allocatedVirtualBytes, allocatedDeviceBytes, nextAddr)
    }

    ghost predicate Valid() reads this { Consistent(State()) }

    constructor (capacity: nat)
      ensures Valid() && State() == EMPTY && this.capacity == capacity
      ensures allocations == map[] && allocatedVirtualBytes == 0 && allocatedDeviceBytes == 0
      ensures nextAddr == 0x10_0000_0000
    {
      allocations, allocatedVirtualBytes, allocatedDeviceBytes, nextAddr := map[], 0, 0, BASE;
      this.capacity := capacity;
    }

    method Alloc(size: nat, isStatic: bool) returns (addr: nat)
      requires Valid()
      modifies this
      ensures Valid() && State() == AllocStep(capacity, old(State()), size, isStatic) && addr == old(nextAddr)
      ensures var domain := if old(allocatedDeviceBytes) + Aligned(size) <= capacity then LocalDevice else Host;
              allocations == old(allocations)[addr := Block(addr, Aligned(size), domain, isStatic)]
      ensures nextAddr == addr + Aligned(size)
    {
      ghost var after := AllocStep(capacity, State(), size, isStatic);
      assert Consistent(after) by { AllocKeepsConsistent(capacity, State(), size, isStatic); }
      var aligned := Aligned(size);
      addr := nextAddr;
      nextAddr := nextAddr + aligned;
      var domain := Host;
      if allocatedDeviceBytes + aligned <= capacity {
        allocatedDeviceBytes := allocatedDeviceBytes + aligned;
        domain := LocalDevice;
      }
      allocations := allocations[addr := Block(addr, aligned, domain, isStatic)];
      allocatedVirtualBytes := allocatedVirtualBytes + aligned;
      assert State() == after;
    }

    method Free(addr: nat) returns (r: Result<()>)
      requires Valid()
      modifies this
      ensures Valid() && State() == FreeStep(old(State()), addr)
      ensures r == if addr in old(allocations) then Ok(()) else Err(InvalidFree(addr))
      ensures allocations == old(allocations) - {addr} && nextAddr == old(nextAddr)
    {
      FreeKeepsConsistent(State(), addr);
      if addr !in allocations { return Err(InvalidFree(addr)); }
      NoUnderflow(State(), addr);
      var block := allocations[addr];
      allocations := allocations - {addr};
      allocatedVirtualBytes := allocatedVirtualBytes - block.size;
      if block.domain == LocalDevice { allocatedDeviceBytes := allocatedDeviceBytes - block.size; }
      r := Ok(());
    }

    method Migrate(addr: nat, target: MemoryDomain) returns (r: Result<()>)
      requires Valid()
      modifies this
      ensures Valid() && State() == MigrateStep(old(State()), addr, target)
      ensures r == if addr in old(allocations) then Ok(()) else Err(Unallocated(addr))
      ensures nextAddr == old(nextAddr) && allocations ==
              if addr in old(allocations) then old(allocations)[addr := old(allocations)[addr].(domain := target)]
              else old(allocations)
    {
      MigrateKeepsConsistent(State(), addr, target);
      MigrateEffect(State(), addr, target);
      if addr !in allocations { return Err(Unallocated(addr)); }
      var block := allocations[addr];
      if block.domain == target { return Ok(()); }
      if block.domain == LocalDevice {
        NoUnderflow(State(), addr);
        allocatedDeviceBytes := allocatedDeviceBytes - block.size;
      }
      if target == LocalDevice { allocatedDeviceBytes := allocatedDeviceBytes + block.size; }
      allocations := allocations[addr := block.(domain := target)];
      r := Ok(());
    }

    method GetDomain(addr: nat) returns (d: Option<MemoryDomain>)
      ensures d == DomainOf(State(), addr)
    {
      d := if addr in allocations then Some(allocations[addr].domain) else None;
    }

    /** Utilisation: device bytes, capacity, virtual bytes. */
    method GetMetrics() returns (device: nat, cap: nat, virtual: nat)
      requires Valid()
      ensures device == Total(allocations, true) && cap == capacity && virtual == Total(allocations, false)
    {
      device, cap, virtual := allocatedDeviceBytes, capacity, allocatedVirtualBytes;
    }
  }
}
