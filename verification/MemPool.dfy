/** The block pool of mempool/memorypool.cpp: the free list of a block runs through the free units
    themselves, two bytes of link in each. */
module MemPool {
  import opened Basics
  import opened Guard
  import opened PoolModel

  // *(ushort*)(a + o)
  ghost predicate HasU16(a: array<Byte>, o: int) {
    0 <= o && o + 2 <= a.Length
  }

  function ReadU16(a: array<Byte>, o: int): nat
    requires HasU16(a, o)
    reads a
  {
    a[o] as int + 256 * a[o + 1] as int
  }

  lemma ReadIsShort(a: array<Byte>, o: int)
    requires HasU16(a, o)
    ensures ReadU16(a, o) < 0x10000
  {
  }

  // Unit u holds the link v.
  ghost predicate UnitLinks(a: array<Byte>, us: nat, u: nat, v: nat)
    reads a
  {
    HasU16(a, u * us) && ReadU16(a, u * us) == v
  }

  method WriteU16(a: array<Byte>, o: int, v: nat)
    requires HasU16(a, o) && v < 0x10000
    modifies a
    ensures ReadU16(a, o) == v
    ensures forall i :: 0 <= i < a.Length && i != o && i != o + 1 ==> a[i] == old(a[i])
  {
    a[o] := v % 256;
    a[o + 1] := v / 256;
  }

  // Writing the link of one unit leaves the links of all other units alone.
  method WriteLink(a: array<Byte>, o: int, v: nat, ghost us: nat, ghost u: nat)
    requires 2 <= us && o == u * us && HasU16(a, o) && v < 0x10000
    modifies a
    ensures UnitLinks(a, us, u, v)
    ensures forall i :: 0 <= i < a.Length && i != o && i != o + 1 ==> a[i] == old(a[i])
    ensures forall w: nat, x: nat {:trigger UnitLinks(a, us, w, x)} :: w != u && old(UnitLinks(a, us, w, x)) ==> UnitLinks(a, us, w, x)
  {
    WriteU16(a, o, v);
    forall w: nat, x: nat {:trigger UnitLinks(a, us, w, x)} | w != u && old(UnitLinks(a, us, w, x)) ensures UnitLinks(a, us, w, x) {
      if w < u {
        UnitsDiffer(us, w, u);
      } else {
        UnitsDiffer(us, u, w);
      }
    }
  }

  class MemBlock {
    const addr: int              // the address of _data
    const data: array<Byte>
    var size: nat
    var free: nat
    var first: nat
    var pNext: MemBlock?

    ghost predicate Represents(b: Block, us: nat)
      reads this, data
    {
      && addr == b.addr && size == data.Length == b.cap * us < 0x10000
      && free == |b.chain| && first < 0x10000 && (b.chain != [] ==> first == b.chain[0])
      && Threaded(data, us, b.chain)
    }

    // Links each unit to the next; unit 0 is handed out by the caller at once.
    constructor (addr: int, unitCnt: nat, unitSize: nat)
      requires 0 < unitCnt && 2 <= unitSize && unitCnt * unitSize < 0x10000
      ensures fresh(data) && pNext == null && this.addr == addr
      ensures Represents(Block(addr, unitCnt, NewChain(unitCnt)), unitSize)
    {
      this.addr := addr;
      size := unitCnt * unitSize;
      free := unitCnt - 1;
      first := 1;
      pNext := null;
      UnitsDiffer(unitSize, 0, unitCnt);
      data := new Byte[unitCnt * unitSize](_ => 0);
      new;
      ThreadAll(data, unitCnt, unitSize);
    }

    // Hands out the first free unit: its link, good or stale, becomes the new first.
    method Take(us: nat, ghost b: Block) returns (p: int)
      requires 2 <= us && Represents(b, us) && BlockOk(b) && b.chain != []
      modifies `first, `free
      ensures Represents(b.(chain := b.chain[1..]), us) && p == UnitAt(b, us, b.chain[0])
    {
      UnitsDiffer(us, first, b.cap);
      ghost var c := b.chain[1..];
      p := addr + first * us;
      if |b.chain| > 1 {
        assert LinkAt(data, us, b.chain, 0);
      }
      ReadIsShort(data, first * us);
      first := ReadU16(data, first * us);
      free := free - 1;
      forall k: nat {:trigger LinkAt(data, us, c, k)} | k + 1 < |c| ensures LinkAt(data, us, c, k) {
        assert LinkAt(data, us, b.chain, k + 1);
      }
    }

    // Takes back unit u: it becomes the first free unit, linked to the one that was.
    method Give(p: int, us: nat, ghost b: Block, ghost u: nat)
      requires 2 <= us && Represents(b, us) && BlockOk(b) && u < b.cap && u !in b.chain && p == UnitAt(b, us, u)
      modifies `first, `free, data
      ensures Represents(GiveBack(b, u), us) && first == u
      ensures forall i :: 0 <= i < data.Length && i != p - addr && i != p - addr + 1 ==> data[i] == old(data[i])
    {
      UnitsDiffer(us, u, b.cap);
      UnitIndex(us, u);
      CountBelow(b.cap, us);
      free := free + 1;
      ghost var c := GiveBack(b, u).chain;
      WriteLink(data, p - addr, first, us, u);
      first := (p - addr) / us;
      forall k: nat {:trigger LinkAt(data, us, c, k)} | k + 1 < |c| ensures LinkAt(data, us, c, k) {
        if k > 0 {
          assert old(LinkAt(data, us, b.chain, k - 1)) && c[k] == b.chain[k - 1] && c[k] != u;
        }
      }
    }
  }

  // Each unit of the chain but the last links to the next; what the last one holds does not matter.
  ghost predicate Threaded(a: array<Byte>, us: nat, chain: seq<nat>)
    reads a
  {
    forall k: nat {:trigger LinkAt(a, us, chain, k)} :: k + 1 < |chain| ==> LinkAt(a, us, chain, k)
  }

  ghost predicate LinkAt(a: array<Byte>, us: nat, chain: seq<nat>, k: nat)
    requires k + 1 < |chain|
    reads a
  {
    UnitLinks(a, us, chain[k], chain[k + 1])
  }

  // The loop of the MemBlock constructor.
  method ThreadAll(data: array<Byte>, unitCnt: nat, unitSize: nat)
    requires 0 < unitCnt && 2 <= unitSize && unitCnt * unitSize == data.Length < 0x10000
    modifies data
    ensures Threaded(data, unitSize, NewChain(unitCnt))
  {
    CountBelow(unitCnt, unitSize);
    var pData := 0;
    var i := 1;
    while i < unitCnt
      invariant 1 <= i <= unitCnt && pData == (i - 1) * unitSize
      invariant forall u: nat, v: nat {:trigger UnitLinks(data, unitSize, u, v)} :: u < i - 1 && v == u + 1 ==>
        UnitLinks(data, unitSize, u, v)
    {
      UnitsDiffer(unitSize, i - 1, unitCnt);
      WriteLink(data, pData, i, unitSize, i - 1);
      pData := pData + unitSize;
      i := i + 1;
    }
    ghost var c := NewChain(unitCnt);
    forall k: nat {:trigger LinkAt(data, unitSize, c, k)} | k + 1 < |c| ensures LinkAt(data, unitSize, c, k) {
      assert c[k] == k + 1 && c[k + 1] == k + 2 && UnitLinks(data, unitSize, c[k], c[k + 1]);
    }
  }

  lemma CountBelow(cnt: nat, us: nat)
    requires 2 <= us && cnt * us < 0x10000
    ensures cnt < 0x10000
  {
    assert cnt * us >= cnt * 2;
  }

  ghost predicate Agreed(pool: PoolModel.Pool, us: nat, out: set<int>) {
    forall z {:trigger Look(z)} :: Look(z) ==> Agrees(pool, us, out)
  }

  class Pool {
    var pBlock: MemBlock?
    const unitSize: nat
    const initSize: nat
    const growSize: nat

    ghost var pool: PoolModel.Pool    // the blocks, on values
    ghost var out: set<int>           // the addresses handed out
    ghost var blocks: seq<MemBlock>   // the blocks, in chain order
    ghost var nodes: set<MemBlock>
    ghost var mems: set<array<Byte>>

    ghost predicate Sizes()
      reads this
    {
      && 2 <= unitSize && 0 < initSize && initSize * unitSize < 0x10000 && growSize * unitSize < 0x10000
      && |blocks| == |pool|
    }

    ghost function At(i: int): MemBlock?
      reads this
    {
      if 0 <= i < |blocks| then blocks[i] else null
    }

    ghost predicate BlockAt(i: nat)
      requires Sizes() && i < |blocks|
      reads this, nodes, mems
    {
      && blocks[i] in nodes && blocks[i].data in mems
      && blocks[i].Represents(pool[i], unitSize) && blocks[i].pNext == At(i + 1)
    }

    ghost predicate Repr()
      requires Sizes()
      reads this, nodes, mems
    {
      && pBlock == At(0) && Agreed(pool, unitSize, out)
      && (forall i: nat {:trigger BlockAt(i)} :: i < |blocks| ==> BlockAt(i))
      && (forall i, j :: 0 <= i < j < |blocks| ==> blocks[i] != blocks[j] && blocks[i].data != blocks[j].data)
    }

    ghost predicate Valid()
      reads this, nodes, mems
    {
      Sizes() && Repr()
    }

    constructor (unitSize: nat, initSize: nat, growSize: nat)
      requires 0 < initSize && initSize * Rounded(unitSize) < 0x10000 && growSize * Rounded(unitSize) < 0x10000
      ensures Valid() && pool == [] && out == {} && nodes == {} && mems == {}
      ensures this.unitSize == Rounded(unitSize) && this.initSize == initSize && this.growSize == growSize
    {
      pBlock := null;
      this.initSize := initSize;
      this.growSize := growSize;
      this.unitSize := Rounded(unitSize);
      pool, out, blocks, nodes, mems := [], {}, [], {}, {};
    }

    // The search loop of allocMem.
    method FindFree() returns (pmb: MemBlock?, ghost k: nat)
      requires Valid()
      ensures k == FirstFree(pool) && pmb == At(FirstFree(pool))
    {
      pmb := pBlock;
      k := 0;
      while pmb != null && pmb.free == 0
        invariant k <= |blocks| && pmb == At(k)
        invariant forall j :: 0 <= j < k ==> pool[j].chain == []
        decreases |blocks| - k
      {
        assert BlockAt(k);
        pmb := pmb.pNext;
        k := k + 1;
      }
      if k < |blocks| {
        assert BlockAt(k);
      }
    }

    // `grant` is the address the system gives a new block, if it gives one.
    method AllocMem(grant: Option<int>) returns (p: Option<int>)
      requires Valid() && Grantable(pool, unitSize, initSize, growSize, grant)
      modifies this, nodes
      ensures Valid() && (pool, p) == Alloc(old(pool), unitSize, initSize, growSize, grant)
      ensures Units(pool) == old(Units(pool)) +
        if old(UsedUp(pool)) && grant.Some? then (if old(pool) == [] then initSize else growSize) else 0
      ensures p.None? ==> out == old(out)
      ensures p.Some? ==> p.value !in old(out) && out == old(out) + {p.value}
      ensures fresh(nodes - old(nodes)) && fresh(mems - old(mems))
    {
      assert Alloc(pool, unitSize, initSize, growSize, grant).1.Some? ==>
        Alloc(pool, unitSize, initSize, growSize, grant).1.value !in out by {
        assert Look(0);
        AllocAgrees(pool, unitSize, out, initSize, growSize, grant);
      }
      AllocUnits(pool, unitSize, initSize, growSize, grant);
      if pBlock == null {
        if grant.None? {
          return None;
        }
        Grow(grant.value, initSize);
        return Some(pBlock.addr);
      }
      var pmb, k := FindFree();
      if pmb != null {
        p := TakeFrom(pmb, k);
      } else {
        if growSize == 0 || grant.None? {
          return None;
        }
        Grow(grant.value, growSize);
        return Some(pBlock.addr);
      }
    }

    method TakeFrom(pmb: MemBlock, ghost k: nat) returns (p: Option<int>)
      requires Valid() && k < |blocks| && pmb == blocks[k] && pool[k].chain != []
      modifies `pool, `out, nodes
      ensures Valid() && p == Some(UnitAt(old(pool)[k], unitSize, old(pool)[k].chain[0]))
      ensures pool == old(pool)[k := old(pool)[k].(chain := old(pool)[k].chain[1..])] && out == old(out) + {p.value}
    {
      ghost var b := pool[k].(chain := pool[k].chain[1..]);
      ghost var o := out + {UnitAt(pool[k], unitSize, pool[k].chain[0])};
      assert Agreed(pool[k := b], unitSize, o) && BlockOk(pool[k]) by {
        assert Look(0);
        TakeAgrees(pool, unitSize, out, k);
      }
      assert BlockAt(k);
      var a := pmb.Take(unitSize, pool[k]);
      OthersKept(k);
      Adopt(k, b, o);
      p := Some(a);
    }

    // Every block but block k is represented.
    ghost predicate ReprBut(k: nat)
      requires Sizes()
      reads this, nodes, mems
    {
      && pBlock == At(0) && k < |blocks|
      && (forall i: nat {:trigger BlockAt(i)} :: i < |blocks| && i != k ==> BlockAt(i))
      && (forall i, j :: 0 <= i < j < |blocks| ==> blocks[i] != blocks[j] && blocks[i].data != blocks[j].data)
    }

    // Changing one block, and its own memory, leaves the others represented.
    twostate lemma OthersKept(k: nat)
      requires old(Valid()) && pBlock == old(pBlock) && blocks == old(blocks) && pool == old(pool) && k < |blocks|
      requires nodes == old(nodes) && mems == old(mems)
      requires forall b <- nodes :: b != blocks[k] ==> b.first == old(b.first) && b.free == old(b.free)
      requires forall b <- nodes :: b.size == old(b.size) && b.pNext == old(b.pNext)
      requires forall m <- mems :: m != blocks[k].data ==> m[..] == old(m[..])
      ensures Sizes() && ReprBut(k)
    {
      forall i: nat {:trigger BlockAt(i)} | i < |blocks| && i != k ensures BlockAt(i) {
        assert old(BlockAt(i));
        var m, c := blocks[i].data, pool[i].chain;
        forall j: nat {:trigger LinkAt(m, unitSize, c, j)} | j + 1 < |c| ensures LinkAt(m, unitSize, c, j) {
          assert old(LinkAt(m, unitSize, c, j));
          assert forall x :: 0 <= x < m.Length ==> m[x] == m[..][x] && old(m[x]) == old(m[..])[x];
        }
      }
    }

    ghost method Adopt(k: nat, b: Block, o: set<int>)
      requires Sizes() && ReprBut(k) && Agreed(pool[k := b], unitSize, o)
      requires blocks[k] in nodes && blocks[k].data in mems && blocks[k].Represents(b, unitSize) && blocks[k].pNext == At(k + 1)
      modifies `pool, `out
      ensures Valid() && pool == old(pool)[k := b] && out == o
    {
      pool, out := pool[k := b], o;
      forall i: nat {:trigger BlockAt(i)} | i < |blocks| && i != k ensures BlockAt(i) {
        assert old(BlockAt(i));
      }
    }

    method Grow(addr: int, cnt: nat)
      requires Valid() && 0 < cnt && cnt * unitSize < 0x10000
      requires forall i :: 0 <= i < |pool| ==> Apart(Block(addr, cnt, NewChain(cnt)), pool[i], unitSize)
      modifies this
      ensures Valid() && pool == [Block(addr, cnt, NewChain(cnt))] + old(pool) && out == old(out) + {addr}
      ensures fresh(nodes - old(nodes)) && fresh(mems - old(mems)) && pBlock != null && pBlock.addr == addr
    {
      ghost var b := Block(addr, cnt, NewChain(cnt));
      assert Agreed([b] + pool, unitSize, out + {addr}) by {
        assert Look(0);
        GrowAgrees(pool, unitSize, out, addr, cnt);
      }
      var pmb := new MemBlock(addr, cnt, unitSize);
      pmb.pNext := pBlock;
      pBlock := pmb;
      forall i: nat {:trigger BlockAt(i)} | i < |blocks| ensures BlockAt(i) {
        assert old(BlockAt(i));
      }
      AdoptNew(pmb, b);
    }

    ghost method AdoptNew(pmb: MemBlock, b: Block)
      requires Sizes() && ReprNew(pmb) && Agreed([b] + pool, unitSize, out + {b.addr}) && pmb.Represents(b, unitSize)
      modifies `pool, `out, `blocks, `nodes, `mems
      ensures Valid() && pool == [b] + old(pool) && out == old(out) + {b.addr}
      ensures nodes == old(nodes) + {pmb} && mems == old(mems) + {pmb.data}
    {
      forall i: nat | i < |blocks| ensures blocks[i] != pmb && blocks[i].data != pmb.data {
        assert BlockAt(i);
      }
      pool, out := [b] + pool, out + {b.addr};
      blocks, nodes, mems := [pmb] + blocks, nodes + {pmb}, mems + {pmb.data};
      forall i: nat {:trigger BlockAt(i)} | i < |blocks| ensures BlockAt(i) {
        if i > 0 {
          assert old(BlockAt(i - 1));
        }
      }
    }

    // The old blocks, behind a new head.
    ghost predicate ReprNew(pmb: MemBlock)
      requires Sizes()
      reads this, nodes, mems, pmb
    {
      && pBlock == pmb && pmb.pNext == At(0) && pmb !in nodes && pmb.data !in mems
      && (forall i: nat {:trigger BlockAt(i)} :: i < |blocks| ==> BlockAt(i))
      && (forall i, j :: 0 <= i < j < |blocks| ==> blocks[i] != blocks[j] && blocks[i].data != blocks[j].data)
    }

    // The search loop of freeMem: the block that holds p, and the block before it.
    method FindBlock(p: int) returns (pre: MemBlock?, pmb: MemBlock?, ghost k: nat)
      requires Valid()
      ensures k == Find(pool, unitSize, p) && pmb == At(Find(pool, unitSize, p))
      ensures pre == if k == 0 then At(0) else At(k - 1)
    {
      pmb, pre := pBlock, pBlock;
      k := 0;
      if k < |blocks| {
        assert BlockAt(k);
      }
      while pmb != null && (pmb.addr > p || p >= pmb.addr + pmb.size)
        invariant k <= |blocks| && pmb == At(k) && pre == if k == 0 then At(0) else At(k - 1)
        invariant k < |blocks| ==> BlockAt(k)
        invariant forall j :: 0 <= j < k ==> !Within(pool[j], unitSize, p)
        decreases |blocks| - k
      {
        pre := pmb;
        pmb := pmb.pNext;
        k := k + 1;
        if k < |blocks| {
          assert BlockAt(k);
        }
      }
    }

    // Of the bytes of block b, only the two at address p may have changed.
    twostate predicate OnlyWritten(b: MemBlock, p: int)
      reads b.data
    {
      forall i :: 0 <= i < b.data.Length && b.addr + i != p && b.addr + i != p + 1 ==>
        b.data[i] == old(b.data[i])
    }

    // The caller gives back a unit it was handed, or an address that lies in no block.
    method FreeMem(p: int)
      requires Valid() && (p in out || forall b <- pool :: !Within(b, unitSize, p))
      modifies this, nodes, mems
      ensures Valid() && pool == Free(old(pool), unitSize, p) && out == old(out) - {p}
      ensures nodes <= old(nodes) && mems <= old(mems)
      ensures forall b <- old(blocks) :: OnlyWritten(b, p)
    {
      NoUnitOutside(p);
      var pre, pmb, k := FindBlock(p);
      if pmb == null {
        return;
      }
      ghost var u := GiveTo(pmb, k, p);
      assert BlockAt(k);
      FullWhen(pool[k].cap, unitSize, pmb.free);
      if pmb.free * unitSize == pmb.size {
        if pmb != pBlock {
          Drop(pre, pmb, k);
        }
      } else if pmb != pBlock {
        MoveToFront(pre, pmb, k);
      }
    }

    lemma NoUnitOutside(p: int)
      requires Valid()
      ensures p in out <==> (Find(pool, unitSize, p) < |pool| && p in out)
    {
      if p in out {
        assert Look(0);
        var i, u := OutIsFound(pool, unitSize, out, p);
      }
    }

    ghost method UnitOf(p: int) returns (i: nat, u: nat)
      requires Valid() && p in out
      ensures i == Find(pool, unitSize, p) && i < |pool| && u < pool[i].cap && u !in pool[i].chain
      ensures UnitAt(pool[i], unitSize, u) == p && (p - pool[i].addr) / unitSize == u && BlockOk(pool[i])
      ensures Agreed(pool[i := GiveBack(pool[i], u)], unitSize, out - {p})
    {
      assert Look(0);
      i, u := OutIsFound(pool, unitSize, out, p);
      GiveBackAgrees(pool, unitSize, out, i, u);
    }

    method GiveTo(pmb: MemBlock, ghost k: nat, p: int) returns (ghost u: nat)
      requires Valid() && p in out && k == Find(pool, unitSize, p) && pmb == At(k)
      modifies `pool, `out, nodes`first, nodes`free, mems
      ensures Valid() && pool == old(pool)[k := GiveBack(old(pool)[k], u)] && out == old(out) - {p}
      ensures u == (p - old(pool)[k].addr) / unitSize && k < |pool|
      ensures forall b <- blocks :: OnlyWritten(b, p)
    {
      ghost var i;
      i, u := UnitOf(p);
      assert BlockAt(k);
      pmb.Give(p, unitSize, pool[k], u);
      OthersKept(k);
      Adopt(k, GiveBack(pool[k], u), out - {p});
    }

    // A wholly free block behind the head goes back to the system.
    method Drop(pre: MemBlock?, pmb: MemBlock, ghost k: nat)
      requires Valid() && 0 < k < |blocks| && pmb == blocks[k] && pre == At(k - 1) && |pool[k].chain| == pool[k].cap
      modifies `pool, `blocks, nodes`pNext
      ensures Valid() && pool == old(pool)[..k] + old(pool)[k + 1..]
    {
      ghost var q := pool[..k] + pool[k + 1..];
      assert Agreed(q, unitSize, out) by {
        assert Look(0);
        DropAgrees(pool, unitSize, out, k);
      }
      assert BlockAt(k) && BlockAt(k - 1);
      pre.pNext := pmb.pNext;
      ghost var order := blocks[..k] + blocks[k + 1..];
      forall i: nat {:trigger Placed(order, q, i)} | i < |order| ensures Placed(order, q, i) {
        BlockKept(if i < k then i else i + 1);
      }
      Reorder(order, q);
    }

    // Block i once block k has been linked to the front, before the books say so.
    ghost predicate FrontLink(i: nat, k: nat)
      requires Sizes() && i < |blocks|
      reads this, nodes, mems
    {
      && blocks[i] in nodes && blocks[i].data in mems && blocks[i].Represents(pool[i], unitSize)
      && blocks[i].pNext == if i == k then At(0) else if i + 1 == k then At(k + 1) else At(i + 1)
    }

    // Lines 148-150.
    method LinkFirst(pre: MemBlock?, pmb: MemBlock, ghost k: nat)
      requires Valid() && 0 < k < |blocks| && pmb == blocks[k] && pre == At(k - 1)
      modifies `pBlock, nodes`pNext
      ensures Sizes() && pBlock == pmb
      ensures forall i: nat {:trigger FrontLink(i, k)} :: i < |blocks| ==> FrontLink(i, k)
    {
      assert BlockAt(k) && BlockAt(k - 1);
      pre.pNext := pmb.pNext;
      pmb.pNext := pBlock;
      pBlock := pmb;
      assert forall m <- mems :: m[..] == old(m[..]);
      forall i: nat {:trigger FrontLink(i, k)} | i < |blocks| ensures FrontLink(i, k) {
        BlockKept(i);
      }
    }

    // A block behind the head moves to the front of the chain.
    method MoveToFront(pre: MemBlock?, pmb: MemBlock, ghost k: nat)
      requires Valid() && 0 < k < |blocks| && pmb == blocks[k] && pre == At(k - 1)
      modifies `pBlock, `pool, `blocks, nodes`pNext
      ensures Valid() && pool == [old(pool)[k]] + old(pool)[..k] + old(pool)[k + 1..]
    {
      ghost var q := [pool[k]] + pool[..k] + pool[k + 1..];
      assert Agreed(q, unitSize, out) by {
        assert Look(0);
        FrontAgrees(pool, unitSize, out, k);
      }
      LinkFirst(pre, pmb, k);
      ghost var order := [blocks[k]] + blocks[..k] + blocks[k + 1..];
      FrontPlaces(blocks, k);
      FrontPlaces(pool, k);
      forall i: nat {:trigger Placed(order, q, i)} | i < |order| ensures Placed(order, q, i) {
        assert FrontLink(FrontPlace(i, k), k);
      }
      Reorder(order, q);
    }

    // Block i of the order represents q[i] and is linked to block i + 1 of the order.
    ghost predicate Placed(order: seq<MemBlock>, q: PoolModel.Pool, i: nat)
      requires i < |order| == |q|
      reads this, nodes, mems
    {
      && order[i] in nodes && order[i].data in mems && order[i].Represents(q[i], unitSize)
      && order[i].pNext == (if i + 1 < |order| then order[i + 1] else null)
    }

    ghost method Reorder(order: seq<MemBlock>, q: PoolModel.Pool)
      requires Sizes() && |order| == |q| > 0 && Agreed(q, unitSize, out) && pBlock == order[0]
      requires forall i: nat {:trigger Placed(order, q, i)} :: i < |order| ==> Placed(order, q, i)
      requires forall i, j :: 0 <= i < j < |order| ==> order[i] != order[j] && order[i].data != order[j].data
      modifies `pool, `blocks
      ensures Valid() && pool == q && blocks == order
    {
      pool, blocks := q, order;
      forall i: nat {:trigger BlockAt(i)} | i < |blocks| ensures BlockAt(i) {
        assert old(Placed(order, q, i));
      }
    }

    // The walk of the destructor: it meets every block of the chain once.
    method Destroy() returns (deleted: seq<MemBlock>)
      requires Valid()
      ensures deleted == blocks && forall i, j :: 0 <= i < j < |deleted| ==> deleted[i] != deleted[j]
    {
      var pmb := pBlock;
      deleted := [];
      while pmb != null
        invariant |deleted| <= |blocks| && pmb == At(|deleted|) && deleted == blocks[..|deleted|]
        decreases |blocks| - |deleted|
      {
        assert BlockAt(|deleted|);
        var pNext := pmb.pNext;
        deleted := deleted + [pmb];
        pmb := pNext;
      }
    }

    // The holder of a unit may write any byte of it: the free chains run only through free units.
    method WriteUnit(p: int, offset: nat, v: Byte)
      requires Valid() && p in out && offset < unitSize
      modifies mems
      ensures Valid()
    {
      ghost var i, u := UnitOf(p);
      var pre, pmb, k := FindBlock(p);
      assert BlockAt(k);
      UnitsDiffer(unitSize, u, pool[k].cap);
      pmb.data[p - pmb.addr + offset] := v;
      ghost var m, c := pmb.data, pool[k].chain;
      forall j: nat {:trigger LinkAt(m, unitSize, c, j)} | j + 1 < |c| ensures LinkAt(m, unitSize, c, j) {
        assert old(LinkAt(m, unitSize, c, j)) && c[j] in c;
        if c[j] < u {
          UnitsDiffer(unitSize, c[j], u);
        } else {
          UnitsDiffer(unitSize, u, c[j]);
        }
      }
      OthersKept(k);
      AdoptSame(k);
    }

    lemma AdoptSame(k: nat)
      requires Sizes() && ReprBut(k) && Agreed(pool, unitSize, out)
      requires blocks[k] in nodes && blocks[k].data in mems && blocks[k].Represents(pool[k], unitSize) && blocks[k].pNext == At(k + 1)
      ensures Valid()
    {
      forall i: nat {:trigger BlockAt(i)} | i < |blocks| ensures BlockAt(i) {
      }
    }

    // Relinking the chain leaves what a block represents alone.
    twostate lemma BlockKept(i: nat)
      requires old(Valid()) && blocks == old(blocks) && pool == old(pool) && nodes == old(nodes) && mems == old(mems)
      requires forall b <- nodes :: b.size == old(b.size) && b.free == old(b.free) && b.first == old(b.first)
      requires forall m <- mems :: m[..] == old(m[..])
      requires i < |blocks|
      ensures blocks[i] in nodes && blocks[i].data in mems && blocks[i].Represents(pool[i], unitSize)
      ensures old(blocks[i].pNext) == At(i + 1)
    {
      assert old(BlockAt(i));
      var m, c := blocks[i].data, pool[i].chain;
      forall j: nat {:trigger LinkAt(m, unitSize, c, j)} | j + 1 < |c| ensures LinkAt(m, unitSize, c, j) {
        assert old(LinkAt(m, unitSize, c, j));
        assert forall x :: 0 <= x < m.Length ==> m[x] == m[..][x] && old(m[x]) == old(m[..])[x];
      }
    }
  }

  // Where the i-th entry stood before entry k moved to the front.
  ghost function FrontPlace(i: nat, k: nat): nat {
    if i == 0 then k else if i <= k then i - 1 else i
  }

  lemma FrontPlaces<T>(s: seq<T>, k: nat)
    requires k < |s|
    ensures var r := [s[k]] + s[..k] + s[k + 1..];
      |r| == |s| && forall i: nat {:trigger FrontPlace(i, k)} :: i < |r| ==> r[i] == s[FrontPlace(i, k)]
  {
  }

  lemma FullWhen(cap: nat, us: nat, free: nat)
    requires 0 < us
    ensures free * us == cap * us <==> free == cap
  {
    if free < cap {
      UnitsDiffer(us, free, cap);
    } else if cap < free {
      UnitsDiffer(us, cap, free);
    }
  }

  // The unit size a pool uses: even, at least 2, and no smaller than asked.
  function Rounded(unitSize: nat): (u: nat)
    ensures 2 <= u && unitSize <= u && u % 2 == 0 && (u == 2 || u <= unitSize + 1)
  {
    if unitSize > 4 then (unitSize + 1) / 2 * 2 else if unitSize <= 2 then 2 else 4
  }
}
