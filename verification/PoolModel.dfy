/** What mempool/memorypool.cpp does to its chain of blocks, on values: each block is its address, its
    capacity in units, and the chain of its free units in the order in which they are handed out. */
module PoolModel {
  import opened Basics

  datatype Block = Block(addr: int, cap: nat, chain: seq<nat>)

  type Pool = seq<Block>

  ghost predicate BlockOk(b: Block) {
    && 0 < b.cap
    && (forall k :: 0 <= k < |b.chain| ==> b.chain[k] < b.cap)
    && (forall j, k :: 0 <= j < k < |b.chain| ==> b.chain[j] != b.chain[k])
  }

  // The bytes of a block: its search interval in freeMem.
  predicate Within(b: Block, us: nat, p: int) {
    b.addr <= p < b.addr + b.cap * us
  }

  predicate Apart(b: Block, c: Block, us: nat) {
    b.addr + b.cap * us <= c.addr || c.addr + c.cap * us <= b.addr
  }

  ghost predicate PoolOk(pool: Pool, us: nat) {
    && 0 < us
    && (forall i :: 0 <= i < |pool| ==> BlockOk(pool[i]))
    && (forall i, j :: 0 <= i < j < |pool| ==> Apart(pool[i], pool[j], us))
  }

  function UnitAt(b: Block, us: nat, u: nat): int {
    b.addr + u * us
  }

  // Unit u of block i has been handed out.
  ghost predicate OutAt(pool: Pool, us: nat, p: int, i: int, u: nat) {
    0 <= i < |pool| && u < pool[i].cap && u !in pool[i].chain && p == UnitAt(pool[i], us, u)
  }

  // `out`, the addresses handed out and not given back, are exactly the units off the free chains.
  ghost predicate Agrees(pool: Pool, us: nat, out: set<int>) {
    && PoolOk(pool, us)
    && (forall i, u: nat {:trigger UnitAt(pool[i], us, u)} :: 0 <= i < |pool| && u < pool[i].cap ==>
          (UnitAt(pool[i], us, u) in out <==> u !in pool[i].chain))
    && (forall p {:trigger Held(pool, us, p)} :: p in out ==> Held(pool, us, p))
  }

  ghost predicate Held(pool: Pool, us: nat, p: int) {
    exists i, u: nat :: OutAt(pool, us, p, i, u)
  }

  // The chain of a new block, whose unit 0 is handed out at once.
  function NewChain(cnt: nat): (c: seq<nat>)
    requires 0 < cnt
    ensures |c| == cnt - 1
  {
    seq(cnt - 1, i => i + 1)
  }

  function FirstFree(pool: Pool): (i: nat)
    ensures i <= |pool| && (i < |pool| ==> pool[i].chain != [])
    ensures forall j :: 0 <= j < i ==> pool[j].chain == []
  {
    if pool == [] then 0 else if pool[0].chain != [] then 0 else FirstFree(pool[1..]) + 1
  }

  function Find(pool: Pool, us: nat, p: int): (i: nat)
    ensures i <= |pool| && (i < |pool| ==> Within(pool[i], us, p))
    ensures forall j :: 0 <= j < i ==> !Within(pool[j], us, p)
  {
    if pool == [] then 0 else if Within(pool[0], us, p) then 0 else Find(pool[1..], us, p) + 1
  }

  // allocMem: the new chain of blocks and the address handed out.  `grant` is the system's answer to `new`.
  function Alloc(pool: Pool, us: nat, init: nat, grow: nat, grant: Option<int>): (Pool, Option<int>)
    requires 0 < init
  {
    var i := FirstFree(pool);
    if i < |pool| then
      var b := pool[i];
      (pool[i := b.(chain := b.chain[1..])], Some(UnitAt(b, us, b.chain[0])))
    else
      var cnt := if pool == [] then init else grow;
      if cnt == 0 || grant.None? then (pool, None) else
      ([Block(grant.value, cnt, NewChain(cnt))] + pool, grant)
  }

  // Block i after unit u has been given back.
  function GiveBack(b: Block, u: nat): Block {
    b.(chain := [u] + b.chain)
  }

  // Unit u of block i is given back; the block then leaves the chain or moves to its front.
  function PutBack(pool: Pool, i: nat, u: nat): Pool
    requires i < |pool|
  {
    var b := GiveBack(pool[i], u);
    if i == 0 then pool[0 := b]
    else if |b.chain| == b.cap then pool[..i] + pool[i + 1..]
    else [b] + pool[..i] + pool[i + 1..]
  }

  // freeMem, with the old head kept behind the block moved to the front.
  function Free(pool: Pool, us: nat, p: int): Pool
    requires 0 < us
  {
    var i := Find(pool, us, p);
    if i == |pool| then pool else PutBack(pool, i, (p - pool[i].addr) / us)
  }

  // freeMem as it stands: the block moved to the front is linked to the successor of the old head.
  function PutBackAsWritten(pool: Pool, i: nat, u: nat): Pool
    requires i < |pool|
  {
    var b := GiveBack(pool[i], u);
    if i == 0 then pool[0 := b]
    else if |b.chain| == b.cap then pool[..i] + pool[i + 1..]
    else [b] + pool[1..i] + pool[i + 1..]
  }

  function FreeAsWritten(pool: Pool, us: nat, p: int): Pool
    requires 0 < us
  {
    var i := Find(pool, us, p);
    if i == |pool| then pool else PutBackAsWritten(pool, i, (p - pool[i].addr) / us)
  }

  // Arithmetic of units.

  lemma {:induction false} UnitsDiffer(us: nat, u: nat, v: nat)
    requires u < v
    ensures 0 <= u * us && u * us + us <= v * us
    decreases v
  {
    assert v * us == (v - 1) * us + us;
    if u < v - 1 {
      UnitsDiffer(us, u, v - 1);
    }
  }

  lemma UnitIndex(us: nat, u: nat)
    requires 0 < us
    ensures (u * us) / us == u
  {
    var q := (u * us) / us;
    assert 0 <= u * us;
    assert q * us <= u * us < q * us + us;
    if q < u {
      UnitsDiffer(us, q, u);
    } else if u < q {
      UnitsDiffer(us, u, q);
    }
  }

  // An address lies in at most one block, and is at most one unit of it.
  lemma OneUnit(pool: Pool, us: nat, i: int, u: nat, j: int, v: nat)
    requires PoolOk(pool, us) && 0 <= i < |pool| && 0 <= j < |pool| && u < pool[i].cap && v < pool[j].cap
    requires UnitAt(pool[i], us, u) == UnitAt(pool[j], us, v)
    ensures i == j && u == v
  {
    UnitsDiffer(us, u, pool[i].cap);
    UnitsDiffer(us, v, pool[j].cap);
    if i == j && u < v {
      UnitsDiffer(us, u, v);
    } else if i == j && v < u {
      UnitsDiffer(us, v, u);
    }
  }

  // The search of freeMem finds the block that holds an address.
  lemma FindFinds(pool: Pool, us: nat, i: int, u: nat)
    requires PoolOk(pool, us) && 0 <= i < |pool| && u < pool[i].cap
    ensures Find(pool, us, UnitAt(pool[i], us, u)) == i
    ensures (UnitAt(pool[i], us, u) - pool[i].addr) / us == u
  {
    var p := UnitAt(pool[i], us, u);
    UnitsDiffer(us, u, pool[i].cap);
    UnitIndex(us, u);
  }

  // Counting.

  function Below(n: nat): (s: set<nat>)
    ensures |s| == n && forall u: nat :: u in s <==> u < n
  {
    if n == 0 then {} else Below(n - 1) + {n - 1}
  }

  // The units of a block that have been handed out.
  function Taken(b: Block): set<nat> {
    set u: nat | u < b.cap && u !in b.chain
  }

  // Free plus handed out is the capacity; so a chain as long as the capacity holds every unit.
  lemma Capacity(b: Block)
    requires BlockOk(b)
    ensures |b.chain| + |Taken(b)| == b.cap
    ensures |b.chain| == b.cap ==> forall u: nat :: u < b.cap ==> u in b.chain
  {
    DistinctCount(b.chain);
    forall u ensures u in Below(b.cap) <==> u in Elements(b.chain) + Taken(b) {
    }
    assert Below(b.cap) == Elements(b.chain) + Taken(b);
    assert Elements(b.chain) !! Taken(b);
    if |b.chain| == b.cap {
      forall u: nat | u < b.cap ensures u in b.chain {
        assert u !in Taken(b);
      }
    }
  }

  // What each step does to the agreement.

  // Unit u of block i, the head of its chain, is handed out.
  lemma TakeAgrees(pool: Pool, us: nat, out: set<int>, i: nat)
    requires Agrees(pool, us, out) && i < |pool| && pool[i].chain != []
    ensures var p := UnitAt(pool[i], us, pool[i].chain[0]);
      p !in out && Agrees(pool[i := pool[i].(chain := pool[i].chain[1..])], us, out + {p})
  {
    var u := pool[i].chain[0];
    var p := UnitAt(pool[i], us, u);
    var q := pool[i := pool[i].(chain := pool[i].chain[1..])];
    assert pool[i].chain == [u] + q[i].chain;
    forall j, v: nat {:trigger UnitAt(q[j], us, v)} | 0 <= j < |q| && v < q[j].cap
      ensures UnitAt(q[j], us, v) in out + {p} <==> v !in q[j].chain
    {
      assert UnitAt(q[j], us, v) == UnitAt(pool[j], us, v);
      if UnitAt(q[j], us, v) == p {
        OneUnit(pool, us, j, v, i, u);
      }
    }
    forall x {:trigger Held(q, us, x)} | x in out + {p} ensures Held(q, us, x) {
      if x == p {
        assert OutAt(q, us, p, i, u);
      } else {
        assert Held(pool, us, x);
        var j, v: nat :| OutAt(pool, us, x, j, v);
        assert OutAt(q, us, x, j, v);
      }
    }
  }

  // Unit u of block i is given back.
  lemma GiveBackAgrees(pool: Pool, us: nat, out: set<int>, i: nat, u: nat)
    requires Agrees(pool, us, out) && i < |pool| && u < pool[i].cap && UnitAt(pool[i], us, u) in out
    ensures Agrees(pool[i := GiveBack(pool[i], u)], us, out - {UnitAt(pool[i], us, u)})
  {
    var p := UnitAt(pool[i], us, u);
    var q := pool[i := GiveBack(pool[i], u)];
    forall j, v: nat {:trigger UnitAt(q[j], us, v)} | 0 <= j < |q| && v < q[j].cap
      ensures UnitAt(q[j], us, v) in out - {p} <==> v !in q[j].chain
    {
      assert UnitAt(q[j], us, v) == UnitAt(pool[j], us, v);
      if UnitAt(q[j], us, v) == p {
        OneUnit(pool, us, j, v, i, u);
      }
    }
    forall x {:trigger Held(q, us, x)} | x in out - {p} ensures Held(q, us, x) {
      assert Held(pool, us, x);
      var j, v: nat :| OutAt(pool, us, x, j, v);
      assert OutAt(q, us, x, j, v);
    }
  }

  // A wholly free block leaves the chain.
  lemma DropAgrees(pool: Pool, us: nat, out: set<int>, i: nat)
    requires Agrees(pool, us, out) && i < |pool| && |pool[i].chain| == pool[i].cap
    ensures Agrees(pool[..i] + pool[i + 1..], us, out)
  {
    var q := pool[..i] + pool[i + 1..];
    Capacity(pool[i]);
    forall j, v: nat {:trigger UnitAt(q[j], us, v)} | 0 <= j < |q| && v < q[j].cap
      ensures UnitAt(q[j], us, v) in out <==> v !in q[j].chain
    {
      assert UnitAt(q[j], us, v) == UnitAt(pool[if j < i then j else j + 1], us, v);
    }
    forall x {:trigger Held(q, us, x)} | x in out ensures Held(q, us, x) {
      assert Held(pool, us, x);
      var j, v: nat :| OutAt(pool, us, x, j, v);
      assert OutAt(q, us, x, if j < i then j else j - 1, v);
    }
  }

  // A block moves to the front of the chain.
  lemma FrontAgrees(pool: Pool, us: nat, out: set<int>, i: nat)
    requires Agrees(pool, us, out) && i < |pool|
    ensures Agrees([pool[i]] + pool[..i] + pool[i + 1..], us, out)
  {
    var q := [pool[i]] + pool[..i] + pool[i + 1..];
    forall j | 0 <= j < |q| ensures q[j] == pool[if j == 0 then i else if j <= i then j - 1 else j] {
    }
    forall j, k | 0 <= j < k < |q| ensures Apart(q[j], q[k], us) {
      var a, b := if j == 0 then i else if j <= i then j - 1 else j, if k <= i then k - 1 else k;
      assert Apart(pool[if a < b then a else b], pool[if a < b then b else a], us);
    }
    forall j, v: nat {:trigger UnitAt(q[j], us, v)} | 0 <= j < |q| && v < q[j].cap
      ensures UnitAt(q[j], us, v) in out <==> v !in q[j].chain
    {
      assert UnitAt(q[j], us, v) == UnitAt(pool[if j == 0 then i else if j <= i then j - 1 else j], us, v);
    }
    forall x {:trigger Held(q, us, x)} | x in out ensures Held(q, us, x) {
      assert Held(pool, us, x);
      var j, v: nat :| OutAt(pool, us, x, j, v);
      assert OutAt(q, us, x, if j == i then 0 else if j < i then j + 1 else j, v);
    }
  }

  // A new block joins at the front, with its unit 0 handed out.
  lemma GrowAgrees(pool: Pool, us: nat, out: set<int>, addr: int, cnt: nat)
    requires Agrees(pool, us, out) && 0 < cnt
    requires forall i :: 0 <= i < |pool| ==> Apart(Block(addr, cnt, NewChain(cnt)), pool[i], us)
    ensures addr !in out && Agrees([Block(addr, cnt, NewChain(cnt))] + pool, us, out + {addr})
  {
    var b := Block(addr, cnt, NewChain(cnt));
    var q := [b] + pool;
    forall j, k | 0 <= j < k < |q| ensures Apart(q[j], q[k], us) {
      assert q[k] == pool[k - 1] && (j > 0 ==> q[j] == pool[j - 1]);
    }
    assert PoolOk(q, us);
    forall u: nat | u < cnt ensures u in b.chain <==> u != 0 {
      assert u > 0 ==> b.chain[u - 1] == u;
    }
    forall x | x in out ensures forall v: nat :: v < cnt ==> x != UnitAt(b, us, v) {
      assert Held(pool, us, x);
      var j, w: nat :| OutAt(pool, us, x, j, w);
      forall v: nat | v < cnt ensures x != UnitAt(b, us, v) {
        if x == UnitAt(b, us, v) {
          OneUnit(q, us, 0, v, j + 1, w);
        }
      }
    }
    assert UnitAt(b, us, 0) == addr;
    forall j, v: nat {:trigger UnitAt(q[j], us, v)} | 0 <= j < |q| && v < q[j].cap
      ensures UnitAt(q[j], us, v) in out + {addr} <==> v !in q[j].chain
    {
      if UnitAt(q[j], us, v) == addr {
        OneUnit(q, us, j, v, 0, 0);
      }
      if j > 0 {
        assert UnitAt(q[j], us, v) == UnitAt(pool[j - 1], us, v);
      }
    }
    forall x {:trigger Held(q, us, x)} | x in out + {addr} ensures Held(q, us, x) {
      if x == addr {
        assert OutAt(q, us, x, 0, 0);
      } else {
        assert Held(pool, us, x);
        var j, v: nat :| OutAt(pool, us, x, j, v);
        assert OutAt(q, us, x, j + 1, v);
      }
    }
  }

  // The system grants a fresh block only outside the blocks the pool has.
  predicate Grantable(pool: Pool, us: nat, init: nat, grow: nat, grant: Option<int>) {
    var cnt := if pool == [] then init else grow;
    grant.Some? && cnt > 0 ==>
      forall i :: 0 <= i < |pool| ==> Apart(Block(grant.value, cnt, NewChain(cnt)), pool[i], us)
  }

  // allocMem never hands out a unit that is still out.
  lemma AllocAgrees(pool: Pool, us: nat, out: set<int>, init: nat, grow: nat, grant: Option<int>)
    requires Agrees(pool, us, out) && 0 < init && Grantable(pool, us, init, grow, grant)
    ensures var (q, r) := Alloc(pool, us, init, grow, grant);
      if r.None? then q == pool else r.value !in out && Agrees(q, us, out + {r.value})
    ensures Alloc(pool, us, init, grow, grant).1.None? ==>
      (forall b <- pool :: b.chain == []) && (grant.None? || (pool != [] && grow == 0))
  {
    var i := FirstFree(pool);
    var cnt := if pool == [] then init else grow;
    if i < |pool| {
      TakeAgrees(pool, us, out, i);
    } else if cnt > 0 && grant.Some? {
      GrowAgrees(pool, us, out, grant.value, cnt);
    }
  }

  // What a growth is worth.

  // The answers to requests, one after the other.
  function Answers(pool: Pool, us: nat, init: nat, grow: nat, grants: seq<Option<int>>): seq<Option<int>>
    requires 0 < init
    decreases |grants|
  {
    if grants == [] then [] else
    var (q, r) := Alloc(pool, us, init, grow, grants[0]);
    [r] + Answers(q, us, init, grow, grants[1..])
  }

  ghost predicate UsedUp(pool: Pool) {
    forall b <- pool :: b.chain == []
  }

  // The system grants no block, n times.
  function NoGrants(n: nat): seq<Option<int>> {
    seq(n, _ => None)
  }

  function InOrder(p: int, us: nat, from: nat, to: nat): seq<Option<int>>
    requires from <= to
  {
    seq(to - from, k requires 0 <= k => Some(p + (from + k) * us))
  }

  lemma {:induction false} ServesRest(pool: Pool, us: nat, init: nat, grow: nat, p: int, cnt: nat, k: nat)
    requires UsedUp(pool) && 0 < init && 1 <= k <= cnt
    ensures Answers([Block(p, cnt, NewChain(cnt)[k - 1..])] + pool, us, init, grow, NoGrants(cnt - k + 1)) ==
            InOrder(p, us, k, cnt) + [None]
    decreases cnt - k
  {
    var b := Block(p, cnt, NewChain(cnt)[k - 1..]);
    NoGrantsFirst(cnt - k);
    if k == cnt {
      AllocNothing([b] + pool, us, init, grow);
      assert Answers([b] + pool, us, init, grow, []) == [] && NoGrants(0) == [];
      assert InOrder(p, us, cnt, cnt) == [];
    } else {
      assert b.chain[0] == k && b.chain[1..] == NewChain(cnt)[k..];
      AllocHead(b, pool, us, init, grow, None);
      ServesRest(pool, us, init, grow, p, cnt, k + 1);
      InOrderFirst(p, us, k, cnt);
    }
  }

  lemma NoGrantsFirst(n: nat)
    ensures NoGrants(n + 1)[0] == None && NoGrants(n + 1)[1..] == NoGrants(n)
  {
  }

  lemma InOrderFirst(p: int, us: nat, from: nat, to: nat)
    requires from < to
    ensures InOrder(p, us, from, to) == [Some(p + from * us)] + InOrder(p, us, from + 1, to)
  {
  }

  lemma AllocNothing(pool: Pool, us: nat, init: nat, grow: nat)
    requires UsedUp(pool) && 0 < init
    ensures Alloc(pool, us, init, grow, None) == (pool, None)
  {
    assert FirstFree(pool) == |pool|;
  }

  // When nothing is free, one grant serves exactly as many requests as the first block, or a later one, has
  // units: their addresses follow each other, and the request behind them fails.
  lemma GrowthServes(pool: Pool, us: nat, init: nat, grow: nat, p: int)
    requires UsedUp(pool) && 0 < init
    ensures var cnt := if pool == [] then init else grow;
      Answers(pool, us, init, grow, [Some(p)] + NoGrants(cnt)) ==
      if cnt == 0 then [None] else InOrder(p, us, 0, cnt) + [None]
  {
    var cnt, grants := if pool == [] then init else grow, [Some(p)] + NoGrants(if pool == [] then init else grow);
    assert FirstFree(pool) == |pool| && grants[1..] == NoGrants(cnt);
    if cnt > 0 {
      assert NewChain(cnt)[0..] == NewChain(cnt);
      ServesRest(pool, us, init, grow, p, cnt, 1);
      InOrderFirst(p, us, 0, cnt);
    } else {
      assert Answers(pool, us, init, grow, []) == [];
    }
  }

  // The units of all blocks.
  function Units(pool: Pool): nat {
    if pool == [] then 0 else pool[0].cap + Units(pool[1..])
  }

  lemma {:induction false} UnitsAfterTake(pool: Pool, i: nat, b: Block)
    requires i < |pool| && b.cap == pool[i].cap
    ensures Units(pool[i := b]) == Units(pool)
    decreases i
  {
    if i > 0 {
      assert pool[i := b][1..] == pool[1..][i - 1 := b];
      UnitsAfterTake(pool[1..], i - 1, b);
    }
  }

  // The capacity grows only when nothing is free, and then by initSize units for the first block and by
  // growSize for a later one.
  lemma AllocUnits(pool: Pool, us: nat, init: nat, grow: nat, grant: Option<int>)
    requires 0 < init
    ensures Units(Alloc(pool, us, init, grow, grant).0) ==
            Units(pool) + if UsedUp(pool) && grant.Some? then (if pool == [] then init else grow) else 0
  {
    var i := FirstFree(pool);
    if i < |pool| {
      assert pool[i] in pool;
      UnitsAfterTake(pool, i, pool[i].(chain := pool[i].chain[1..]));
    }
  }

  // An address that is out is found by the search of freeMem, at its own unit.
  lemma OutIsFound(pool: Pool, us: nat, out: set<int>, p: int) returns (i: nat, u: nat)
    requires Agrees(pool, us, out) && p in out
    ensures i < |pool| && u < pool[i].cap && u !in pool[i].chain && UnitAt(pool[i], us, u) == p
    ensures Find(pool, us, p) == i && (p - pool[i].addr) / us == u
    ensures BlockOk(GiveBack(pool[i], u)) && |GiveBack(pool[i], u).chain| <= pool[i].cap
  {
    assert Held(pool, us, p);
    i, u :| OutAt(pool, us, p, i, u);
    FindFinds(pool, us, i, u);
    Capacity(GiveBack(pool[i], u));
  }

  lemma PutBackAgrees(pool: Pool, us: nat, out: set<int>, i: nat, u: nat)
    requires Agrees(pool, us, out) && i < |pool| && u < pool[i].cap && UnitAt(pool[i], us, u) in out
    ensures Agrees(PutBack(pool, i, u), us, out - {UnitAt(pool[i], us, u)})
  {
    GiveBackAgrees(pool, us, out, i, u);
    var q := pool[i := GiveBack(pool[i], u)];
    if i != 0 {
      assert q[..i] == pool[..i] && q[i + 1..] == pool[i + 1..];
      if |q[i].chain| == q[i].cap {
        DropAgrees(q, us, out - {UnitAt(pool[i], us, u)}, i);
      } else {
        FrontAgrees(q, us, out - {UnitAt(pool[i], us, u)}, i);
      }
    }
  }

  // freeMem takes back exactly the unit it is given, and leaves every other unit reachable.
  lemma FreeAgrees(pool: Pool, us: nat, out: set<int>, p: int)
    requires Agrees(pool, us, out)
    ensures p in out ==> Agrees(Free(pool, us, p), us, out - {p})
    ensures (forall b <- pool :: !Within(b, us, p)) ==> Free(pool, us, p) == pool
  {
    if p in out {
      var i, u := OutIsFound(pool, us, out, p);
      PutBackAgrees(pool, us, out, i, u);
    }
  }

  // For an address that is out, freeMem puts back its unit.
  lemma FreeIsPutBack(pool: Pool, us: nat, out: set<int>, p: int) returns (i: nat, u: nat)
    requires Agrees(pool, us, out) && p in out
    ensures i == Find(pool, us, p) && i < |pool| && PoolOk(pool, us) && UnitAt(pool[i], us, u) == p
    ensures Free(pool, us, p) == PutBack(pool, i, u)
  {
    i, u := OutIsFound(pool, us, out, p);
  }

  // No block leaves the chain but a wholly free one that is not its head.
  lemma FreeKeepsBlocks(pool: Pool, us: nat, out: set<int>, p: int, j: nat)
    requires Agrees(pool, us, out) && p in out && j < |pool|
    ensures HasBlock(Free(pool, us, p), pool[j]) <==> !(j == Find(pool, us, p) != 0 && |pool[j].chain| + 1 == pool[j].cap)
  {
    var i, u := FreeIsPutBack(pool, us, out, p);
    PutBackKeepsBlocks(pool, us, i, u, j);
  }

  ghost predicate HasBlock(pool: Pool, b: Block) {
    exists k :: 0 <= k < |pool| && pool[k].addr == b.addr && pool[k].cap == b.cap
  }

  lemma PutBackKeepsBlocks(pool: Pool, us: nat, i: nat, u: nat, j: nat)
    requires PoolOk(pool, us) && i < |pool| && j < |pool|
    ensures HasBlock(PutBack(pool, i, u), pool[j]) <==> !(j == i != 0 && |pool[j].chain| + 1 == pool[j].cap)
  {
    var q := PutBack(pool, i, u);
    var full := i != 0 && |pool[i].chain| + 1 == pool[i].cap;
    if j == i && full {
      forall k | 0 <= k < |q| ensures q[k].addr != pool[j].addr {
        var a := if k < i then k else k + 1;
        assert q[k] == pool[a] && Apart(pool[if a < i then a else i], pool[if a < i then i else a], us);
        UnitsDiffer(us, 0, pool[i].cap);
        UnitsDiffer(us, 0, pool[a].cap);
      }
    } else {
      var k := if full then (if j < i then j else j - 1) else if i == 0 || j > i then j else if j == i then 0 else j + 1;
      assert q[k].addr == pool[j].addr && q[k].cap == pool[j].cap;
    }
  }

  // The block of p is kept by freeMem: it is the head, or has more units out.
  predicate KeepsBlock(pool: Pool, us: nat, p: int) {
    var i := Find(pool, us, p);
    i == 0 || (i < |pool| && |pool[i].chain| + 1 != pool[i].cap)
  }

  // When freeMem keeps the block, the very next allocMem hands out the unit just given back, and the pool is as it was
  // but for the block, which is now the first.
  lemma FreeThenAlloc(pool: Pool, us: nat, out: set<int>, p: int, init: nat, grow: nat, grant: Option<int>)
    requires Agrees(pool, us, out) && p in out && 0 < init
    requires KeepsBlock(pool, us, p)
    ensures var i := Find(pool, us, p);
      i < |pool| && Alloc(Free(pool, us, p), us, init, grow, grant) == ([pool[i]] + pool[..i] + pool[i + 1..], Some(p))
  {
    var i, u := FreeIsPutBack(pool, us, out, p);
    PutBackThenAlloc(pool, us, i, u, init, grow, grant);
  }

  lemma PutBackThenAlloc(pool: Pool, us: nat, i: nat, u: nat, init: nat, grow: nat, grant: Option<int>)
    requires i < |pool| && (i == 0 || |pool[i].chain| + 1 != pool[i].cap) && 0 < init
    ensures Alloc(PutBack(pool, i, u), us, init, grow, grant) ==
            ([pool[i]] + pool[..i] + pool[i + 1..], Some(UnitAt(pool[i], us, u)))
  {
    var b, rest := GiveBack(pool[i], u), pool[..i] + pool[i + 1..];
    PutBackKept(pool, i, u);
    AllocHead(b, rest, us, init, grow, grant);
    assert b.chain[1..] == pool[i].chain;
    assert [pool[i]] + rest == [pool[i]] + pool[..i] + pool[i + 1..];
  }

  lemma PutBackKept(pool: Pool, i: nat, u: nat)
    requires i < |pool| && (i == 0 || |pool[i].chain| + 1 != pool[i].cap)
    ensures PutBack(pool, i, u) == [GiveBack(pool[i], u)] + (pool[..i] + pool[i + 1..])
  {
  }

  // A head with a free unit serves it.
  lemma AllocHead(b: Block, rest: Pool, us: nat, init: nat, grow: nat, grant: Option<int>)
    requires 0 < init && b.chain != []
    ensures Alloc([b] + rest, us, init, grow, grant) ==
            ([b.(chain := b.chain[1..])] + rest, Some(UnitAt(b, us, b.chain[0])))
  {
    var q := [b] + rest;
    assert FirstFree(q) == 0;
    assert q[0 := b.(chain := b.chain[1..])] == [b.(chain := b.chain[1..])] + rest;
  }

  // When it does not, the other blocks stay as they were.
  lemma FreeDropsBlock(pool: Pool, us: nat, out: set<int>, p: int)
    requires Agrees(pool, us, out) && p in out && !KeepsBlock(pool, us, p)
    ensures var i := Find(pool, us, p);
      0 < i < |pool| && |pool[i].chain| + 1 == pool[i].cap && Free(pool, us, p) == pool[..i] + pool[i + 1..]
  {
    var i, u := OutIsFound(pool, us, out, p);
  }

  // A request is served by the first unit of the first block that has one, and no other block changes.
  lemma AllocServes(pool: Pool, us: nat, init: nat, grow: nat, grant: Option<int>, i: nat)
    requires 0 < init && i < |pool| && pool[i].chain != [] && forall j :: 0 <= j < i ==> pool[j].chain == []
    ensures var b := pool[i];
      Alloc(pool, us, init, grow, grant) ==
      (pool[i := Block(b.addr, b.cap, b.chain[1..])], Some(b.addr + b.chain[0] * us))
  {
    assert FirstFree(pool) == i;
  }

  // Dropping a block that holds a unit breaks the agreement.
  lemma DropLoses(pool: Pool, us: nat, out: set<int>, i: nat)
    requires Agrees(pool, us, out) && i < |pool| && |pool[i].chain| != pool[i].cap
    ensures !Agrees(pool[..i] + pool[i + 1..], us, out)
  {
    var w := pool[..i] + pool[i + 1..];
    Capacity(pool[i]);
    var v :| v in Taken(pool[i]);
    var x := UnitAt(pool[i], us, v);
    if Agrees(w, us, out) {
      assert Held(w, us, x);
      var j, y: nat :| OutAt(w, us, x, j, y);
      var k := if j < i then j else j + 1;
      assert w[j] == pool[k];
      OneUnit(pool, us, k, y, i, v);
    }
  }

  lemma FrontDropped(b: Block, pool: Pool, i: nat)
    requires 0 < i < |pool|
    ensures var q := [b] + pool[..i] + pool[i + 1..];
      q[1] == pool[0] && [b] + pool[1..i] + pool[i + 1..] == q[..1] + q[2..]
  {
    var q := [b] + pool[..i] + pool[i + 1..];
    assert q[..1] == [b] && q[2..] == pool[1..i] + pool[i + 1..];
  }

  // As written, freeMem also loses the old head when it moves a block to the front.
  lemma AsWrittenDropsHead(pool: Pool, us: nat, p: int)
    requires 0 < us
    ensures var q := Free(pool, us, p);
      if Find(pool, us, p) != 0 && KeepsBlock(pool, us, p)
      then |q| > 1 && q[1] == pool[0] && FreeAsWritten(pool, us, p) == q[..1] + q[2..]
      else FreeAsWritten(pool, us, p) == q
  {
    var i := Find(pool, us, p);
    if i != 0 && KeepsBlock(pool, us, p) {
      FrontDropped(GiveBack(pool[i], (p - pool[i].addr) / us), pool, i);
    }
  }

  // As written, freeMem keeps every other outstanding unit reachable exactly when the block of the unit is
  // the head, or becomes wholly free, or the head it replaces has nothing handed out.
  lemma FreeAsWrittenKeeps(pool: Pool, us: nat, out: set<int>, p: int)
    requires Agrees(pool, us, out) && p in out
    ensures Agrees(FreeAsWritten(pool, us, p), us, out - {p})
      <==> Find(pool, us, p) == 0 || !KeepsBlock(pool, us, p) || |pool[0].chain| == pool[0].cap
  {
    var q := Free(pool, us, p);
    assert Agrees(q, us, out - {p}) by {
      FreeAgrees(pool, us, out, p);
    }
    AsWrittenDropsHead(pool, us, p);
    if Find(pool, us, p) != 0 && KeepsBlock(pool, us, p) {
      if |q[1].chain| == q[1].cap {
        DropAgrees(q, us, out - {p}, 1);
      } else {
        DropLoses(q, us, out - {p}, 1);
      }
    }
  }

  // Runs.

  datatype Op = Request(grant: Option<int>) | GiveUp(p: int)

  datatype State = State(pool: Pool, out: set<int>)

  function Step(s: State, op: Op, us: nat, init: nat, grow: nat): State
    requires 0 < us && 0 < init
  {
    match op
    case Request(grant) =>
      var (q, r) := Alloc(s.pool, us, init, grow, grant);
      State(q, if r.None? then s.out else s.out + {r.value})
    case GiveUp(p) => State(Free(s.pool, us, p), s.out - {p})
  }

  // A caller gives back what it was handed, or an address that lies in no block.
  ghost predicate Legal(s: State, op: Op, us: nat, init: nat, grow: nat) {
    match op
    case Request(grant) => Grantable(s.pool, us, init, grow, grant)
    case GiveUp(p) => p in s.out || forall b <- s.pool :: !Within(b, us, p)
  }

  ghost predicate LegalRun(s: State, ops: seq<Op>, us: nat, init: nat, grow: nat)
    requires 0 < us && 0 < init
    decreases |ops|
  {
    ops == [] || (Legal(s, ops[0], us, init, grow) && LegalRun(Step(s, ops[0], us, init, grow), ops[1..], us, init, grow))
  }

  function Run(s: State, ops: seq<Op>, us: nat, init: nat, grow: nat): State
    requires 0 < us && 0 < init
    decreases |ops|
  {
    if ops == [] then s else Run(Step(s, ops[0], us, init, grow), ops[1..], us, init, grow)
  }

  lemma StepAgrees(s: State, op: Op, us: nat, init: nat, grow: nat)
    requires 0 < us && 0 < init && Agrees(s.pool, us, s.out) && Legal(s, op, us, init, grow)
    ensures var t := Step(s, op, us, init, grow); Agrees(t.pool, us, t.out)
  {
    match op {
      case Request(grant) => AllocAgrees(s.pool, us, s.out, init, grow, grant);
      case GiveUp(p) =>
        FreeAgrees(s.pool, us, s.out, p);
        if p !in s.out {
          assert s.out - {p} == s.out;
        }
    }
  }

  // In every reachable state the free chains and the units handed out agree.
  lemma {:induction false} RunAgrees(s: State, ops: seq<Op>, us: nat, init: nat, grow: nat)
    requires 0 < us && 0 < init && Agrees(s.pool, us, s.out) && LegalRun(s, ops, us, init, grow)
    ensures var t := Run(s, ops, us, init, grow); Agrees(t.pool, us, t.out)
    decreases |ops|
  {
    if ops != [] {
      StepAgrees(s, ops[0], us, init, grow);
      RunAgrees(Step(s, ops[0], us, init, grow), ops[1..], us, init, grow);
    }
  }

  // A full block of one unit before a full block of two.
  function Loss(): Pool {
    [Block(100, 1, []), Block(0, 2, [])]
  }

  // The three requests that lead to it.
  function LossOps(): seq<Op> {
    [Request(Some(0)), Request(None), Request(Some(100))]
  }

  lemma LossStepOne()
    ensures Step(State([], {}), Request(Some(0)), 2, 2, 1) == State([Block(0, 2, [1])], {0})
  {
    assert NewChain(2) == [1];
    var pool: Pool := [];
    assert [Block(0, 2, [1])] + pool == [Block(0, 2, [1])];
  }

  lemma LossStepTwo()
    ensures Step(State([Block(0, 2, [1])], {0}), Request(None), 2, 2, 1) == State([Block(0, 2, [])], {0, 2})
  {
    AllocServes([Block(0, 2, [1])], 2, 2, 1, None, 0);
    assert [1][1..] == [];
  }

  lemma LossStepThree()
    ensures Step(State([Block(0, 2, [])], {0, 2}), Request(Some(100)), 2, 2, 1) == State(Loss(), {0, 2, 100})
  {
    assert NewChain(1) == [];
    assert FirstFree([Block(0, 2, [])]) == 1;
  }

  lemma RunOfThree(s: State, t: State, u: State, v: State, a: Op, b: Op, c: Op)
    requires Legal(s, a, 2, 2, 1) && Step(s, a, 2, 2, 1) == t && Legal(t, b, 2, 2, 1) && Step(t, b, 2, 2, 1) == u
    requires Legal(u, c, 2, 2, 1) && Step(u, c, 2, 2, 1) == v
    ensures LegalRun(s, [a, b, c], 2, 2, 1) && Run(s, [a, b, c], 2, 2, 1) == v
  {
    assert LegalRun(v, [], 2, 2, 1) && Run(v, [], 2, 2, 1) == v;
    assert [c][1..] == [] && [b, c][1..] == [c] && [a, b, c][1..] == [b, c];
    assert LegalRun(u, [c], 2, 2, 1) && Run(u, [c], 2, 2, 1) == v;
    assert LegalRun(t, [b, c], 2, 2, 1) && Run(t, [b, c], 2, 2, 1) == v;
  }

  lemma LossLegal()
    ensures Legal(State([], {}), Request(Some(0)), 2, 2, 1)
    ensures Legal(State([Block(0, 2, [1])], {0}), Request(None), 2, 2, 1)
    ensures Legal(State([Block(0, 2, [])], {0, 2}), Request(Some(100)), 2, 2, 1)
  {
  }

  // They are legal.
  lemma LossReached()
    ensures LegalRun(State([], {}), LossOps(), 2, 2, 1)
    ensures Run(State([], {}), LossOps(), 2, 2, 1) == State(Loss(), {0, 2, 100})
  {
    LossStepOne();
    LossStepTwo();
    LossStepThree();
    LossLegal();
    var s, t := State([], {}), State([Block(0, 2, [1])], {0});
    var u, v := State([Block(0, 2, [])], {0, 2}), State(Loss(), {0, 2, 100});
    RunOfThree(s, t, u, v, Request(Some(0)), Request(None), Request(Some(100)));
  }

  // So what they leave agrees with the units handed out.
  lemma LossAgrees()
    ensures Agrees(Loss(), 2, {0, 2, 100})
  {
    LossReached();
    RunAgrees(State([], {}), LossOps(), 2, 2, 1);
  }

  lemma LossFreed()
    ensures Find(Loss(), 2, 0) == 1 && KeepsBlock(Loss(), 2, 0)
    ensures FreeAsWritten(Loss(), 2, 0) == [Block(0, 2, [0])]
  {
    var pool := Loss();
    assert !Within(pool[0], 2, 0) && Within(pool[1], 2, 0);
    assert Find(pool[1..], 2, 0) == 0;
    assert GiveBack(pool[1], 0) == Block(0, 2, [0]);
    assert [Block(0, 2, [0])] + pool[1..1] + pool[2..] == [Block(0, 2, [0])];
  }

  // Giving back unit 0 of the second block as written loses the first, which still holds a unit.
  lemma FreeAsWrittenLoses()
    ensures FreeAsWritten(Loss(), 2, 0) == [Block(0, 2, [0])]
    ensures !Agrees(FreeAsWritten(Loss(), 2, 0), 2, {0, 2, 100} - {0})
  {
    LossAgrees();
    LossFreed();
    FreeAsWrittenKeeps(Loss(), 2, {0, 2, 100}, 0);
  }
}
