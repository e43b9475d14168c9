/** The timer min-heap of mytimer/min_heap.c: an array of timers in which every timer records its own
    slot, so that it can be erased from the middle.  Sifting moves a hole instead of swapping. */
module TimerHeap {
  import opened Guard
  import Basics

  datatype TimeVal = TimeVal(sec: int, usec: int)

  // evutil_timercmp with `>`
  predicate Greater(a: TimeVal, b: TimeVal) {
    if a.sec == b.sec then a.usec > b.usec else a.sec > b.sec
  }

  // A time in microseconds, whatever the split.
  function Micros(t: TimeVal): int {
    1000000 * t.sec + t.usec
  }

  // The comparison is that of the times.
  lemma GreaterIsLater(a: TimeVal, b: TimeVal)
    requires Normal(a) && Normal(b)
    ensures Greater(a, b) <==> Micros(a) > Micros(b)
  {
  }

  predicate Normal(t: TimeVal) {
    0 <= t.usec < 1000000
  }

  class Timer {
    var timeout: TimeVal
    var minHeapIdx: int  // -1 when the timer is in no heap

    constructor (timeout: TimeVal)
      ensures this.timeout == timeout && minHeapIdx == -1
    {
      this.timeout := timeout;
      minHeapIdx := -1;
    }
  }

  function Parent(i: int): int
  {
    (i - 1) / 2
  }

  ghost predicate Le(a: Timer, b: Timer)
    reads a`timeout, b`timeout
  {
    !Greater(a.timeout, b.timeout)
  }

  ghost predicate HeapOrdered(s: seq<Timer>)
    reads s`timeout
  {
    forall i {:trigger Parent(i)} :: 1 <= i < |s| ==> Le(s[Parent(i)], s[i])
  }

  // Heap order everywhere except between `hole` and its parent.
  ghost predicate OrderedAbove(s: seq<Timer>, hole: nat)
    reads s`timeout
  {
    && (forall i {:trigger Parent(i)} :: 1 <= i < |s| && i != hole ==> Le(s[Parent(i)], s[i]))
    && (forall i {:trigger Parent(i)} :: 1 <= i < |s| && Parent(i) == hole && hole != 0 ==> Le(s[Parent(hole)], s[i]))
  }

  // Heap order everywhere except between `hole` and its neighbours.
  ghost predicate OrderedAround(s: seq<Timer>, hole: nat)
    reads s`timeout
  {
    && (forall i {:trigger Parent(i)} :: 1 <= i < |s| && i != hole && Parent(i) != hole ==> Le(s[Parent(i)], s[i]))
    && (forall i {:trigger Parent(i)} :: 1 <= i < |s| && Parent(i) == hole && hole != 0 ==> Le(s[Parent(hole)], s[i]))
  }

  // The timer in the hole stands nowhere else.
  ghost predicate Apart(s: seq<Timer>, hole: nat)
    requires hole < |s|
  {
    forall i :: 0 <= i < |s| && i != hole ==> s[i] != s[hole]
  }

  // The array holds `s` in every slot but `hole`, every timer outside the hole knows its slot, and the
  // timers of `s` are exactly the set `S`.
  ghost predicate Holds(p: array<Timer?>, s: seq<Timer>, hole: int, S: set<Timer>)
    reads p, S`minHeapIdx
  {
    && |s| <= p.Length
    && (forall i :: 0 <= i < |s| ==> s[i] in S)
    && (forall i :: 0 <= i < |s| && i != hole ==> p[i] == s[i] && s[i].minHeapIdx == i)
    && (forall t {:trigger Slot(t)} :: t in S ==>
          (0 <= hole < |s| && t == s[hole]) || (0 <= Slot(t) < |s| && s[Slot(t)] == t))
  }

  function Slot(t: Timer): int
    reads t`minHeapIdx
  {
    t.minHeapIdx
  }

  function Swap<T>(s: seq<T>, i: nat, j: nat): seq<T>
    requires i < |s| && j < |s|
  {
    s[i := s[j]][j := s[i]]
  }

  function Max(a: nat, b: nat): nat {
    if a < b then b else a
  }

  // floor(log2(n)), taken as 0 for n == 0
  function Log2(n: nat): nat {
    if n < 2 then 0 else 1 + Log2(n / 2)
  }

  function Pow2(k: nat): nat {
    if k == 0 then 1 else 2 * Pow2(k - 1)
  }

  lemma {:induction false} Log2Is(n: nat)
    requires n > 0
    ensures Pow2(Log2(n)) <= n < 2 * Pow2(Log2(n))
  {
    if n >= 2 {
      Log2Is(n / 2);
    }
  }

  lemma {:induction false} Log2Monotone(m: nat, n: nat)
    requires m <= n
    ensures Log2(m) <= Log2(n)
  {
    if 2 <= m {
      Log2Monotone(m / 2, n / 2);
    }
  }

  lemma Log2Child(i: nat, c: nat)
    requires 1 <= c && Parent(c) == i
    ensures Log2(c + 1) == 1 + Log2(i + 1)
  {
  }

  lemma {:induction false} RootIsLeast(s: seq<Timer>, i: nat)
    requires HeapOrdered(s) && i < |s|
    ensures Le(s[0], s[i])
  {
    if i > 0 {
      RootIsLeast(s, Parent(i));
    }
  }

  lemma AppendedOrder(s: seq<Timer>, e: Timer)
    requires HeapOrdered(s)
    ensures OrderedAbove(s + [e], |s|)
  {
    var v := s + [e];
    forall i {:trigger Parent(i)} | 1 <= i < |v| && i != |s| ensures Le(v[Parent(i)], v[i]) {
    }
  }

  // The content a removal starts from: the last timer, in the vacated slot `k`.
  function Vacated(s: seq<Timer>, k: nat): seq<Timer>
    requires k < |s|
  {
    if k == |s| - 1 then s else s[..|s| - 1][k := s[|s| - 1]]
  }

  lemma VacatedOrder(s: seq<Timer>, k: nat)
    requires HeapOrdered(s) && k < |s| - 1
    ensures OrderedAround(Vacated(s, k), k)
  {
    var v := Vacated(s, k);
    forall i {:trigger Parent(i)} | 1 <= i < |v| && Parent(i) == k && k != 0 ensures Le(v[Parent(k)], v[i]) {
      assert Le(s[Parent(k)], s[k]) && Le(s[k], s[i]);
    }
  }

  lemma VacatedHolds(p: array<Timer?>, s: seq<Timer>, k: nat, S: set<Timer>)
    requires Holds(p, s, -1, S) && k < |s| - 1
    ensures Holds(p, Vacated(s, k), k, S - {s[k]}) && Apart(Vacated(s, k), k) && p[|s| - 1] == Vacated(s, k)[k]
  {
  }

  lemma LastHolds(p: array<Timer?>, s: seq<Timer>, S: set<Timer>)
    requires Holds(p, s, -1, S) && s != []
    ensures Holds(p, s, |s| - 1, S) && Apart(s, |s| - 1) && p[|s| - 1] == s[|s| - 1]
  {
  }

  // The heap of the first n slots: all of `w`, or all but its last timer.
  lemma ShrunkHolds(p: array<Timer?>, w: seq<Timer>, n: nat, S: set<Timer>, e: Timer)
    requires Holds(p, w, -1, S) && HeapOrdered(w)
    requires if e in S then |w| == n + 1 && w[n] == e else |w| == n
    ensures Holds(p, w[..n], -1, S - {e}) && HeapOrdered(w[..n])
  {
  }

  lemma BooksAfterPush(members: set<Timer>, e: Timer, removed: multiset<Timer>, pushed: multiset<Timer>)
    requires multiset(members) + removed == pushed && e !in members
    ensures multiset(members + {e}) + removed == pushed + multiset{e}
  {
    assert multiset(members + {e}) == multiset(members) + multiset{e};
  }

  lemma BooksAfterRemoval(members: set<Timer>, e: Timer, removed: multiset<Timer>, pushed: multiset<Timer>)
    requires multiset(members) + removed == pushed && e in members
    ensures multiset(members - {e}) + (removed + multiset{e}) == pushed
  {
    assert multiset(members) == multiset(members - {e}) + multiset{e};
  }

  // One turn of the up pass: the hole moves to its parent.
  lemma UpStep(s: seq<Timer>, hole: nat)
    requires 0 < hole < |s| && OrderedAbove(s, hole) && Greater(s[Parent(hole)].timeout, s[hole].timeout)
    ensures OrderedAbove(Swap(s, hole, Parent(hole)), Parent(hole))
  {
    var up := Parent(hole);
    var w := Swap(s, hole, up);
    forall i | 1 <= i < |w| && i != up ensures Le(w[Parent(i)], w[i]) {
      if Parent(i) == up && i != hole {
        assert Le(s[up], s[i]);
      }
    }
    forall i | 1 <= i < |w| && Parent(i) == up && up != 0 ensures Le(w[Parent(up)], w[i]) {
      assert Le(s[Parent(up)], s[up]);
      assert Le(s[up], s[i]) || i == hole;
    }
  }

  ghost predicate LeastChild(s: seq<Timer>, hole: nat, c: nat)
    reads s`timeout
  {
    && hole < |s| && c < |s| && 1 <= c && Parent(c) == hole
    && forall i {:trigger Parent(i)} :: 1 <= i < |s| && Parent(i) == hole ==> Le(s[c], s[i])
  }

  // One turn of the down pass: the hole moves to its least child.
  lemma DownStep(s: seq<Timer>, hole: nat, c: nat)
    requires OrderedAround(s, hole) && LeastChild(s, hole, c) && Greater(s[hole].timeout, s[c].timeout)
    ensures OrderedAround(Swap(s, hole, c), c) && Le(Swap(s, hole, c)[hole], s[hole])
  {
    var w := Swap(s, hole, c);
    forall i | 1 <= i < |w| && i != c && Parent(i) != c ensures Le(w[Parent(i)], w[i]) {
      if Parent(i) == hole {
        assert Le(s[c], s[i]);
      } else if i == hole {
        assert Le(s[Parent(hole)], s[c]);
      }
    }
    forall i | 1 <= i < |w| && Parent(i) == c ensures Le(w[Parent(c)], w[i]) {
      assert Le(s[c], s[i]);
    }
  }

  // The two comparisons of the down pass choose a least child.
  lemma ChosenChild(s: seq<Timer>, hole: nat, c: nat)
    requires 2 * (hole + 1) <= |s|
    requires c == 2 * (hole + 1) -
                  if 2 * (hole + 1) == |s| || Greater(s[2 * (hole + 1)].timeout, s[2 * (hole + 1) - 1].timeout) then 1 else 0
    ensures LeastChild(s, hole, c)
  {
  }

  // When no child of the hole is less than its timer, only the pair above the hole may be out of order.
  ghost predicate Settled(s: seq<Timer>, hole: nat)
    requires hole < |s|
    reads s`timeout
  {
    forall i {:trigger Parent(i)} :: 1 <= i < |s| && Parent(i) == hole ==> Le(s[hole], s[i])
  }

  lemma DownDone(s: seq<Timer>, hole: nat)
    requires hole < |s| && OrderedAround(s, hole) && Settled(s, hole)
    ensures OrderedAbove(s, hole)
  {
  }

  lemma SettledLeaf(s: seq<Timer>, hole: nat)
    requires hole < |s| < 2 * (hole + 1)
    ensures Settled(s, hole)
  {
  }

  lemma SettledByLeast(s: seq<Timer>, hole: nat, c: nat)
    requires LeastChild(s, hole, c) && Le(s[hole], s[c])
    ensures Settled(s, hole)
  {
  }

  ghost predicate SortedDistinct(s: seq<Timer>)
    reads s`timeout
  {
    forall i, j :: 0 <= i < j < |s| ==> Le(s[i], s[j]) && s[i] != s[j]
  }

  function Reversed<T>(s: seq<T>): seq<T> {
    if s == [] then [] else Reversed(s[1..]) + [s[0]]
  }

  lemma ReversedFront<T>(x: T, s: seq<T>)
    ensures Reversed([x] + s) == Reversed(s) + [x]
  {
    assert ([x] + s)[1..] == s;
  }

  lemma {:induction false} ReversedHolds<T>(s: seq<T>)
    ensures multiset(Reversed(s)) == multiset(s)
  {
    if s != [] {
      ReversedHolds(s[1..]);
      assert s == [s[0]] + s[1..];
    }
  }

  // `out` holds, in order of their timeouts, the timers of `before` that are not among those `now`, and none
  // of them is later than one of those.
  ghost predicate HandedOutNow(before: set<Timer>, now: set<Timer>, out: seq<Timer>)
    reads now`timeout, out`timeout
  {
    && now <= before && SortedDistinct(out)
    && (forall t <- out :: t in before && t !in now) && (forall t <- before :: t in now || t in out)
    && forall s <- out, t <- now :: Le(s, t)
  }

  ghost predicate HandedOut(before: set<Timer>, now: set<Timer>, out: seq<Timer>)
    reads now`timeout, out`timeout
  {
    forall z {:trigger Look(z)} :: Look(z) ==> HandedOutNow(before, now, out)
  }

  lemma NoneHandedOut(before: set<Timer>)
    ensures HandedOut(before, before, [])
  {
  }

  lemma HandedOutMore(before: set<Timer>, now: set<Timer>, out: seq<Timer>, e: Timer)
    requires HandedOut(before, now, out) && e in now && forall t <- now :: Le(e, t)
    ensures HandedOut(before, now - {e}, out + [e])
    ensures forall t <- out + [e] :: t !in now - {e}
  {
    assert Look(0);
  }

  lemma DrainedOut(before: set<Timer>, out: seq<Timer>)
    requires HandedOut(before, {}, out)
    ensures SortedDistinct(out) && forall t :: t in out <==> t in before
  {
    assert Look(0);
  }

  // The time of the timer has come.
  ghost predicate Due(t: Timer)
    reads t`timeout
  {
    !Greater(t.timeout, TimeVal(0, 0))
  }

  // util_timersub
  function Minus(a: TimeVal, b: TimeVal): TimeVal {
    if a.usec < b.usec then TimeVal(a.sec - b.sec - 1, a.usec - b.usec + 1000000)
    else TimeVal(a.sec - b.sec, a.usec - b.usec)
  }

  lemma MinusKeepsOrder(a: TimeVal, b: TimeVal, delta: TimeVal)
    requires Normal(a) && Normal(b) && Normal(delta)
    ensures Greater(Minus(a, delta), Minus(b, delta)) <==> Greater(a, b)
    ensures Normal(Minus(a, delta)) && Micros(Minus(a, delta)) == Micros(a) - Micros(delta)
  {
  }

  class MinHeap {
    var p: array<Timer?>
    var n: nat
    var a: nat

    ghost var elems: seq<Timer>          // the timers in slots 0..n
    ghost var members: set<Timer>        // the same timers as a set
    ghost var pushed: multiset<Timer>    // every timer ever pushed
    ghost var removed: multiset<Timer>   // every timer ever popped or erased
    ghost var pushes: nat                // how many pushes succeeded
    ghost var peak: nat                  // the largest n so far
    ghost var copied: nat                // slots copied by all growth so far

    ghost predicate Repr()
      reads this, p, members`minHeapIdx, elems`timeout
    {
      a == p.Length && Holds(p, elems, -1, members) && HeapOrdered(elems)
    }

    ghost predicate Valid()
      reads this, p, members`minHeapIdx, elems`timeout
    {
      n == |elems| && n <= a && forall z {:trigger Look(z)} :: Look(z) ==> Repr()
    }

    // The books of a run in which only pushes raise the capacity: nothing is lost or made up, the capacity
    // is at most max(8, 2 * peak), and growth has copied fewer slots than twice the pushes.
    ghost predicate Booked()
      reads this
    {
      BookedAt(members, n)
    }

    // The books when `ms` are the members and `k` is their number.
    ghost predicate BookedAt(ms: set<Timer>, k: nat)
      reads this
    {
      && multiset(ms) + removed == pushed
      && k <= peak <= pushes
      && (a == 0 || a == 8 || 8 < a <= 2 * peak)
      && copied == (if a == 0 then 0 else a - 8)
    }

    // A timer that has left the heap, and not come back, knows that it is in none.
    ghost predicate Retired()
      reads this, removed`minHeapIdx
    {
      forall t <- removed :: t in members || t.minHeapIdx == -1
    }

    constructor ()
      ensures Valid() && Booked() && Retired() && fresh(p)
      ensures members == {} && pushed == removed == multiset{} && pushes == peak == copied == a == 0
    {
      p := new Timer?[0];
      n, a := 0, 0;
      elems, members, pushed, removed, pushes, peak, copied := [], {}, multiset{}, multiset{}, 0, 0, 0;
    }

    lemma EmptyWhen()
      requires Valid()
      ensures n == 0 <==> members == {}
    {
      assert Look(0);
      if members != {} {
        var t :| t in members;
        assert 0 <= Slot(t) < n;
      }
      if n != 0 {
        assert elems[0] in members;
      }
    }

    // A member stands in the slot it records.
    lemma SlotOf(e: Timer)
      requires Valid() && e in members
      ensures 0 <= Slot(e) < n && elems[Slot(e)] == e
    {
      assert Look(0);
    }

    // No timer stands twice, so the slots in use are as many as the timers.
    lemma SizeIs()
      requires Valid()
      ensures n == |members|
    {
      assert Look(0);
      Basics.DistinctCount(elems);
      forall t | t in members ensures t in elems {
        SlotOf(t);
      }
      assert Basics.Elements(elems) == members;
    }

    method Size() returns (size: nat)
      requires Valid()
      ensures size == |members|
    {
      SizeIs();
      size := n;
    }

    method Top() returns (t: Timer?)
      requires Valid()
      ensures t == null <==> members == {}
      ensures t != null ==> n > 0 && t == elems[0] && t in members && forall e <- members :: Le(t, e)
    {
      assert Look(0);
      t := if n != 0 then p[0] else null;
      EmptyWhen();
      if n != 0 {
        forall e <- members ensures Le(elems[0], e) {
          RootIsLeast(elems, Slot(e));
        }
      }
    }

    // `granted` is the answer of realloc.
    method Reserve(n: nat, granted: bool) returns (r: int)
      requires Valid()
      modifies `p, `a, `copied
      ensures Valid() && (p == old(p) || fresh(p))
      ensures r == if old(a) < n && !granted then -1 else 0
      ensures a == if r == -1 || n <= old(a) then old(a) else Max(n, if old(a) == 0 then 8 else 2 * old(a))
      ensures old(Booked()) && n <= this.n + 1 ==> Booked()
      ensures old(Retired()) ==> Retired()
    {
      if a < n {
        var b := if a != 0 then a * 2 else 8;
        if b < n {
          b := n;
        }
        if !granted {
          return -1;
        }
        Realloc(b);
      }
      return 0;
    }

    method Realloc(b: nat)
      requires Valid() && a < b
      modifies `p, `a, `copied
      ensures Valid() && fresh(p) && a == b && copied == old(copied) + old(a)
    {
      assert Look(0);
      var q := new Timer?[b];
      forall i | 0 <= i < a {
        q[i] := p[i];
      }
      copied := copied + a;
      p := q;
      a := b;
    }

    // The timer in slot `from` moves into the hole; `s` is the content with the sifted timer in the hole,
    // `r` the content after the move.
    method MoveIntoHole(hole: nat, from: nat, ghost s: seq<Timer>, ghost S: set<Timer>) returns (ghost r: seq<Timer>)
      requires hole < |s| && from < |s| && hole != from && Holds(p, s, hole, S) && Apart(s, hole)
      modifies p, {s[from]}`minHeapIdx
      ensures r == Swap(s, hole, from)
      ensures Holds(p, r, from, S) && Apart(r, from)
      ensures hole != 0 && from == Parent(hole) && OrderedAbove(s, hole) && Greater(s[from].timeout, s[hole].timeout)
        ==> OrderedAbove(r, from)
      ensures LeastChild(s, hole, from) && OrderedAround(s, hole) && Greater(s[hole].timeout, s[from].timeout)
        ==> OrderedAround(r, from) && Le(r[hole], r[from])
    {
      p[hole] := p[from];
      p[hole].minHeapIdx := hole;
      r := Swap(s, hole, from);
      if hole != 0 && from == Parent(hole) && OrderedAbove(s, hole) && Greater(s[from].timeout, s[hole].timeout) {
        UpStep(s, hole);
      }
      if LeastChild(s, hole, from) && OrderedAround(s, hole) && Greater(s[hole].timeout, s[from].timeout) {
        DownStep(s, hole, from);
      }
    }

    // `v` is the heap's content with `e` put in the hole.
    method ShiftUp(hole: nat, e: Timer, ghost v: seq<Timer>, ghost S: set<Timer>)
      returns (ghost w: seq<Timer>, ghost moves: nat)
      requires hole < |v| && v[hole] == e && Holds(p, v, hole, S) && OrderedAbove(v, hole) && Apart(v, hole)
      modifies p, S`minHeapIdx
      ensures |w| == |v| && Holds(p, w, -1, S) && HeapOrdered(w)
      ensures moves <= Log2(hole + 1)
      ensures hole == 0 || Le(v[Parent(hole)], e) ==> w == v && moves == 0
    {
      var h := hole;
      w, moves := v, 0;
      var parent := Parent(h);
      while h != 0 && Greater(p[parent].timeout, e.timeout)
        invariant 0 <= h < |w| == |v| && w[h] == e && parent == Parent(h)
        invariant Holds(p, w, h, S) && OrderedAbove(w, h) && Apart(w, h)
        invariant moves + Log2(h + 1) <= Log2(hole + 1)
        invariant moves == 0 ==> h == hole && w == v
        invariant hole == 0 || Le(v[Parent(hole)], e) ==> moves == 0
      {
        Log2Child(parent, h);
        w := MoveIntoHole(h, parent, w, S);
        moves := moves + 1;
        h := parent;
        parent := Parent(h);
      }
      PutIntoHole(h, e, w, S);
    }

    method PutIntoHole(hole: nat, e: Timer, ghost s: seq<Timer>, ghost S: set<Timer>)
      requires hole < |s| && s[hole] == e && Holds(p, s, hole, S) && OrderedAbove(s, hole) && Apart(s, hole)
      requires hole == 0 || Le(s[Parent(hole)], e)
      modifies p, {e}`minHeapIdx
      ensures Holds(p, s, -1, S) && HeapOrdered(s)
    {
      p[hole] := e;
      e.minHeapIdx := hole;
    }

    // The loop of min_heap_shift_down_: the hole sinks while some child is less than `e`.
    method DownPass(hole: nat, e: Timer, ghost v: seq<Timer>, ghost S: set<Timer>)
      returns (h: nat, ghost w: seq<Timer>, ghost moves: nat)
      requires hole < |v| == n && v[hole] == e && Holds(p, v, hole, S) && Apart(v, hole) && OrderedAround(v, hole)
      modifies p, S`minHeapIdx
      ensures h < |w| == |v| && w[h] == e && Holds(p, w, h, S) && Apart(w, h)
      ensures OrderedAround(w, h) && Settled(w, h)
      ensures moves + Log2(hole + 1) <= Log2(h + 1)
      ensures if moves == 0 then h == hole && w == v else h != 0 && Le(w[Parent(h)], e)
    {
      h, w, moves := hole, v, 0;
      var minChild := 2 * (h + 1);
      while minChild <= n
        invariant 0 <= h < |w| == |v| && w[h] == e && minChild == 2 * (h + 1)
        invariant Holds(p, w, h, S) && OrderedAround(w, h) && Apart(w, h)
        invariant moves + Log2(hole + 1) <= Log2(h + 1)
        invariant if moves == 0 then h == hole && w == v else h != 0 && Le(w[Parent(h)], e)
        decreases n - h
      {
        minChild := minChild - if minChild == n || Greater(p[minChild].timeout, p[minChild - 1].timeout) then 1 else 0;
        ChosenChild(w, h, minChild);
        if !Greater(e.timeout, p[minChild].timeout) {
          SettledByLeast(w, h, minChild);
          return;
        }
        Log2Child(h, minChild);
        w := MoveIntoHole(h, minChild, w, S);
        moves := moves + 1;
        h := minChild;
        minChild := 2 * (h + 1);
      }
      SettledLeaf(w, h);
    }

    // Sift `e` from the hole: the down pass, then always an up pass.  When the last slot is being erased
    // the hole is slot `n` itself, one past the shrunken heap.
    method ShiftDown(hole: nat, e: Timer, ghost v: seq<Timer>, ghost S: set<Timer>)
      returns (ghost w: seq<Timer>, ghost down: nat, ghost up: nat)
      requires hole < |v| && v[hole] == e && Holds(p, v, hole, S) && Apart(v, hole)
      requires (|v| == n && OrderedAround(v, hole)) || (|v| == n + 1 && hole == n && HeapOrdered(v))
      modifies p, S`minHeapIdx
      ensures |w| == |v| && Holds(p, w, -1, S) && HeapOrdered(w)
      ensures hole == n ==> w == v
      ensures down == 0 || up == 0
      ensures down + up <= Log2(n)
    {
      var h := hole;
      w, down := v, 0;
      if 2 * (hole + 1) <= n {
        h, w, down := DownPass(hole, e, v, S);
      }
      DownDone(w, h);
      if h < n {
        Log2Monotone(h + 1, n);
      }
      w, up := ShiftUp(h, e, w, S);
    }

    method Push(e: Timer, granted: bool) returns (r: int)
      requires Valid() && e !in members
      modifies this, p, (members + {e})`minHeapIdx
      ensures Valid() && (p == old(p) || fresh(p)) && (old(Booked()) ==> Booked()) && (old(Retired()) ==> Retired())
      ensures r == if old(n) == old(a) && !granted then -1 else 0
      ensures r == -1 ==> members == old(members) && pushed == old(pushed) && e.minHeapIdx == old(e.minHeapIdx)
      ensures r == 0 ==> members == old(members) + {e} && pushed == old(pushed) + multiset{e}
      ensures removed == old(removed) && pushes == old(pushes) + if r == 0 then 1 else 0
    {
      r := Reserve(n + 1, granted);
      if r != 0 {
        return -1;
      }
      Enter(e);
      return 0;
    }

    method Enter(e: Timer)
      requires Valid() && e !in members && n < a
      modifies this, p, (members + {e})`minHeapIdx
      ensures Valid() && p == old(p) && (old(Booked()) ==> Booked()) && (old(Retired()) ==> Retired())
      ensures members == old(members) + {e} && pushed == old(pushed) + multiset{e}
      ensures removed == old(removed) && pushes == old(pushes) + 1
    {
      Place(e);
      EnterPush(old(members), e);
    }

    // Book-keeping of the ghost history.
    ghost method EnterPush(before: set<Timer>, e: Timer)
      requires e !in before && members == before + {e} && n > 0
      modifies `pushed, `pushes, `peak
      ensures pushed == old(pushed) + multiset{e} && pushes == old(pushes) + 1
      ensures old(BookedAt(before, n - 1)) ==> Booked()
    {
      if multiset(before) + removed == pushed {
        BooksAfterPush(before, e, removed, pushed);
      }
      pushed, pushes, peak := pushed + multiset{e}, pushes + 1, Max(n, peak);
    }

    // The arrangement `w` becomes the content.
    ghost method Adopt(w: seq<Timer>, S: set<Timer>)
      requires n == |w| && n <= a == p.Length && Holds(p, w, -1, S) && HeapOrdered(w)
      modifies `elems, `members
      ensures Valid() && elems == w && members == S
    {
      elems, members := w, S;
    }

    // The second half of min_heap_push: a slot is known to be free.
    method Place(e: Timer)
      requires Valid() && e !in members && n < a
      modifies `n, `elems, `members, p, (members + {e})`minHeapIdx
      ensures Valid() && n == old(n) + 1 && members == old(members) + {e}
    {
      assert Look(0);
      AppendedOrder(elems, e);
      n := n + 1;
      ghost var w, moves := ShiftUp(n - 1, e, elems + [e], members + {e});
      Adopt(w, members + {e});
    }

    // min_heap_shift_down_(s, k, s->p[--s->n]), the removal that pop and erase share.
    method RemoveSlot(k: nat)
      requires Valid() && k < n
      modifies `n, `elems, `members, p, members`minHeapIdx
      ensures Valid() && n == old(n) - 1
      ensures members == old(members) - {old(elems)[k]}
    {
      assert Look(0);
      n := n - 1;
      ghost var v, e := Vacated(elems, k), elems[k];
      ghost var S := if k == n then members else members - {e};
      if k < n {
        VacatedOrder(elems, k);
        VacatedHolds(p, elems, k, members);
      } else {
        LastHolds(p, elems, members);
      }
      ghost var w, down, up := ShiftDown(k, p[n], v, S);
      ShrunkHolds(p, w, n, S, e);
      Adopt(w[..n], S - {e});
    }

    ghost method EnterRemoval(before: set<Timer>, e: Timer)
      requires e in before && members == before - {e}
      modifies `removed
      ensures removed == old(removed) + multiset{e}
      ensures old(BookedAt(before, n + 1)) ==> Booked()
    {
      if multiset(before) + removed == pushed {
        BooksAfterRemoval(before, e, removed, pushed);
      }
      removed := removed + multiset{e};
    }

    // What pop and erase do with the timer of a slot.
    method Leave(k: nat, e: Timer)
      requires Valid() && k < n && e in members && elems[k] == e
      modifies this, p, members`minHeapIdx
      ensures Valid() && p == old(p) && (old(Booked()) ==> Booked()) && (old(Retired()) ==> Retired())
      ensures e.minHeapIdx == -1 && members == old(members) - {e}
      ensures removed == old(removed) + multiset{e} && pushed == old(pushed)
    {
      RemoveSlot(k);
      e.minHeapIdx := -1;
      EnterRemoval(old(members), e);
    }

    method Pop() returns (e: Timer?)
      requires Valid()
      modifies this, p, members`minHeapIdx
      ensures Valid() && p == old(p) && (old(Booked()) ==> Booked()) && (old(Retired()) ==> Retired())
      ensures e == null <==> old(members) == {}
      ensures e == null ==> members == old(members) && removed == old(removed)
      ensures e != null ==> e in old(members) && forall t <- old(members) :: Le(e, t)
      ensures e != null ==> e.minHeapIdx == -1 && members == old(members) - {e} && removed == old(removed) + multiset{e}
      ensures pushed == old(pushed)
    {
      e := Top();
      EmptyWhen();
      if n != 0 {
        Leave(0, e);
      }
    }

    // The caller erases only timers of this heap, or timers that are in no heap at all.
    method Erase(e: Timer) returns (r: int)
      requires Valid() && (e.minHeapIdx != -1 ==> e in members)
      modifies this, p, members`minHeapIdx
      ensures Valid() && p == old(p) && (old(Booked()) ==> Booked()) && (old(Retired()) ==> Retired())
      ensures r == if e in old(members) then 0 else -1
      ensures e.minHeapIdx == -1 && members == old(members) - {e}
      ensures removed == old(removed) + if r == 0 then multiset{e} else multiset{}
      ensures pushed == old(pushed)
    {
      if e in members {
        SlotOf(e);
      }
      if e.minHeapIdx != -1 {
        Leave(e.minHeapIdx, e);
        return 0;
      }
      return -1;
    }

    // Repeated popping hands out every timer, once, in order of its timeout.
    method Drain() returns (out: seq<Timer>)
      requires Valid()
      modifies this, p, members`minHeapIdx
      ensures Valid() && members == {} && p == old(p) && (old(Booked()) ==> Booked()) && (old(Retired()) ==> Retired())
      ensures SortedDistinct(out) && forall t :: t in out <==> t in old(members)
      ensures forall t <- out :: t.minHeapIdx == -1
      ensures pushed == old(pushed) && removed == old(removed) + multiset(out)
    {
      out := [];
      EmptyWhen();
      NoneHandedOut(members);
      while n != 0
        invariant Valid() && p == old(p) && (old(Booked()) ==> Booked()) && (old(Retired()) ==> Retired())
        invariant HandedOut(old(members), members, out) && (n == 0 <==> members == {})
        invariant forall t <- out :: t !in members && t.minHeapIdx == -1
        invariant pushed == old(pushed) && removed == old(removed) + multiset(out)
        decreases members
      {
        ghost var was := members;
        var e := Pop();
        EmptyWhen();
        HandedOutMore(old(members), was, out, e);
        out := out + [e];
      }
      DrainedOut(old(members), out);
    }

    // The timers of `out` were due and have left the heap, in order.
    ghost predicate Expired(before: set<Timer>, out: seq<Timer>)
      reads this, members`timeout, out`timeout, out`minHeapIdx
    {
      && HandedOut(before, members, out)
      && forall z {:trigger Gaze(z)} :: Gaze(z) ==> forall t <- out :: t !in members && t.minHeapIdx == -1 && Due(t)
    }

    lemma ExpiredMore(before: set<Timer>, was: set<Timer>, out: seq<Timer>, e: Timer)
      requires HandedOut(before, was, out) && (forall t <- out :: t !in was && t.minHeapIdx == -1 && Due(t))
      requires e in was && (forall t <- was :: Le(e, t)) && Due(e) && e.minHeapIdx == -1 && members == was - {e}
      ensures Expired(before, out + [e])
    {
      HandedOutMore(before, was, out, e);
    }

    lemma AllExpired(before: set<Timer>, active: seq<Timer>)
      requires Expired(before, Reversed(active)) && forall t <- members :: !Due(t)
      ensures SortedDistinct(Reversed(active)) && members == set t <- before | !Due(t)
      ensures forall t :: t in active <==> t in before && Due(t)
      ensures multiset(Reversed(active)) == multiset(active) && forall t <- active :: t.minHeapIdx == -1
    {
      assert Look(0) && Gaze(0);
      ReversedHolds(active);
      assert forall t :: t in active <==> t in multiset(active);
      assert forall t :: t in Reversed(active) <==> t in multiset(Reversed(active));
    }

    // One turn of timer_process_timeout: the top leaves the heap if it is due.
    method Expire() returns (ev: Timer?)
      requires Valid()
      modifies this, p, members`minHeapIdx
      ensures Valid() && p == old(p) && (old(Booked()) ==> Booked()) && (old(Retired()) ==> Retired())
      ensures ev == null ==> members == old(members) && removed == old(removed) && forall t <- members :: !Due(t)
      ensures ev != null ==> ev in old(members) && Due(ev) && forall t <- old(members) :: Le(ev, t)
      ensures ev != null ==> ev.minHeapIdx == -1 && members == old(members) - {ev} && removed == old(removed) + multiset{ev}
      ensures pushed == old(pushed)
    {
      ev := Top();
      if ev == null || Greater(ev.timeout, TimeVal(0, 0)) {
        return null;
      }
      var r := Erase(ev);
    }

    // The same turn, with what has left the heap so far.
    method ExpireNext(ghost before: set<Timer>, ghost out: seq<Timer>) returns (ev: Timer?, ghost more: seq<Timer>)
      requires Valid() && Expired(before, out)
      modifies this, p, members`minHeapIdx
      ensures Valid() && p == old(p) && (old(Booked()) ==> Booked()) && (old(Retired()) ==> Retired())
      ensures Expired(before, more) && (if ev == null then more == out else more == out + [ev])
      ensures if ev == null then members == old(members) && forall t <- members :: !Due(t) else members < old(members)
      ensures pushed == old(pushed) && removed == old(removed) + if ev == null then multiset{} else multiset{ev}
    {
      assert Gaze(0);
      ghost var was := members;
      ev := Expire();
      more := out;
      if ev != null {
        ExpiredMore(before, was, out, ev);
        more := out + [ev];
      }
    }

    // timer_process_timeout of timer.c: move the expired timers to the active list, newest at its head.
    method ProcessTimeout() returns (active: seq<Timer>)
      requires Valid()
      modifies this, p, members`minHeapIdx
      ensures Valid() && p == old(p) && (old(Booked()) ==> Booked()) && (old(Retired()) ==> Retired())
      ensures SortedDistinct(Reversed(active))
      ensures forall t :: t in active <==> t in old(members) && Due(t)
      ensures members == set t <- old(members) | !Due(t)
      ensures forall t <- active :: t.minHeapIdx == -1
      ensures pushed == old(pushed) && removed == old(removed) + multiset(active)
    {
      active := [];
      ghost var out: seq<Timer> := [];
      while true
        invariant Valid() && p == old(p) && (old(Booked()) ==> Booked()) && (old(Retired()) ==> Retired())
        invariant Expired(old(members), out) && out == Reversed(active)
        invariant pushed == old(pushed) && removed == old(removed) + multiset(out)
        decreases members
      {
        var ev;
        ev, out := ExpireNext(old(members), out);
        if ev == null {
          break;
        }
        ReversedFront(ev, active);
        active := [ev] + active;
      }
      AllExpired(old(members), active);
    }

    ghost predicate AllNormal()
      reads this, members`timeout
    {
      forall t <- members :: Normal(t.timeout)
    }

    // The loop of timer_update of timer.c: the time that has passed is taken off every timeout in place.
    method Update(delta: TimeVal)
      requires Valid()
      modifies members`timeout
      ensures forall t <- members :: t.timeout == Minus(old(t.timeout), delta)
      ensures Normal(delta) && old(AllNormal()) ==> Valid() && AllNormal()
    {
      assert Look(0);
      for i := 0 to n
        invariant forall t <- members :: t.timeout == if Slot(t) < i then Minus(old(t.timeout), delta) else old(t.timeout)
      {
        var t := p[i];
        t.timeout := Minus(t.timeout, delta);
      }
      if Normal(delta) && old(AllNormal()) {
        OrderKept(delta);
      }
    }

    twostate lemma OrderKept(delta: TimeVal)
      requires elems == old(elems) && old(HeapOrdered(elems)) && Normal(delta)
      requires forall t <- elems :: old(Normal(t.timeout)) && t.timeout == Minus(old(t.timeout), delta)
      ensures HeapOrdered(elems)
    {
      forall i {:trigger Parent(i)} | 1 <= i < |elems| ensures Le(elems[Parent(i)], elems[i]) {
        var t, u := elems[Parent(i)], elems[i];
        assert t in elems && u in elems && old(Le(t, u));
        MinusKeepsOrder(old(t.timeout), old(u.timeout), delta);
      }
    }

    // Lines 166 and 167 of timer.c: after `delta` has passed, the timers it was enough for become active.
    method Elapse(delta: TimeVal) returns (active: seq<Timer>)
      requires Valid() && Normal(delta) && AllNormal()
      modifies this, p, members
      ensures Valid() && AllNormal() && p == old(p) && (old(Booked()) ==> Booked()) && (old(Retired()) ==> Retired())
      ensures forall t :: t in active <==> t in old(members) && !Greater(old(t.timeout), delta)
      ensures members == set t <- old(members) | Greater(old(t.timeout), delta)
      ensures forall t <- members :: t.timeout == Minus(old(t.timeout), delta)
      ensures SortedDistinct(Reversed(active)) && forall t <- active :: t.minHeapIdx == -1
      ensures pushed == old(pushed) && removed == old(removed) + multiset(active)
    {
      Update(delta);
      assert forall t <- members :: Due(t) <==> !Greater(old(t.timeout), delta);
      active := ProcessTimeout();
    }
  }
}
