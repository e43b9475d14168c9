/** The rank index of rank/core.c: an array of score buckets, each with a descending linked list of score
    nodes, each with a doubly linked list of uid nodes. */
module RankIndex {
  import opened Basics
  import opened Guard
  import opened RankModel

  class UidNode {
    const uid: int
    var nextUid: UidNode?
    var preUid: UidNode?
    var ownerScore: ScoreNode?

    constructor (uid: int)
      ensures this.uid == uid && ownerScore == null
    {
      this.uid := uid;
      nextUid, preUid, ownerScore := null, null, null;
    }
  }

  class ScoreNode {
    const score: nat
    var cnt: int
    var nextScore: ScoreNode?
    var uidHead: UidNode?

    constructor (score: nat)
      ensures this.score == score && cnt == 0 && nextScore == null && uidHead == null
    {
      this.score := score;
      cnt, nextScore, uidHead := 0, null, null;
    }
  }

  // The node of the i-th entry of a list, or null past either end.
  ghost function ScoreAt(nodes: map<nat, ScoreNode>, l: seq<nat>, i: int): ScoreNode? {
    if 0 <= i < |l| && l[i] in nodes then nodes[l[i]] else null
  }

  ghost function UidAt(ht: map<int, UidNode>, l: seq<int>, i: int): UidNode? {
    if 0 <= i < |l| && l[i] in ht then ht[l[i]] else null
  }

  ghost predicate ScoreLink(nodes: map<nat, ScoreNode>, l: seq<nat>, i: int, S: set<ScoreNode>)
    reads S
  {
    var sn := ScoreAt(nodes, l, i);
    sn != null && sn in S && sn.nextScore == ScoreAt(nodes, l, i + 1)
  }

  ghost predicate UidLink(ht: map<int, UidNode>, sn: ScoreNode, l: seq<int>, i: int, U: set<UidNode>)
    reads U
  {
    var un := UidAt(ht, l, i);
    un != null && un in U && un.ownerScore == sn && un.nextUid == UidAt(ht, l, i + 1) && un.preUid == UidAt(ht, l, i - 1)
  }

  // The chain of score nodes from `head` is the score list `l`.
  ghost predicate ChainOk(nodes: map<nat, ScoreNode>, head: ScoreNode?, l: seq<nat>, S: set<ScoreNode>)
    reads S
  {
    && head == ScoreAt(nodes, l, 0)
    && forall i {:trigger ScoreLink(nodes, l, i, S)} :: 0 <= i < |l| ==> ScoreLink(nodes, l, i, S)
  }

  // The doubly linked list of score node `sn` is the uid list `l`.
  ghost predicate ListOk(ht: map<int, UidNode>, sn: ScoreNode, l: seq<int>, U: set<UidNode>)
    reads sn, U
  {
    && sn.cnt == |l| && sn.uidHead == UidAt(ht, l, 0)
    && forall i {:trigger UidLink(ht, sn, l, i, U)} :: 0 <= i < |l| ==> UidLink(ht, sn, l, i, U)
  }

  twostate predicate Same(o: UidNode)
    reads o
  {
    o.nextUid == old(o.nextUid) && o.preUid == old(o.preUid) && o.ownerScore == old(o.ownerScore)
  }

  // The linking part of bind_score_uid: `un` becomes the head of the list of `sn`.
  method LinkFront(sn: ScoreNode, un: UidNode, ghost ht: map<int, UidNode>, ghost l: seq<int>, ghost U: set<UidNode>)
    requires ListOk(ht, sn, l, U) && un in U && un.uid in ht && ht[un.uid] == un && Distinct([un.uid] + l)
    requires forall u <- ht :: ht[u].uid == u
    modifies sn`cnt, sn`uidHead, un, U`preUid
    ensures ListOk(ht, sn, [un.uid] + l, U)
    ensures forall o <- U :: o != un && old(o.ownerScore) != sn ==> Same(o)
  {
    assert forall i {:trigger UidLink(ht, sn, l, i, U)} :: 0 <= i < |l| ==> UidLink(ht, sn, l, i, U);
    assert l != [] ==> UidLink(ht, sn, l, 0, U);
    sn.cnt := sn.cnt + 1;
    if sn.uidHead == null {
      sn.uidHead := un;
      un.nextUid := null;
      un.preUid := null;
      un.ownerScore := sn;
    } else {
      un.nextUid := sn.uidHead;
      un.preUid := null;
      un.ownerScore := sn;
      sn.uidHead.preUid := un;
      sn.uidHead := un;
    }
    ghost var k := [un.uid] + l;
    forall i | 0 <= i < |k| ensures UidLink(ht, sn, k, i, U) {
      if i > 0 {
        assert old(UidLink(ht, sn, l, i - 1, U));
        assert k[i] == l[i - 1] && k[i] != k[0] && (i != 1 ==> k[i] != k[1]);
        assert UidAt(ht, k, i + 1) == UidAt(ht, l, i);
        assert i != 1 ==> UidAt(ht, k, i - 1) == UidAt(ht, l, i - 2);
      } else {
        assert UidAt(ht, k, 1) == UidAt(ht, l, 0);
      }
    }
  }

  lemma DroppedAt(ht: map<int, UidNode>, l: seq<int>, k: nat, i: int)
    requires k < |l|
    ensures UidAt(ht, l[..k] + l[k + 1..], i) == UidAt(ht, l, if i < k then i else i + 1)
  {
  }

  // The i-th entry of a list whose links pass over entry k.
  ghost predicate SkipLink(ht: map<int, UidNode>, sn: ScoreNode, l: seq<int>, k: int, i: int, U: set<UidNode>)
    reads U
  {
    var un := UidAt(ht, l, i);
    && un != null && un in U && un.ownerScore == sn
    && un.nextUid == UidAt(ht, l, if i + 1 == k then k + 1 else i + 1)
    && un.preUid == UidAt(ht, l, if i - 1 == k then k - 1 else i - 1)
  }

  lemma SkippedOut(ht: map<int, UidNode>, sn: ScoreNode, l: seq<int>, k: nat, i: nat, U: set<UidNode>)
    requires k < |l| && i < |l| - 1 && SkipLink(ht, sn, l, k, if i < k then i else i + 1, U)
    ensures UidLink(ht, sn, l[..k] + l[k + 1..], i, U)
  {
    DroppedAt(ht, l, k, i - 1);
    DroppedAt(ht, l, k, i);
    DroppedAt(ht, l, k, i + 1);
  }

  // The linking part of unbind_score_uid: `un` leaves place `k` of the list of `sn`.
  method LinkOut(sn: ScoreNode, un: UidNode, ghost ht: map<int, UidNode>, ghost l: seq<int>, ghost k: nat,
                 ghost U: set<UidNode>)
    requires ListOk(ht, sn, l, U) && k < |l| && l[k] == un.uid && un.uid in ht && ht[un.uid] == un && Distinct(l)
    requires forall u <- ht :: ht[u].uid == u
    modifies sn`cnt, sn`uidHead, un, U`preUid, U`nextUid
    ensures ListOk(ht, sn, l[..k] + l[k + 1..], U)
    ensures un.ownerScore == null && un.nextUid == null && un.preUid == null
    ensures forall o <- U :: old(o.ownerScore) != sn ==> Same(o)
  {
    assert UidLink(ht, sn, l, k, U);
    assert k > 0 ==> UidLink(ht, sn, l, k - 1, U);
    assert k + 1 < |l| ==> UidLink(ht, sn, l, k + 1, U);
    assert UidLink(ht, sn, l, 0, U);
    sn.cnt := sn.cnt - 1;
    if sn.uidHead == un {
      sn.uidHead := un.nextUid;
      if un.nextUid != null {
        un.nextUid.preUid := null;
      }
    } else {
      un.preUid.nextUid := un.nextUid;
      if un.nextUid != null {
        un.nextUid.preUid := un.preUid;
      }
    }
    un.preUid := null;
    un.nextUid := null;
    un.ownerScore := null;
    forall i: nat {:trigger SkipLink(ht, sn, l, k, i, U)} | i < |l| && i != k
      ensures SkipLink(ht, sn, l, k, i, U)
    {
      assert old(UidLink(ht, sn, l, i, U)) && l[i] != l[k];
    }
    forall i {:trigger UidLink(ht, sn, l[..k] + l[k + 1..], i, U)} | 0 <= i < |l| - 1
      ensures UidLink(ht, sn, l[..k] + l[k + 1..], i, U)
    {
      SkippedOut(ht, sn, l, k, i, U);
    }
    DroppedAt(ht, l, k, 0);
  }

  lemma ChainWidened(nodes: map<nat, ScoreNode>, wider: map<nat, ScoreNode>, head: ScoreNode?, l: seq<nat>,
                     S: set<ScoreNode>, T: set<ScoreNode>)
    requires ChainOk(nodes, head, l, S) && S <= T
    requires forall i :: 0 <= i < |l| ==> l[i] in nodes && l[i] in wider && wider[l[i]] == nodes[l[i]]
    ensures ChainOk(wider, head, l, T)
  {
    forall i {:trigger ScoreLink(wider, l, i, T)} | 0 <= i < |l| ensures ScoreLink(wider, l, i, T) {
      assert ScoreLink(nodes, l, i, S);
    }
  }

  lemma ListWidened(ht: map<int, UidNode>, wider: map<int, UidNode>, sn: ScoreNode, l: seq<int>,
                    U: set<UidNode>, T: set<UidNode>)
    requires ListOk(ht, sn, l, U) && U <= T
    requires forall i :: 0 <= i < |l| ==> l[i] in ht && l[i] in wider && wider[l[i]] == ht[l[i]]
    ensures ListOk(wider, sn, l, T)
  {
    forall i {:trigger UidLink(wider, sn, l, i, T)} | 0 <= i < |l| ensures UidLink(wider, sn, l, i, T) {
      assert UidLink(ht, sn, l, i, U);
    }
  }

  // The linking part of score_new: `sn` goes before the k-th node of a chain, after `pre` unless k is 0.
  method LinkScore(pre: ScoreNode?, cur: ScoreNode?, sn: ScoreNode, head: ScoreNode?, ghost nodes: map<nat, ScoreNode>,
                   ghost l: seq<nat>, ghost k: nat, ghost S: set<ScoreNode>) returns (h: ScoreNode?)
    requires ChainOk(nodes, head, l, S) && sn !in S && k <= |l| && sn.score !in nodes
    requires forall s <- nodes :: nodes[s].score == s
    requires cur == ScoreAt(nodes, l, k) && pre == (if k == 0 then cur else ScoreAt(nodes, l, k - 1)) && Distinct(l)
    requires forall i :: 0 <= i < |l| ==> l[i] in nodes
    modifies sn`nextScore, S`nextScore
    ensures ChainOk(nodes[sn.score := sn], h, l[..k] + [sn.score] + l[k..], S + {sn})
    ensures forall o <- S :: (k == 0 || o != ScoreAt(nodes, l, k - 1)) ==> o.nextScore == old(o.nextScore)
  {
    assert k > 0 ==> ScoreLink(nodes, l, k - 1, S);
    h := head;
    if pre == cur {
      h := sn;
      sn.nextScore := cur;
    } else {
      pre.nextScore := sn;
      sn.nextScore := cur;
    }
    ghost var r, wider := l[..k] + [sn.score] + l[k..], nodes[sn.score := sn];
    forall i {:trigger ScoreLink(wider, r, i, S + {sn})} | 0 <= i < |r| ensures ScoreLink(wider, r, i, S + {sn}) {
      var j := if i < k then i else i - 1;
      if i != k {
        assert old(ScoreLink(nodes, l, j, S)) && r[i] == l[j];
      }
    }
  }

  class Rank {
    const cnt: array<int>                  // gia->array[i].cnt
    const scoreHead: array<ScoreNode?>     // gia->array[i].score_head
    var ht: map<int, UidNode>              // ght

    ghost var x: Index                     // the abstract content
    ghost var nodes: map<nat, ScoreNode>   // the score node of every listed score
    ghost var scoreNodes: set<ScoreNode>
    ghost var uidNodes: set<UidNode>

    static ghost predicate TablesOf(cnt: array<int>, scoreHead: array<ScoreNode?>, x: Index,
        nodes: map<nat, ScoreNode>, S: set<ScoreNode>, U: set<UidNode>, ht: map<int, UidNode>)
    {
      && cnt.Length == scoreHead.Length == |x.order| == IDX_LEN
      && (forall u <- x.m :: x.m[u] in x.lists)
      && nodes.Keys == x.lists.Keys && x.m.Keys <= ht.Keys
      && (forall s <- nodes :: nodes[s].score == s && nodes[s] in S)
      && (forall u <- ht :: ht[u].uid == u && ht[u] in U)
    }

    static ghost predicate ReprOf(cnt: array<int>, scoreHead: array<ScoreNode?>, x: Index,
        nodes: map<nat, ScoreNode>, S: set<ScoreNode>, U: set<UidNode>, ht: map<int, UidNode>)
      requires TablesOf(cnt, scoreHead, x, nodes, S, U, ht)
      reads cnt, scoreHead, S, U
    {
      && x.Consistent()
      && (forall b {:trigger x.order[b]} :: 0 <= b < IDX_LEN ==> ChainOk(nodes, scoreHead[b], x.order[b], S))
      && (forall s <- nodes :: ListOk(ht, nodes[s], x.lists[s], U))
      && (forall u <- ht :: u !in x.m ==> ht[u].ownerScore == null)
      && (forall b :: 0 <= b < IDX_LEN ==> cnt[b] == |InBucket(x.m, b)|)
    }

    // The linked nodes and the counts represent the index x.
    static ghost predicate Represents(cnt: array<int>, scoreHead: array<ScoreNode?>, x: Index,
        nodes: map<nat, ScoreNode>, S: set<ScoreNode>, U: set<UidNode>, ht: map<int, UidNode>)
      reads cnt, scoreHead, S, U
    {
      && TablesOf(cnt, scoreHead, x, nodes, S, U, ht)
      && forall z {:trigger Look(z)} :: Look(z) ==> ReprOf(cnt, scoreHead, x, nodes, S, U, ht)
    }

    ghost predicate Tables()
      reads this
    {
      TablesOf(cnt, scoreHead, x, nodes, scoreNodes, uidNodes, ht)
    }

    ghost predicate Valid()
      reads this, cnt, scoreHead, scoreNodes, uidNodes
    {
      Represents(cnt, scoreHead, x, nodes, scoreNodes, uidNodes, ht)
    }

    // Between calls of the interface every uid node is in the list of some score.
    ghost predicate Settled()
      reads this
    {
      x.m.Keys == ht.Keys
    }

    twostate predicate SameTables()
      reads this
    {
      && ht == old(ht) && x == old(x) && nodes == old(nodes)
      && scoreNodes == old(scoreNodes) && uidNodes == old(uidNodes)
    }

    // Relinking the list of score t leaves the lists of other scores and the score chains alone.
    twostate lemma OthersKept(t: nat)
      requires old(Valid()) && SameTables() && t in nodes
      requires forall s <- nodes :: s != t ==> nodes[s].cnt == old(nodes[s].cnt) && nodes[s].uidHead == old(nodes[s].uidHead)
      requires forall o <- uidNodes :: old(o.ownerScore) != null && old(o.ownerScore) != nodes[t] ==> Same(o)
      requires forall b :: 0 <= b < IDX_LEN ==> scoreHead[b] == old(scoreHead[b])
      requires forall sn <- scoreNodes :: sn.nextScore == old(sn.nextScore)
      ensures ValidBut(t)
    {
      assert Look(0);
      forall s <- nodes | s != t ensures ListOk(ht, nodes[s], x.lists[s], uidNodes) {
        assert old(ListOk(ht, nodes[s], x.lists[s], uidNodes));
        forall i | 0 <= i < |x.lists[s]| ensures UidLink(ht, nodes[s], x.lists[s], i, uidNodes) {
          assert old(UidLink(ht, nodes[s], x.lists[s], i, uidNodes));
        }
      }
      forall b {:trigger x.order[b]} | 0 <= b < IDX_LEN ensures ChainOk(nodes, scoreHead[b], x.order[b], scoreNodes) {
        assert old(ChainOk(nodes, scoreHead[b], x.order[b], scoreNodes));
        forall i | 0 <= i < |x.order[b]| ensures ScoreLink(nodes, x.order[b], i, scoreNodes) {
          assert old(ScoreLink(nodes, x.order[b], i, scoreNodes));
        }
      }
    }

    constructor ()
      ensures Valid() && Settled() && x.m == map[] && fresh(cnt) && fresh(scoreHead)
      ensures scoreNodes == {} && uidNodes == {}
    {
      cnt := new int[IDX_LEN](_ => 0);
      scoreHead := new ScoreNode?[IDX_LEN](_ => null);
      ht := map[];
      x := Index(seq(IDX_LEN, _ => []), map[], map[]);
      nodes, scoreNodes, uidNodes := map[], {}, {};
      new;
      forall b: nat ensures InBucket(x.m, b) == {} {
      }
    }

    // The count kept for a bucket is the sum of the counts kept in its score nodes.
    lemma BucketCount(b: nat)
      requires Valid() && b < IDX_LEN
      ensures forall s <- x.order[b] :: s in x.lists && s in nodes && nodes[s].cnt == |x.lists[s]|
      ensures cnt[b] == SumCounts(x, x.order[b])
    {
      assert Look(0);
      BucketTotal(x, b);
    }

    // All of the representation but the list of score t, the owners of unlisted uids and the counts.
    ghost predicate ReprBut(t: nat)
      requires Tables()
      reads this, scoreHead, scoreNodes, uidNodes
    {
      && x.Consistent()
      && (forall b {:trigger x.order[b]} :: 0 <= b < IDX_LEN ==> ChainOk(nodes, scoreHead[b], x.order[b], scoreNodes))
      && (forall s <- nodes :: s != t ==> ListOk(ht, nodes[s], x.lists[s], uidNodes))
    }

    ghost predicate ValidBut(t: nat)
      reads this, scoreHead, scoreNodes, uidNodes
    {
      Tables() && t in nodes && forall z {:trigger Look(z)} :: Look(z) ==> ReprBut(t)
    }

    // What the representation says of one list and of the counts.
    lemma ListOf(t: nat)
      requires Valid() && t in nodes
      ensures ListOk(ht, nodes[t], x.lists[t], uidNodes) && x.ListConsistent(x.lists[t], t)
      ensures forall u <- ht :: u !in x.m ==> ht[u].ownerScore == null
      ensures forall b :: 0 <= b < IDX_LEN ==> cnt[b] == |InBucket(x.m, b)|
    {
      assert Look(0) && x.Listed(t);
    }

    lemma BindRepresented(t: nat, u: int)
      requires ValidBut(t) && u in ht && u !in x.m && ListOk(ht, nodes[t], [u] + x.lists[t], uidNodes)
      requires forall v <- ht :: v !in x.m && v != u ==> ht[v].ownerScore == null
      requires forall b :: 0 <= b < IDX_LEN ==> cnt[b] == |InBucket(x.m, b)| + if b == Bucket(t) then 1 else 0
      ensures Represents(cnt, scoreHead, x.Bind(t, u), nodes, scoreNodes, uidNodes, ht)
    {
      assert Look(0);
      CountsAfterBind(x.m, u, t);
      BindConsistent(x, t, u);
    }

    ghost method AdoptBind(t: nat, u: int)
      requires ValidBut(t) && u in ht && u !in x.m && ListOk(ht, nodes[t], [u] + x.lists[t], uidNodes)
      requires forall v <- ht :: v !in x.m && v != u ==> ht[v].ownerScore == null
      requires forall b :: 0 <= b < IDX_LEN ==> cnt[b] == |InBucket(x.m, b)| + if b == Bucket(t) then 1 else 0
      modifies `x
      ensures Valid() && x == old(x).Bind(t, u)
    {
      BindRepresented(t, u);
      x := x.Bind(t, u);
    }

    method BindScoreUid(sn: ScoreNode, un: UidNode)
      requires Valid() && sn.score in nodes && nodes[sn.score] == sn
      requires un.uid in ht && ht[un.uid] == un && un.uid !in x.m
      modifies `x, cnt, scoreNodes`cnt, scoreNodes`uidHead, uidNodes
      ensures Valid() && x == old(x).Bind(sn.score, un.uid)
    {
      ListOf(sn.score);
      var b := Bucket(sn.score);
      LinkFront(sn, un, ht, x.lists[sn.score], uidNodes);
      cnt[b] := cnt[b] + 1;
      OthersKept(sn.score);
      AdoptBind(sn.score, un.uid);
    }

    lemma UnbindRepresented(t: nat, k: nat)
      requires ValidBut(t) && k < |x.lists[t]|
      requires ListOk(ht, nodes[t], x.lists[t][..k] + x.lists[t][k + 1..], uidNodes)
      requires forall v <- ht :: v !in x.m || v == x.lists[t][k] ==> ht[v].ownerScore == null
      requires forall b :: 0 <= b < IDX_LEN ==> cnt[b] == |InBucket(x.m, b)| - if b == Bucket(t) then 1 else 0
      ensures Represents(cnt, scoreHead, x.Unbind(t, k), nodes, scoreNodes, uidNodes, ht)
    {
      assert Look(0) && x.Listed(t);
      CountsAfterUnbind(x.m, x.lists[t][k]);
      UnbindConsistent(x, t, k);
    }

    ghost method AdoptUnbind(t: nat, k: nat)
      requires ValidBut(t) && k < |x.lists[t]| && ListOk(ht, nodes[t], x.lists[t][..k] + x.lists[t][k + 1..], uidNodes)
      requires forall v <- ht :: v !in x.m || v == x.lists[t][k] ==> ht[v].ownerScore == null
      requires forall b :: 0 <= b < IDX_LEN ==> cnt[b] == |InBucket(x.m, b)| - if b == Bucket(t) then 1 else 0
      modifies `x
      ensures Valid() && x == old(x).Unbind(t, k)
    {
      UnbindRepresented(t, k);
      x := x.Unbind(t, k);
    }

    // `k` is the place of `un` in the list.
    method UnbindScoreUid(sn: ScoreNode, un: UidNode, ghost k: nat)
      requires Valid() && sn.score in nodes && nodes[sn.score] == sn
      requires un.uid in ht && ht[un.uid] == un && k < |x.lists[sn.score]| && x.lists[sn.score][k] == un.uid
      modifies `x, cnt, scoreNodes`cnt, scoreNodes`uidHead, uidNodes
      ensures Valid() && x == old(x).Unbind(sn.score, k)
    {
      ListOf(sn.score);
      var b := Bucket(sn.score);
      LinkOut(sn, un, ht, x.lists[sn.score], k, uidNodes);
      cnt[b] := cnt[b] - 1;
      OthersKept(sn.score);
      AdoptUnbind(sn.score, k);
    }

    method ScoreGet(score: nat) returns (sn: ScoreNode?)
      requires Valid()
      ensures sn == if score in nodes then nodes[score] else null
    {
      assert Look(0);
      var idx := score / BASE;
      if idx >= IDX_LEN {
        idx := IDX_LEN - 1;
      }
      ghost var l := x.order[idx];
      ghost var k := 0;
      var cur := scoreHead[idx];
      assert x.Listed(score) ==> score in l;
      while cur != null
        invariant 0 <= k <= |l| && cur == ScoreAt(nodes, l, k)
        invariant forall i :: 0 <= i < k ==> l[i] > score
        decreases |l| - k
      {
        assert ScoreLink(nodes, l, k, scoreNodes);
        if cur.score > score {
          cur := cur.nextScore;
          k := k + 1;
        } else if cur.score == score {
          return cur;
        } else {
          return null;
        }
      }
      return null;
    }

    // All of the representation, with `sn` among the score nodes, but the chain of its bucket.
    ghost predicate ReprWith(sn: ScoreNode)
      requires Tables()
      reads this, cnt, scoreHead, scoreNodes, uidNodes, sn
    {
      && x.Consistent()
      && (forall s <- nodes :: ListOk(ht, nodes[s], x.lists[s], uidNodes))
      && (forall u <- ht :: u !in x.m ==> ht[u].ownerScore == null)
      && (forall b :: 0 <= b < IDX_LEN ==> cnt[b] == |InBucket(x.m, b)|)
      && (forall b {:trigger x.order[b]} :: 0 <= b < IDX_LEN && b != Bucket(sn.score) ==>
            ChainOk(nodes[sn.score := sn], scoreHead[b], x.order[b], scoreNodes + {sn}))
    }

    ghost predicate ValidWith(sn: ScoreNode)
      reads this, cnt, scoreHead, scoreNodes, uidNodes, sn
    {
      && Tables() && sn.score !in nodes && sn.cnt == 0 && sn.uidHead == null
      && forall z {:trigger Look(z)} :: Look(z) ==> ReprWith(sn)
    }

    lemma AdoptedLists(sn: ScoreNode, y: Index)
      requires ValidWith(sn) && y.lists == x.lists[sn.score := []] && y.m == x.m
      ensures forall s <- nodes[sn.score := sn] :: ListOk(ht, nodes[sn.score := sn][s], y.lists[s], uidNodes)
      ensures forall u <- ht :: u !in x.m ==> ht[u].ownerScore == null
      ensures forall b :: 0 <= b < IDX_LEN ==> cnt[b] == |InBucket(y.m, b)|
    {
      assert Look(0);
    }

    lemma AdoptedChains(sn: ScoreNode, y: Index)
      requires ValidWith(sn) && y.Consistent()
      requires forall b :: 0 <= b < IDX_LEN && b != Bucket(sn.score) ==> y.order[b] == x.order[b]
      requires var b := Bucket(sn.score); ChainOk(nodes[sn.score := sn], scoreHead[b], y.order[b], scoreNodes + {sn})
      ensures forall b {:trigger y.order[b]} :: 0 <= b < IDX_LEN ==>
        ChainOk(nodes[sn.score := sn], scoreHead[b], y.order[b], scoreNodes + {sn})
    {
      assert Look(0);
      forall b {:trigger y.order[b]} | 0 <= b < IDX_LEN
        ensures ChainOk(nodes[sn.score := sn], scoreHead[b], y.order[b], scoreNodes + {sn})
      {
        assert b != Bucket(sn.score) ==> y.order[b] == x.order[b];
      }
    }

    lemma ScoreRepresented(sn: ScoreNode, y: Index)
      requires ValidWith(sn) && y.Consistent() && y.lists == x.lists[sn.score := []] && y.m == x.m
      requires forall b :: 0 <= b < IDX_LEN && b != Bucket(sn.score) ==> y.order[b] == x.order[b]
      requires var b := Bucket(sn.score); ChainOk(nodes[sn.score := sn], scoreHead[b], y.order[b], scoreNodes + {sn})
      ensures Represents(cnt, scoreHead, y, nodes[sn.score := sn], scoreNodes + {sn}, uidNodes, ht)
    {
      AdoptedLists(sn, y);
      AdoptedChains(sn, y);
    }

    // The new node stands in the chain of its bucket, which is linked as `y` lists it.
    ghost method AdoptScore(sn: ScoreNode, y: Index)
      requires ValidWith(sn) && y.Consistent() && y.lists == x.lists[sn.score := []] && y.m == x.m
      requires forall b :: 0 <= b < IDX_LEN && b != Bucket(sn.score) ==> y.order[b] == x.order[b]
      requires var b := Bucket(sn.score); ChainOk(nodes[sn.score := sn], scoreHead[b], y.order[b], scoreNodes + {sn})
      modifies `x, `nodes, `scoreNodes
      ensures Valid() && x == y
      ensures nodes == old(nodes)[sn.score := sn] && scoreNodes == old(scoreNodes) + {sn}
    {
      ScoreRepresented(sn, y);
      x := y;
      nodes := nodes[sn.score := sn];
      scoreNodes := scoreNodes + {sn};
    }

    // The search loop of score_new: the first node with a score below `score`, and the node before it.
    method FindPlace(head: ScoreNode?, score: nat, ghost l: seq<nat>) returns (pre: ScoreNode?, cur: ScoreNode?, ghost k: nat)
      requires ChainOk(nodes, head, l, scoreNodes) && Decreasing(l) && score !in l
      requires forall s <- nodes :: nodes[s].score == s
      ensures k <= |l| && cur == ScoreAt(nodes, l, k) && pre == if k == 0 then cur else ScoreAt(nodes, l, k - 1)
      ensures forall i :: 0 <= i < |l| ==> if i < k then l[i] > score else l[i] < score
    {
      cur := head;
      pre := cur;
      k := 0;
      while cur != null
        invariant k <= |l| && cur == ScoreAt(nodes, l, k) && pre == if k == 0 then cur else ScoreAt(nodes, l, k - 1)
        invariant forall i :: 0 <= i < k ==> l[i] > score
        decreases |l| - k
      {
        assert ScoreLink(nodes, l, k, scoreNodes);
        if cur.score > score {
          pre := cur;
          cur := cur.nextScore;
          k := k + 1;
        } else {
          assert l[k] in l;
          break;
        }
      }
      assert k < |l| ==> ScoreLink(nodes, l, k, scoreNodes);
    }

    // Linking `sn` into its chain leaves the uid lists and the other chains alone.
    twostate lemma OthersWidened(new sn: ScoreNode)
      requires old(Valid()) && SameTables() && sn.score !in nodes && sn.cnt == 0 && sn.uidHead == null
      requires forall b :: 0 <= b < IDX_LEN ==> cnt[b] == old(cnt[b])
      requires forall s <- nodes :: nodes[s].cnt == old(nodes[s].cnt) && nodes[s].uidHead == old(nodes[s].uidHead)
      requires forall o <- uidNodes :: Same(o)
      requires forall b :: 0 <= b < IDX_LEN && b != Bucket(sn.score) ==> scoreHead[b] == old(scoreHead[b])
      requires forall o <- scoreNodes :: Bucket(o.score) != Bucket(sn.score) ==> o.nextScore == old(o.nextScore)
      ensures ValidWith(sn)
    {
      assert Look(0);
      forall s <- nodes ensures ListOk(ht, nodes[s], x.lists[s], uidNodes) {
        assert old(ListOk(ht, nodes[s], x.lists[s], uidNodes));
        forall i | 0 <= i < |x.lists[s]| ensures UidLink(ht, nodes[s], x.lists[s], i, uidNodes) {
          assert old(UidLink(ht, nodes[s], x.lists[s], i, uidNodes));
        }
      }
      forall b {:trigger x.order[b]} | 0 <= b < IDX_LEN && b != Bucket(sn.score)
        ensures ChainOk(nodes[sn.score := sn], scoreHead[b], x.order[b], scoreNodes + {sn})
      {
        assert old(ChainOk(nodes, scoreHead[b], x.order[b], scoreNodes)) && x.BucketConsistent(x.order[b], b);
        forall i | 0 <= i < |x.order[b]| ensures ScoreLink(nodes, x.order[b], i, scoreNodes) {
          assert old(ScoreLink(nodes, x.order[b], i, scoreNodes));
        }
        ChainWidened(nodes, nodes[sn.score := sn], scoreHead[b], x.order[b], scoreNodes, scoreNodes + {sn});
      }
    }

    // What the representation says of the chain in which a new score goes.
    lemma ChainOf(score: nat)
      requires Valid() && score !in nodes
      ensures var b := Bucket(score); ChainOk(nodes, scoreHead[b], x.order[b], scoreNodes)
      ensures x.Consistent() && Decreasing(x.order[Bucket(score)]) && score !in x.order[Bucket(score)]
      ensures forall i :: 0 <= i < |x.order[Bucket(score)]| ==>
        x.order[Bucket(score)][i] in nodes && Bucket(x.order[Bucket(score)][i]) == Bucket(score)
    {
      assert Look(0) && x.BucketConsistent(x.order[Bucket(score)], Bucket(score));
    }

    method ScoreNew(score: nat) returns (sn: ScoreNode)
      requires Valid()
      modifies `x, `nodes, `scoreNodes, scoreHead, scoreNodes`nextScore
      ensures Valid() && score in nodes && sn == nodes[score] && fresh(scoreNodes - old(scoreNodes))
      ensures nodes == old(nodes)[score := sn] && x.m == old(x.m)
      ensures x.lists == if score in old(nodes) then old(x.lists) else old(x.lists)[score := []]
    {
      var found := ScoreGet(score);
      if found != null {
        return found;
      }
      sn := InsertScoreNode(score);
    }

    // The second half of score_new: there is no node of this score yet.
    method InsertScoreNode(score: nat) returns (sn: ScoreNode)
      requires Valid() && score !in nodes
      modifies `x, `nodes, `scoreNodes, scoreHead, scoreNodes`nextScore
      ensures Valid() && fresh(sn) && sn.score == score && scoreNodes == old(scoreNodes) + {sn}
      ensures nodes == old(nodes)[score := sn] && x.m == old(x.m) && x.lists == old(x.lists)[score := []]
    {
      var idx := Bucket(score);
      ghost var l := x.order[idx];
      ChainOf(score);
      var pre, cur, k := FindPlace(scoreHead[idx], score, l);
      sn := new ScoreNode(score);
      var h := LinkScore(pre, cur, sn, scoreHead[idx], nodes, l, k, scoreNodes);
      scoreHead[idx] := h;
      OthersWidened(sn);
      NewScoreConsistent(x, score, k);
      AdoptScore(sn, x.NewScore(score, k));
    }

    method UidNew(uid: int) returns (un: UidNode)
      requires Valid()
      modifies `ht, `uidNodes
      ensures Valid() && un.uid == uid && uid in ht && un == ht[uid]
      ensures uid in old(ht) ==> ht == old(ht) && uidNodes == old(uidNodes)
      ensures uid !in old(ht) ==> fresh(un) && ht == old(ht)[uid := un] && uidNodes == old(uidNodes) + {un}
    {
      assert Look(0);
      if uid in ht {
        return ht[uid];
      }
      un := new UidNode(uid);
      ListsWidened(un);
      ht := ht[uid := un];
      uidNodes := uidNodes + {un};
    }

    lemma ListsWidened(un: UidNode)
      requires Valid() && un.uid !in ht
      ensures forall s <- nodes :: ListOk(ht[un.uid := un], nodes[s], x.lists[s], uidNodes + {un})
    {
      assert Look(0);
      forall s <- nodes ensures ListOk(ht[un.uid := un], nodes[s], x.lists[s], uidNodes + {un}) {
        assert x.Listed(s);
        ListWidened(ht, ht[un.uid := un], nodes[s], x.lists[s], uidNodes, uidNodes + {un});
      }
    }

    ghost method PlaceOf(uid: int) returns (k: nat)
      requires Valid() && uid in x.m
      ensures k < |x.lists[x.m[uid]]| && x.lists[x.m[uid]][k] == uid
      ensures x.m[uid] in nodes && ht[uid].ownerScore == nodes[x.m[uid]]
    {
      assert Look(0);
      var s := x.m[uid];
      assert x.Bound(uid);
      k :| 0 <= k < |x.lists[s]| && x.lists[s][k] == uid;
      assert UidLink(ht, nodes[s], x.lists[s], k, uidNodes);
    }

    // score_get, and score_new where it finds nothing.
    method ScoreFor(score: nat) returns (sn: ScoreNode)
      requires Valid()
      modifies `x, `nodes, `scoreNodes, scoreHead, scoreNodes`nextScore
      ensures Valid() && sn.score == score && score in nodes && sn == nodes[score] && x.m == old(x.m)
      ensures forall s <- old(nodes) :: s in nodes && nodes[s] == old(nodes)[s] && x.lists[s] == old(x.lists)[s]
      ensures fresh(scoreNodes - old(scoreNodes))
    {
      var found := ScoreGet(score);
      if found == null {
        found := ScoreNew(score);
      }
      sn := found;
    }

    method Move(un: UidNode, oldSn: ScoreNode, newSn: ScoreNode, ghost k: nat)
      requires Valid() && un.uid in ht && ht[un.uid] == un
      requires oldSn.score in nodes && nodes[oldSn.score] == oldSn && newSn.score in nodes && nodes[newSn.score] == newSn
      requires k < |x.lists[oldSn.score]| && x.lists[oldSn.score][k] == un.uid
      modifies `x, cnt, scoreNodes`cnt, scoreNodes`uidHead, uidNodes
      ensures Valid() && x.m == old(x.m)[un.uid := newSn.score]
    {
      assert x.Listed(oldSn.score);
      UnbindScoreUid(oldSn, un, k);
      BindScoreUid(newSn, un);
    }

    // core_update for a uid that has a score (lines 48-66).
    method Rescore(uid: int, score: nat)
      requires Valid() && Settled() && uid in ht
      modifies `x, `nodes, `scoreNodes, cnt, scoreHead, scoreNodes, uidNodes
      ensures Valid() && x.m == old(x.m)[uid := score] && fresh(scoreNodes - old(scoreNodes))
    {
      var un := ht[uid];
      ghost var k := PlaceOf(uid);
      var oldSn := un.ownerScore;
      if score != oldSn.score {
        var newSn := ScoreFor(score);
        assert fresh(scoreNodes - old(scoreNodes));
        Move(un, oldSn, newSn, k);
      }
    }

    // core_insert for a uid not seen before (lines 77-86).
    method Enter(uid: int, score: nat)
      requires Valid() && Settled() && uid !in ht
      modifies `ht, `uidNodes, `x, `nodes, `scoreNodes, cnt, scoreHead, scoreNodes, uidNodes
      ensures Valid() && Settled() && x.m == old(x.m)[uid := score]
      ensures fresh(scoreNodes - old(scoreNodes)) && fresh(uidNodes - old(uidNodes))
    {
      var un := UidNew(uid);
      assert fresh(uidNodes - old(uidNodes));
      var sn := ScoreFor(score);
      assert fresh(scoreNodes - old(scoreNodes));
      BindScoreUid(sn, un);
    }

    method Update(uid: int, score: nat) returns (r: int)
      requires Valid() && Settled()
      modifies this, cnt, scoreHead, scoreNodes, uidNodes
      ensures Valid() && Settled() && r == 0
      ensures x.m == old(x.m)[uid := score]
      ensures fresh(scoreNodes - old(scoreNodes)) && fresh(uidNodes - old(uidNodes))
      decreases if uid in ht then 0 else 1
    {
      if uid !in ht {
        r := Insert(uid, score);
        return;
      }
      Rescore(uid, score);
      return 0;
    }

    method Insert(uid: int, score: nat) returns (r: int)
      requires Valid() && Settled()
      modifies this, cnt, scoreHead, scoreNodes, uidNodes
      ensures Valid() && Settled() && r == 0
      ensures x.m == old(x.m)[uid := score]
      ensures fresh(scoreNodes - old(scoreNodes)) && fresh(uidNodes - old(uidNodes))
      decreases if uid in ht then 1 else 0
    {
      if uid in ht {
        r := Update(uid, score);
        return;
      }
      Enter(uid, score);
      return 0;
    }

    method GetRank(uid: int) returns (rank: int)
      requires Valid() && Settled()
      ensures rank == if uid in x.m then |set v | v in x.m && x.m[v] > x.m[uid]| else -1
    {
      assert Look(0);
      if uid !in ht {
        return -1;
      }
      var un := ht[uid];
      ghost var at := PlaceOf(uid);
      var sn := un.ownerScore;
      var score := sn.score;
      var idx := Bucket(score);
      rank := 0;
      var i := IDX_LEN - 1;
      AboveLastBucket(x.m);
      while i > idx
        invariant idx <= i < IDX_LEN && rank == |AboveBucket(x.m, i)|
      {
        AboveBucketStep(x.m, i);
        rank := rank + cnt[i];
        i := i - 1;
      }
      ghost var l := x.order[idx];
      assert x.Listed(score) && x.BucketConsistent(l, idx);
      ghost var goal :| 0 <= goal < |l| && l[goal] == score;
      ghost var k := 0;
      var tmp := scoreHead[idx];
      AboveFirst(x, idx);
      while tmp != sn
        invariant 0 <= k <= goal && tmp == ScoreAt(nodes, l, k)
        invariant rank == |Above(x.m, l[k])|
        decreases goal - k
      {
        assert ScoreLink(nodes, l, k, scoreNodes);
        AboveNext(x, idx, k);
        rank := rank + tmp.cnt;
        tmp := tmp.nextScore;
        k := k + 1;
      }
    }
  }
}
