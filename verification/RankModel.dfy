/** The abstract content of the rank index of rank/core.c: which scores each bucket lists, which uids each
    score lists, and the plain uid -> score map that both must agree with. */
module RankModel {
  import opened Basics

  const IDX_LEN: nat := 10000
  const BASE: nat := 1000

  // The bucket of a score; the last bucket takes every score past the end.
  function Bucket(score: nat): (b: nat)
    ensures b < IDX_LEN == 10000
    ensures b * 1000 <= score && (b < 9999 ==> score < (b + 1) * 1000)
  {
    if score / BASE >= IDX_LEN then IDX_LEN - 1 else score / BASE
  }

  lemma BucketMonotone(s: nat, t: nat)
    requires s <= t
    ensures Bucket(s) <= Bucket(t)
  {
  }

  type Scores = map<int, nat>

  ghost predicate Decreasing(s: seq<nat>) {
    forall i, j :: 0 <= i < j < |s| ==> s[i] > s[j]
  }

  // order[b] is the score list of bucket b; lists[s] the uid list of score s; m the map they stand for.
  datatype Index = Index(order: seq<seq<nat>>, lists: map<nat, seq<int>>, m: Scores)
  {
    ghost predicate Consistent() {
      && |order| == IDX_LEN
      && (forall b {:trigger order[b]} :: 0 <= b < IDX_LEN ==> BucketConsistent(order[b], b))
      && (forall s {:trigger Listed(s)} :: Listed(s) ==> s in order[Bucket(s)] && ListConsistent(lists[s], s))
      && (forall u <- m :: m[u] in lists)
      && (forall u {:trigger Bound(u)} :: Bound(u) ==> u in lists[m[u]])
    }

    predicate Listed(s: nat) {
      s in lists
    }

    predicate Bound(u: int) {
      u in m && m[u] in lists
    }

    ghost predicate BucketConsistent(scores: seq<nat>, b: nat) {
      Decreasing(scores) && forall i :: 0 <= i < |scores| ==> scores[i] in lists && Bucket(scores[i]) == b
    }

    ghost predicate ListConsistent(uids: seq<int>, s: nat) {
      Distinct(uids) && forall i :: 0 <= i < |uids| ==> uids[i] in m && m[uids[i]] == s
    }

    function NewScore(s: nat, k: nat): Index
      requires Bucket(s) < |order| && k <= |order[Bucket(s)]|
    {
      var l := order[Bucket(s)];
      Index(order[Bucket(s) := l[..k] + [s] + l[k..]], lists[s := []], m)
    }

    function Bind(s: nat, u: int): Index
      requires s in lists
    {
      Index(order, lists[s := [u] + lists[s]], m[u := s])
    }

    function Unbind(s: nat, k: nat): Index
      requires s in lists && k < |lists[s]|
    {
      Index(order, lists[s := lists[s][..k] + lists[s][k + 1..]], m - {lists[s][k]})
    }
  }

  // A score list with `s` inserted at `k` still decreases, and lists what it did and `s`.
  lemma InsertScore(l: seq<nat>, s: nat, k: nat)
    requires Decreasing(l) && k <= |l|
    requires forall i :: 0 <= i < |l| ==> if i < k then l[i] > s else l[i] < s
    ensures Decreasing(l[..k] + [s] + l[k..]) && forall t :: t in l[..k] + [s] + l[k..] <==> t == s || t in l
  {
    var n := l[..k] + [s] + l[k..];
    assert n[k] == s;
    forall i, j | 0 <= i < j < |n| ensures n[i] > n[j] {
      assert i == k || n[i] == l[if i < k then i else i - 1];
      assert j == k || n[j] == l[if j < k then j else j - 1];
    }
    forall i | 0 <= i < |l| ensures l[i] in n {
      assert n[if i < k then i else i + 1] == l[i];
    }
  }

  lemma NewScoreConsistent(x: Index, s: nat, k: nat)
    requires x.Consistent() && s !in x.lists && k <= |x.order[Bucket(s)]|
    requires forall i :: 0 <= i < |x.order[Bucket(s)]| ==> if i < k then x.order[Bucket(s)][i] > s else x.order[Bucket(s)][i] < s
    ensures x.NewScore(s, k).Consistent()
  {
    var y := x.NewScore(s, k);
    InsertScore(x.order[Bucket(s)], s, k);
    forall t {:trigger y.Listed(t)} | y.Listed(t) ensures t in y.order[Bucket(t)] && y.ListConsistent(y.lists[t], t) {
      assert t != s ==> x.Listed(t);
    }
    forall b {:trigger y.order[b]} | 0 <= b < IDX_LEN ensures y.BucketConsistent(y.order[b], b) {
      assert x.BucketConsistent(x.order[b], b);
      forall i | 0 <= i < |y.order[b]| ensures y.order[b][i] in y.lists && Bucket(y.order[b][i]) == b {
        assert y.order[b][i] in y.order[b];
      }
    }
    forall u {:trigger y.Bound(u)} | y.Bound(u) ensures u in y.lists[y.m[u]] {
      assert x.Bound(u);
    }
  }

  lemma BindConsistent(x: Index, s: nat, u: int)
    requires x.Consistent() && s in x.lists && u !in x.m
    ensures x.Bind(s, u).Consistent()
  {
    var y := x.Bind(s, u);
    forall t {:trigger y.Listed(t)} | y.Listed(t) ensures t in y.order[Bucket(t)] && y.ListConsistent(y.lists[t], t) {
      assert x.Listed(t) && x.Listed(s);
    }
    forall v {:trigger y.Bound(v)} | y.Bound(v) ensures v in y.lists[y.m[v]] {
      if v == u {
        assert y.lists[s][0] == u;
      } else {
        assert x.Bound(v);
        if x.m[v] == s {
          var i :| 0 <= i < |x.lists[s]| && x.lists[s][i] == v;
          assert y.lists[s][i + 1] == v;
        }
      }
    }
  }

  lemma UnbindConsistent(x: Index, s: nat, k: nat)
    requires x.Consistent() && s in x.lists && k < |x.lists[s]|
    ensures x.Unbind(s, k).Consistent()
  {
    var y := x.Unbind(s, k);
    forall t {:trigger y.Listed(t)} | y.Listed(t) ensures t in y.order[Bucket(t)] && y.ListConsistent(y.lists[t], t) {
      assert x.Listed(t) && x.Listed(s);
    }
    forall v {:trigger y.Bound(v)} | y.Bound(v) ensures v in y.lists[y.m[v]] {
      assert x.Bound(v);
      if x.m[v] == s {
        var i :| 0 <= i < |x.lists[s]| && x.lists[s][i] == v;
        assert y.lists[s][if i < k then i else i - 1] == v;
      }
    }
  }

  // Counting on the plain map.

  function WithScore(m: Scores, s: nat): set<int> {
    set u | u in m && m[u] == s
  }

  function InBucket(m: Scores, b: nat): set<int> {
    set u | u in m && Bucket(m[u]) == b
  }

  function Above(m: Scores, s: nat): set<int> {
    set u | u in m && m[u] > s
  }

  function AboveBucket(m: Scores, b: int): set<int> {
    set u | u in m && Bucket(m[u]) > b
  }

  lemma ListCount(x: Index, s: nat)
    requires x.Consistent() && s in x.lists
    ensures |x.lists[s]| == |WithScore(x.m, s)|
  {
    assert x.Listed(s);
    DistinctCount(x.lists[s]);
    forall u ensures u in Elements(x.lists[s]) <==> u in WithScore(x.m, s) {
      if u in WithScore(x.m, s) {
        assert x.Bound(u);
      }
    }
    assert Elements(x.lists[s]) == WithScore(x.m, s);
  }

  lemma AboveLastBucket(m: Scores)
    ensures AboveBucket(m, IDX_LEN - 1) == {}
  {
    assert forall u <- m :: Bucket(m[u]) < IDX_LEN;
  }

  lemma AboveBucketStep(m: Scores, b: nat)
    ensures |AboveBucket(m, b as int - 1)| == |AboveBucket(m, b)| + |InBucket(m, b)|
  {
    assert AboveBucket(m, b as int - 1) == AboveBucket(m, b) + InBucket(m, b);
    assert AboveBucket(m, b) !! InBucket(m, b);
  }

  lemma CountsAfterBind(m: Scores, u: int, s: nat)
    requires u !in m
    ensures forall b :: |InBucket(m[u := s], b)| == |InBucket(m, b)| + if b == Bucket(s) then 1 else 0
  {
    forall b ensures |InBucket(m[u := s], b)| == |InBucket(m, b)| + if b == Bucket(s) then 1 else 0 {
      if b == Bucket(s) {
        assert InBucket(m[u := s], b) == InBucket(m, b) + {u};
      } else {
        assert InBucket(m[u := s], b) == InBucket(m, b);
      }
    }
  }

  lemma CountsAfterUnbind(m: Scores, u: int)
    requires u in m
    ensures forall b :: |InBucket(m - {u}, b)| == |InBucket(m, b)| - if b == Bucket(m[u]) then 1 else 0
  {
    forall b ensures |InBucket(m - {u}, b)| == |InBucket(m, b)| - if b == Bucket(m[u]) then 1 else 0 {
      if b == Bucket(m[u]) {
        assert InBucket(m, b) == InBucket(m - {u}, b) + {u};
      } else {
        assert InBucket(m - {u}, b) == InBucket(m, b);
      }
    }
  }

  // Nobody in the bucket scores more than the first score listed there.
  lemma AboveFirst(x: Index, b: nat)
    requires x.Consistent() && b < IDX_LEN && x.order[b] != []
    ensures Above(x.m, x.order[b][0]) == AboveBucket(x.m, b)
  {
    var s := x.order[b][0];
    forall u <- x.m ensures x.m[u] > s <==> Bucket(x.m[u]) > b {
      assert x.Listed(x.m[u]);
      if x.m[u] > s {
        BucketMonotone(s, x.m[u]);
      } else {
        BucketMonotone(x.m[u], s);
      }
    }
  }

  // Nobody scores strictly between two scores listed next to each other.
  lemma AboveNext(x: Index, b: nat, k: nat)
    requires x.Consistent() && b < IDX_LEN && k + 1 < |x.order[b]|
    ensures |Above(x.m, x.order[b][k + 1])| == |Above(x.m, x.order[b][k])| + |x.lists[x.order[b][k]]|
  {
    var s, t := x.order[b][k], x.order[b][k + 1];
    ListCount(x, s);
    forall u <- x.m ensures x.m[u] > t <==> x.m[u] > s || x.m[u] == s {
      assert x.Listed(x.m[u]);
      if t < x.m[u] < s {
        BucketMonotone(t, x.m[u]);
        BucketMonotone(x.m[u], s);
      }
    }
    assert Above(x.m, t) == Above(x.m, s) + WithScore(x.m, s);
    assert Above(x.m, s) !! WithScore(x.m, s);
  }

  function SumCounts(x: Index, scores: seq<nat>): nat
    requires forall s <- scores :: s in x.lists
  {
    if scores == [] then 0 else |x.lists[scores[0]]| + SumCounts(x, scores[1..])
  }

  // The uids whose score is one of `scores`
  function Scoring(m: Scores, scores: seq<nat>): set<int> {
    set u | u in m && m[u] in scores
  }

  lemma {:induction false} ScoringCount(x: Index, scores: seq<nat>)
    requires x.Consistent() && Decreasing(scores) && forall s <- scores :: s in x.lists
    ensures |Scoring(x.m, scores)| == SumCounts(x, scores)
  {
    if scores == [] {
      assert Scoring(x.m, scores) == {};
    } else {
      ScoringCount(x, scores[1..]);
      ListCount(x, scores[0]);
      assert scores == [scores[0]] + scores[1..];
      assert Scoring(x.m, scores) == Scoring(x.m, scores[1..]) + WithScore(x.m, scores[0]);
      assert Scoring(x.m, scores[1..]) !! WithScore(x.m, scores[0]);
    }
  }

  // A bucket counts as many uids as its score nodes do together.
  lemma BucketTotal(x: Index, b: nat)
    requires x.Consistent() && b < IDX_LEN
    ensures forall s <- x.order[b] :: s in x.lists
    ensures |InBucket(x.m, b)| == SumCounts(x, x.order[b])
  {
    assert x.BucketConsistent(x.order[b], b);
    ScoringCount(x, x.order[b]);
    forall u ensures u in InBucket(x.m, b) <==> u in Scoring(x.m, x.order[b]) {
      if u in x.m {
        assert x.Listed(x.m[u]);
      }
    }
    assert InBucket(x.m, b) == Scoring(x.m, x.order[b]);
  }
}
