/** Command queues and packet reference counts of cs/my_enet/peer.c. */
module ENetPeer {
  import opened Guard
  import opened ENetList

  datatype Channel = Channel(incomingReliable: Node, incomingUnreliable: Node)

  datatype ChannelArray = NullChannels | Channels(a: seq<Channel>)

  const ACKNOWLEDGE: bv8 := 0x80  // ENET_PROTOCOL_COMMAND_FLAG_ACKNOWLEDGE

  class Peer {
    const acknowledgements: Node
    const sentReliable: Node
    const sentUnreliable: Node
    const outgoingReliable: Node
    const outgoingUnreliable: Node
    var channels: ChannelArray
    var channelCount: nat
    var outgoingReliableSequenceNumber: nat
    var outgoingDataTotal: nat
    ghost const base: nat  // the sequence number before the first command
    ghost var issued: nat  // how many commands went out on channel 0xff

    constructor (base: nat)
      requires base < 0x10000
      ensures fresh(OwnLists()) && channels == NullChannels && channelCount == 0
      ensures this.base == base == outgoingReliableSequenceNumber && issued == 0 && outgoingDataTotal == 0
      ensures forall i, j :: 0 <= i < j < |OwnLists()| ==> OwnLists()[i] != OwnLists()[j]
      ensures forall i :: 0 <= i < |OwnLists()| ==> OwnLists()[i].home == null
    {
      var blank := Command(0, 0, null, NO_DETAILS);
      acknowledgements := new Node(blank, 0);
      sentReliable := new Node(blank, 0);
      sentUnreliable := new Node(blank, 0);
      outgoingReliable := new Node(blank, 0);
      outgoingUnreliable := new Node(blank, 0);
      channels, channelCount := NullChannels, 0;
      outgoingReliableSequenceNumber, outgoingDataTotal := base, 0;
      this.base, issued := base, 0;
    }

    ghost function ChannelLists(): seq<Node>
      reads this
    {
      if channels.NullChannels? then [] else ListsOf(channels.a, |channels.a|)
    }

    // The sentinels of all lists of the peer.
    ghost function Lists(): seq<Node>
      reads this
    {
      OwnLists() + ChannelLists()
    }

    ghost function OwnLists(): seq<Node>
    {
      [acknowledgements, sentReliable, sentUnreliable, outgoingReliable, outgoingUnreliable]
    }
  }

  // The lists of the first n channels.
  ghost function ListsOf(a: seq<Channel>, n: nat): seq<Node>
    requires n <= |a|
  {
    if n == 0 then [] else ListsOf(a, n - 1) + [a[n - 1].incomingReliable, a[n - 1].incomingUnreliable]
  }

  // The queued commands that carry packet p.
  ghost function Mentioning(Q: set<Node>, p: Packet): set<Node> {
    set n | n in Q && n.command.packet == p
  }

  lemma MentioningNone(Q: set<Node>, p: Packet)
    requires forall n <- Q :: n.command.packet != p
    ensures Mentioning(Q, p) == {}
  {
  }

  lemma MentioningLess(Q: set<Node>, n: Node, p: Packet)
    requires n in Q
    ensures |Mentioning(Q - {n}, p)| == |Mentioning(Q, p)| - if n.command.packet == p then 1 else 0
  {
    if n.command.packet == p {
      assert Mentioning(Q, p) == Mentioning(Q - {n}, p) + {n};
    } else {
      assert Mentioning(Q, p) == Mentioning(Q - {n}, p);
    }
  }

  lemma MentioningMore(Q: set<Node>, n: Node, p: Packet)
    requires n !in Q
    ensures |Mentioning(Q + {n}, p)| == |Mentioning(Q, p)| + if n.command.packet == p then 1 else 0
  {
    MentioningLess(Q + {n}, n, p);
    assert Q + {n} - {n} == Q;
  }

  lemma MentioningSplit(Q: set<Node>, R: set<Node>, p: Packet)
    requires R <= Q
    ensures |Mentioning(Q, p)| == |Mentioning(R, p)| + |Mentioning(Q - R, p)|
  {
    assert Mentioning(Q, p) == Mentioning(R, p) + Mentioning(Q - R, p);
    assert Mentioning(R, p) !! Mentioning(Q - R, p);
  }

  lemma MentioningDropped(Q: set<Node>, R: set<Node>, S: set<Node>, p: Packet)
    requires S <= R <= Q
    ensures |Mentioning(Q - S, p)| == |Mentioning(Q - R, p)| + |Mentioning(R, p)| - |Mentioning(S, p)|
  {
    MentioningSplit(R, S, p);
    MentioningSplit(Q - S, R - S, p);
    assert Q - S - (R - S) == Q - R;
  }

  // The k-th command issued on channel 0xff, from 0, carries the number base + k + 1 mod 2^16; in each list
  // such commands stand in the order of issue, and none is in both lists.
  ghost predicate InIssueOrder(items: seq<Node>, base: nat, issued: nat) {
    && (forall n <- items :: n.command.channelID == 0xff ==>
          n.issue < issued && n.command.reliableSequenceNumber == (base + n.issue + 1) % 0x10000)
    && (forall i, j :: 0 <= i < j < |items| && items[i].command.channelID == items[j].command.channelID == 0xff ==>
          items[i].issue < items[j].issue)
  }

  ghost predicate Numbered(reliable: seq<Node>, unreliable: seq<Node>, base: nat, issued: nat, last: nat) {
    && last == (base + issued) % 0x10000
    && InIssueOrder(reliable, base, issued) && InIssueOrder(unreliable, base, issued)
    && forall m <- reliable, n <- unreliable :: m.command.channelID == n.command.channelID == 0xff ==> m.issue != n.issue
  }

  lemma NumberedMore(items: seq<Node>, c: Node, base: nat, issued: nat)
    requires InIssueOrder(items, base, issued) && c.command.channelID == 0xff && c.issue == issued
    requires c.command.reliableSequenceNumber == (base + issued + 1) % 0x10000
    ensures InIssueOrder(items + [c], base, issued + 1)
  {
    var r := items + [c];
    forall i, j | 0 <= i < j < |r| && r[i].command.channelID == r[j].command.channelID == 0xff ensures r[i].issue < r[j].issue {
      if j == |items| {
        assert r[i] in items;
      }
    }
  }

  // A command of the list is the one issued k-th, from 0, on channel 0xff.
  ghost predicate IsIssue(items: seq<Node>, k: nat) {
    exists n <- items :: n.command.channelID == 0xff && n.issue == k
  }

  // Between them the two lists hold every command from the first-th to the last one issued, and no other.
  ghost predicate Gapless(reliable: seq<Node>, unreliable: seq<Node>, first: nat, issued: nat) {
    first <= issued && forall k: nat :: IsIssue(reliable, k) || IsIssue(unreliable, k) <==> first <= k < issued
  }

  lemma IsIssueAppend(items: seq<Node>, c: Node, k: nat)
    ensures IsIssue(items + [c], k) <==> IsIssue(items, k) || (c.command.channelID == 0xff && c.issue == k)
  {
    assert c in items + [c];
    if IsIssue(items, k) {
      var n :| n in items && n.command.channelID == 0xff && n.issue == k;
      assert n in items + [c];
    }
  }

  // Issuing a command and putting it at the end of either list leaves no gap.
  lemma GaplessAppend(l: seq<Node>, other: seq<Node>, first: nat, issued: nat, c: Node)
    requires Gapless(l, other, first, issued) && (c.command.channelID == 0xff ==> c.issue == issued)
    ensures Gapless(l + [c], other, first, issued + if c.command.channelID == 0xff then 1 else 0)
  {
    forall k: nat ensures IsIssue(l + [c], k) <==> IsIssue(l, k) || (c.command.channelID == 0xff && c.issue == k) {
      IsIssueAppend(l, c, k);
    }
  }

  // Issuing a command and putting it at the end of either list keeps the numbering.
  lemma NumberedAppend(l: seq<Node>, other: seq<Node>, base: nat, issued: nat, last: nat, c: Node)
    requires Numbered(l, other, base, issued, last)
    requires c.command.channelID == 0xff ==> c.issue == issued && c.command.reliableSequenceNumber == (last + 1) % 0x10000
    ensures if c.command.channelID == 0xff
      then Numbered(l + [c], other, base, issued + 1, c.command.reliableSequenceNumber)
      else Numbered(l + [c], other, base, issued, last)
  {
    if c.command.channelID == 0xff {
      assert (last + 1) % 0x10000 == (base + issued + 1) % 0x10000;
      NumberedMore(l, c, base, issued);
    }
  }

  // The commands on channel 0xff in two such lists carry consecutive numbers, each exactly one of them.
  lemma OneForEach(reliable: seq<Node>, unreliable: seq<Node>, base: nat, first: nat, issued: nat, last: nat, k: nat)
    requires Numbered(reliable, unreliable, base, issued, last) && Gapless(reliable, unreliable, first, issued)
    requires first <= k < issued
    ensures exists n <- reliable + unreliable :: OnlyIssue(n, reliable + unreliable, base, k)
  {
    assert IsIssue(reliable, k) || IsIssue(unreliable, k);
    var n :| n in reliable + unreliable && n.command.channelID == 0xff && n.issue == k;
    assert OnlyIssue(n, reliable + unreliable, base, k);
  }

  // Of the items only n is the k-th command on channel 0xff, and it carries the number of that place.
  ghost predicate OnlyIssue(n: Node, items: seq<Node>, base: nat, k: nat) {
    && n.command.channelID == 0xff && n.issue == k && n.command.reliableSequenceNumber == (base + k + 1) % 0x10000
    && forall m <- items :: m.command.channelID == 0xff && m.issue == k ==> m == n
  }

  // Taking the first command out of a list keeps the numbering, and so does emptying it.
  lemma NumberedLess(items: seq<Node>, base: nat, issued: nat, k: nat)
    requires InIssueOrder(items, base, issued) && k <= |items|
    ensures InIssueOrder(items[k..], base, issued)
  {
    assert forall n <- items[k..] :: n in items;
  }

  // No outgoing list of one peer is one of the other.
  ghost predicate ApartFrom(p: Peer, q: Peer) {
    && p.outgoingReliable != q.outgoingReliable && p.outgoingReliable != q.outgoingUnreliable
    && p.outgoingUnreliable != q.outgoingReliable && p.outgoingUnreliable != q.outgoingUnreliable
  }

  // The outgoing lists of p are numbered up to the last of `issued` commands and, if asked, hold them without a gap.
  ghost predicate OrderedAt(R: map<Node, seq<Node>>, p: Peer, issued: nat, last: nat, gapless: bool) {
    var rel, unrel := p.outgoingReliable, p.outgoingUnreliable;
    && rel in R && unrel in R && rel != unrel && Numbered(R[rel], R[unrel], p.base, issued, last)
    && (gapless ==> exists first: nat :: Gapless(R[rel], R[unrel], first, issued))
  }

  ghost predicate PeerInOrder(R: map<Node, seq<Node>>, p: Peer, gapless: bool)
    reads p`issued, p`outgoingReliableSequenceNumber
  {
    OrderedAt(R, p, p.issued, p.outgoingReliableSequenceNumber, gapless)
  }

  ghost predicate EachInOrder(R: map<Node, seq<Node>>, ps: set<Peer>, gapless: bool)
    reads ps`issued, ps`outgoingReliableSequenceNumber
  {
    && (forall p <- ps :: PeerInOrder(R, p, gapless))
    && (forall p <- ps, q <- ps :: p != q ==> ApartFrom(p, q))
  }

  ghost predicate InOrder(R: map<Node, seq<Node>>, ps: set<Peer>, gapless: bool)
    reads ps`issued, ps`outgoingReliableSequenceNumber
  {
    forall z {:trigger Watch(z)} :: Watch(z) ==> EachInOrder(R, ps, gapless)
  }

  // Emptying a list, or taking its first command, keeps what is numbered.
  lemma OrderedLess(R: map<Node, seq<Node>>, s: Node, k: nat, p: Peer)
    requires s in R && k <= |R[s]| && PeerInOrder(R, p, false)
    ensures PeerInOrder(R[s := R[s][k..]], p, false)
  {
    var S, rel, unrel := R[s := R[s][k..]], p.outgoingReliable, p.outgoingUnreliable;
    if s == rel {
      NumberedLess(R[rel], p.base, p.issued, k);
      assert forall n <- S[rel] :: n in R[rel];
    }
    if s == unrel {
      NumberedLess(R[unrel], p.base, p.issued, k);
      assert forall n <- S[unrel] :: n in R[unrel];
    }
  }

  lemma InOrderLess(R: map<Node, seq<Node>>, s: Node, k: nat, ps: set<Peer>)
    requires s in R && k <= |R[s]| && InOrder(R, ps, false)
    ensures InOrder(R[s := R[s][k..]], ps, false)
  {
    assert Watch(0);
    forall p <- ps ensures PeerInOrder(R[s := R[s][k..]], p, false) {
      OrderedLess(R, s, k, p);
    }
  }

  // The outgoing lists of the peers are among the given ones.
  ghost predicate ListsAmong(ps: set<Peer>, lists: set<Node>) {
    forall p <- ps :: p.outgoingReliable in lists && p.outgoingUnreliable in lists
  }

  // The list is an outgoing list of none of the peers.
  ghost predicate NoneQueues(ps: set<Peer>, s: Node) {
    forall p <- ps :: s != p.outgoingReliable && s != p.outgoingUnreliable
  }

  // None of the lists is an outgoing list of a peer.
  ghost predicate Spares(ps: set<Peer>, lists: seq<Node>) {
    forall s <- lists :: NoneQueues(ps, s)
  }

  lemma InOrderBeside(R: map<Node, seq<Node>>, s: Node, items: seq<Node>, ps: set<Peer>, gapless: bool)
    requires InOrder(R, ps, gapless) && (s in R ==> NoneQueues(ps, s))
    ensures InOrder(R[s := items], ps, gapless)
  {
    assert Watch(0);
    forall p <- ps ensures PeerInOrder(R[s := items], p, gapless) {
      assert PeerInOrder(R, p, gapless);
    }
  }

  // What issuing does to the numbers: on channel 0xff the command gets the next one, elsewhere none.
  ghost predicate Issued(peer: Peer, c: Node, issued: nat, last: nat, stale: nat)
    reads peer`issued, peer`outgoingReliableSequenceNumber
  {
    if c.command.channelID == 0xff then
      && c.issue == issued && peer.issued == issued + 1
      && c.command.reliableSequenceNumber == peer.outgoingReliableSequenceNumber == (last + 1) % 0x10000
    else
      && peer.issued == issued && c.command.reliableSequenceNumber == stale
      && peer.outgoingReliableSequenceNumber == last
  }

  // A command issued and put at the end of an outgoing list leaves the peer in order.
  lemma OrderedMore(R: map<Node, seq<Node>>, peer: Peer, s: Node, c: Node, issued: nat, last: nat, stale: nat,
      gapless: bool)
    requires OrderedAt(R, peer, issued, last, gapless) && Issued(peer, c, issued, last, stale)
    requires s == peer.outgoingReliable || s == peer.outgoingUnreliable
    ensures PeerInOrder(R[s := R[s] + [c]], peer, gapless)
  {
    var other := if s == peer.outgoingReliable then peer.outgoingUnreliable else peer.outgoingReliable;
    NumberedAppend(R[s], R[other], peer.base, issued, last, c);
    if gapless {
      var first: nat :| Gapless(R[peer.outgoingReliable], R[peer.outgoingUnreliable], first, issued);
      GaplessAppend(R[s], R[other], first, issued, c);
      var S := R[s := R[s] + [c]];
      assert Gapless(S[peer.outgoingReliable], S[peer.outgoingUnreliable], first, peer.issued);
    }
  }

  // A peer apart from the others.
  ghost predicate ApartFromAll(ps: set<Peer>, peer: Peer) {
    forall p <- ps :: p != peer ==> ApartFrom(p, peer)
  }

  lemma InOrderOthers(R: map<Node, seq<Node>>, ps: set<Peer>, peer: Peer, gapless: bool)
    requires InOrder(R, ps, gapless) && peer in ps
    ensures InOrder(R, ps - {peer}, gapless) && PeerInOrder(R, peer, gapless) && ApartFromAll(ps, peer)
  {
    assert Watch(0);
  }

  // When a list of one peer changes, the other peers stay in order.
  lemma InOrderAgain(R: map<Node, seq<Node>>, s: Node, items: seq<Node>, ps: set<Peer>, peer: Peer, gapless: bool)
    requires InOrder(R, ps - {peer}, gapless) && PeerInOrder(R[s := items], peer, gapless) && ApartFromAll(ps, peer)
    requires s == peer.outgoingReliable || s == peer.outgoingUnreliable
    ensures InOrder(R[s := items], ps, gapless)
  {
    assert Watch(0);
    forall p <- ps | p != peer
      ensures PeerInOrder(R[s := items], p, gapless) && ApartFrom(p, peer) && ApartFrom(peer, p)
    {
      assert PeerInOrder(R, p, gapless);
    }
  }

  // All lists of all peers, and the packets their commands share.
  class Host {
    ghost var rings: map<Node, seq<Node>>  // the items of each list, by its sentinel
    ghost var nodes: set<Node>
    ghost var queued: set<Node>            // the commands in some list
    ghost var packets: set<Packet>
    ghost var holds: map<Packet, nat>      // references held outside the lists
    ghost var peers: set<Peer>

    // The lists R, of nodes N with the queued commands Q, the packets P and the outside holds H belong together.
    static ghost predicate WorldOf(R: map<Node, seq<Node>>, N: set<Node>, Q: set<Node>, P: set<Packet>,
        H: map<Packet, nat>)
      requires H.Keys == P
      reads N, P
    {
      && (forall s <- R :: Ring(s, R[s], N))
      && (forall s, i :: s in R && 0 <= i < |R[s]| ==> R[s][i] in Q)
      && (forall n {:trigger InList(R, N, n)} :: n in Q ==> InList(R, N, n))
      && (forall n <- Q :: n.command.packet != null ==> n.command.packet in P)
      && (forall p <- P :: p.referenceCount == H[p] + |Mentioning(Q, p)|)
      && (forall p <- P :: p.destroyed <= 1 && (p.destroyed == 1 ==> p.referenceCount == 0))
    }

    static ghost predicate InList(R: map<Node, seq<Node>>, N: set<Node>, n: Node)
      reads N
    {
      n in N && n.home != null && n.home in R && n in R[n.home]
    }

    static ghost predicate Together(R: map<Node, seq<Node>>, N: set<Node>, Q: set<Node>, P: set<Packet>,
        H: map<Packet, nat>)
      reads N, P
    {
      H.Keys == P && forall z {:trigger Look(z)} :: Look(z) ==> WorldOf(R, N, Q, P, H)
    }

    ghost predicate Valid()
      reads this, nodes, packets
    {
      Together(rings, nodes, queued, packets, holds)
    }

    // The numbering of the outgoing commands of a peer.
    ghost predicate Numbers(peer: Peer)
      reads this, peer`issued, peer`outgoingReliableSequenceNumber
    {
      PeerInOrder(rings, peer, false)
    }

    // The same, and the commands in the two lists are the last ones issued, without a gap.
    ghost predicate Consecutive(peer: Peer)
      reads this, peer`issued, peer`outgoingReliableSequenceNumber
    {
      PeerInOrder(rings, peer, true)
    }

    // Over any run the commands of every peer are numbered.
    ghost predicate AllNumbered()
      reads this, peers`issued, peers`outgoingReliableSequenceNumber
    {
      InOrder(rings, peers, false)
    }

    // Over any run in which only a reset takes commands out of outgoing lists, their numbers are consecutive.
    ghost predicate AllConsecutive()
      reads this, peers`issued, peers`outgoingReliableSequenceNumber
    {
      InOrder(rings, peers, true)
    }

    // What is in order stays so.
    twostate predicate KeepsOrder()
      reads this, peers`issued, peers`outgoingReliableSequenceNumber
    {
      (old(AllNumbered()) ==> AllNumbered()) && (old(AllConsecutive()) ==> AllConsecutive())
    }

    constructor ()
      ensures Valid() && AllNumbered() && AllConsecutive()
      ensures rings == map[] && queued == {} && packets == {} && nodes == {} && peers == {}
    {
      rings, nodes, queued, packets, holds, peers := map[], {}, {}, {}, map[], {};
    }

    // A packet joins with the references its creator holds.
    ghost method AddPacket(p: Packet)
      requires Valid() && p !in packets && p.destroyed == 0
      modifies `packets, `holds
      ensures Valid() && KeepsOrder() && packets == old(packets) + {p} && holds == old(holds)[p := p.referenceCount]
    {
      assert Look(0);
      MentioningNone(queued, p);
      assert Together(rings, nodes, queued, packets + {p}, holds[p := p.referenceCount]);
      packets, holds := packets + {p}, holds[p := p.referenceCount];
    }

    // A list joins, cleared.
    method AddList(s: Node)
      requires Valid() && s !in nodes && s.home == null
      modifies `rings, `nodes, s
      ensures Valid() && rings == old(rings)[s := []] && nodes == old(nodes) + {s} && s !in old(rings)
      ensures KeepsOrder()
    {
      Clear(s, nodes + {s});
      ListAdded(s);
      AdoptList(s);
      KeptBeside(old(rings), s, []);
    }

    // Changing a list that is no outgoing list keeps what was in order.
    lemma KeptBeside(R: map<Node, seq<Node>>, s: Node, items: seq<Node>)
      requires rings == R[s := items]
      ensures (s in R ==> NoneQueues(peers, s)) && InOrder(R, peers, false) ==> AllNumbered()
      ensures (s in R ==> NoneQueues(peers, s)) && InOrder(R, peers, true) ==> AllConsecutive()
    {
      if s in R ==> NoneQueues(peers, s) {
        if InOrder(R, peers, false) {
          InOrderBeside(R, s, items, peers, false);
        }
        if InOrder(R, peers, true) {
          InOrderBeside(R, s, items, peers, true);
        }
      }
    }

    // Emptying a list, or taking its first command, leaves every peer's numbering in order.
    lemma NumbersKept(R: map<Node, seq<Node>>, s: Node, k: nat)
      requires s in R && k <= |R[s]| && rings == R[s := R[s][k..]]
      ensures InOrder(R, peers, false) ==> AllNumbered()
    {
      if InOrder(R, peers, false) {
        InOrderLess(R, s, k, peers);
      }
    }

    // What enet_host_create does for one peer: its memory is zeroed but for the base number, and its five lists
    // are cleared.
    method AddPeer(base: nat) returns (peer: Peer)
      requires Valid() && base < 0x10000
      modifies `rings, `nodes, `peers
      ensures Valid() && fresh(peer) && peers == old(peers) + {peer} && peer.base == base
      ensures peer.issued == 0 && peer.channels == NullChannels && peer.channelCount == 0
      ensures fresh(nodes - old(nodes)) && nodes == old(nodes) + ItemSet(peer.OwnLists())
      ensures forall i, j :: 0 <= i < j < |peer.OwnLists()| ==> peer.OwnLists()[i] != peer.OwnLists()[j]
      ensures forall s <- peer.OwnLists() :: s in rings && s !in old(rings) && rings[s] == []
      ensures forall s <- old(rings) :: s in rings && rings[s] == old(rings)[s]
      ensures Consecutive(peer) && KeepsOrder()
    {
      ghost var before := rings.Keys;
      ListsIn(peers);
      peer := Blank(base);
      AdoptPeer(peer, before);
    }

    method Blank(base: nat) returns (peer: Peer)
      requires Valid() && base < 0x10000
      modifies `rings, `nodes
      ensures Valid() && fresh(peer) && KeepsOrder() && peer.base == base
      ensures peer.issued == 0 && peer.outgoingReliableSequenceNumber == base
      ensures peer.channels == NullChannels && peer.channelCount == 0
      ensures fresh(nodes - old(nodes)) && nodes == old(nodes) + ItemSet(peer.OwnLists())
      ensures forall i, j :: 0 <= i < j < |peer.OwnLists()| ==> peer.OwnLists()[i] != peer.OwnLists()[j]
      ensures forall s <- peer.OwnLists() :: s in rings && s !in old(rings) && rings[s] == []
      ensures forall s <- old(rings) :: s in rings && rings[s] == old(rings)[s]
    {
      peer := new Peer(base);
      var l := [peer.acknowledgements, peer.sentReliable, peer.sentUnreliable, peer.outgoingReliable,
        peer.outgoingUnreliable];
      assert l == peer.OwnLists();
      AddLists(l);
    }

    // Lines 55-59 of host.c.
    method AddLists(l: seq<Node>)
      requires Valid() && forall i :: 0 <= i < |l| ==> l[i] !in nodes && l[i].home == null
      requires forall i, j :: 0 <= i < j < |l| ==> l[i] != l[j]
      modifies `rings, `nodes, l
      ensures Valid() && KeepsOrder() && nodes == old(nodes) + ItemSet(l)
      ensures forall i :: 0 <= i < |l| ==> l[i] in rings && l[i] !in old(rings) && rings[l[i]] == []
      ensures forall s <- old(rings) :: s in rings && rings[s] == old(rings)[s]
    {
      for i := 0 to |l|
        invariant Valid() && KeepsOrder() && nodes == old(nodes) + ItemSet(l[..i])
        invariant forall j :: i <= j < |l| ==> l[j] !in nodes && l[j].home == null
        invariant forall j :: 0 <= j < i ==> l[j] in rings && l[j] !in old(rings) && rings[l[j]] == []
        invariant forall s <- old(rings) :: s in rings && rings[s] == old(rings)[s]
      {
        AddList(l[i]);
        ItemSetMore(l, i);
      }
      assert l[..|l|] == l;
    }

    lemma ListsIn(ps: set<Peer>)
      ensures InOrder(rings, ps, false) || InOrder(rings, ps, true) ==> ListsAmong(ps, rings.Keys)
    {
      assert Watch(0);
      assert InOrder(rings, ps, false) ==> forall p <- ps :: PeerInOrder(rings, p, false);
      assert InOrder(rings, ps, true) ==> forall p <- ps :: PeerInOrder(rings, p, true);
    }

    // Two empty lists of a peer that has issued nothing are in order.
    lemma FreshNumbered(peer: Peer)
      requires peer.outgoingReliable in rings && peer.outgoingUnreliable in rings
      requires peer.outgoingReliable != peer.outgoingUnreliable
      requires rings[peer.outgoingReliable] == [] && rings[peer.outgoingUnreliable] == []
      requires peer.issued == 0 && peer.outgoingReliableSequenceNumber == peer.base < 0x10000
      ensures Numbers(peer) && Consecutive(peer)
    {
      assert Gapless([], [], 0, 0);
    }

    lemma InOrderWith(peer: Peer, before: set<Node>, gapless: bool)
      requires peer !in peers && peer.outgoingReliable !in before && peer.outgoingUnreliable !in before
      requires PeerInOrder(rings, peer, gapless)
      requires InOrder(rings, peers, gapless) && ListsAmong(peers, before)
      ensures InOrder(rings, peers + {peer}, gapless)
    {
      assert Watch(0);
    }

    ghost method AdoptPeer(peer: Peer, before: set<Node>)
      requires Valid() && peer !in peers
      requires forall s <- peer.OwnLists() :: s in rings && s !in before && rings[s] == []
      requires peer.OwnLists()[3] != peer.OwnLists()[4]
      requires peer.issued == 0 && peer.outgoingReliableSequenceNumber == peer.base < 0x10000
      modifies `peers
      ensures Valid() && peers == old(peers) + {peer} && Consecutive(peer)
      ensures ListsAmong(old(peers), before) ==> KeepsOrder()
    {
      assert peer.OwnLists()[3] == peer.outgoingReliable && peer.OwnLists()[4] == peer.outgoingUnreliable;
      FreshNumbered(peer);
      if ListsAmong(peers, before) {
        if AllNumbered() {
          InOrderWith(peer, before, false);
        }
        if AllConsecutive() {
          InOrderWith(peer, before, true);
        }
      }
      peers := peers + {peer};
    }

    twostate lemma ListAdded(s: Node)
      requires old(Valid()) && SameBooks() && s !in nodes
      requires forall p <- packets :: p.referenceCount == old(p.referenceCount) && p.destroyed == old(p.destroyed)
      requires forall n <- nodes :: Same(n)
      ensures Valid() && s !in rings && s !in queued
      ensures forall t <- rings :: Ring(t, rings[t], nodes + {s})
    {
      assert Look(0);
      forall t <- rings ensures Ring(t, rings[t], nodes) {
        assert old(Ring(t, rings[t], nodes));
        forall i: int {:trigger LinkAt(t, rings[t], i, nodes)} | -1 <= i < |rings[t]| ensures LinkAt(t, rings[t], i, nodes) {
          assert old(LinkAt(t, rings[t], i, nodes));
        }
      }
      forall t <- rings ensures Ring(t, rings[t], nodes + {s}) {
        RingWidened(t, rings[t], nodes, nodes + {s});
      }
      forall m {:trigger InList(rings, nodes, m)} | m in queued ensures InList(rings, nodes, m) {
        assert old(InList(rings, nodes, m));
      }
      assert forall m <- queued :: InList(rings, nodes, m) ==> m in nodes;
    }

    lemma ListTogether(s: Node)
      requires Valid() && s !in rings && s !in queued && Ring(s, [], nodes + {s})
      requires forall t <- rings :: Ring(t, rings[t], nodes + {s})
      ensures Together(rings[s := []], nodes + {s}, queued, packets, holds)
    {
      assert Look(0);
      forall m {:trigger InList(rings[s := []], nodes + {s}, m)} | m in queued
        ensures InList(rings[s := []], nodes + {s}, m)
      {
        assert InList(rings, nodes, m);
      }
    }

    ghost method AdoptList(s: Node)
      requires Valid() && s !in rings && s !in queued && Ring(s, [], nodes + {s})
      requires forall t <- rings :: Ring(t, rings[t], nodes + {s})
      modifies `rings, `nodes
      ensures Valid() && rings == old(rings)[s := []] && nodes == old(nodes) + {s}
    {
      ListTogether(s);
      rings, nodes := rings[s := []], nodes + {s};
    }

    // A packet is destroyed in the step that takes its last reference, and no reference is added.
    twostate predicate Released()
      reads this, packets
    {
      && packets == old(packets) && holds == old(holds)
      && forall p <- packets :: p.referenceCount <= old(p.referenceCount) &&
          p.destroyed == old(p.destroyed) + if old(p.referenceCount) > 0 && p.referenceCount == 0 then 1 else 0
    }

    // The world when the first item of list s has been taken out of its ring and has dropped its reference.
    ghost predicate WorldWithoutFirst(s: Node)
      requires holds.Keys == packets && s in rings && rings[s] != []
      reads this, nodes, packets
    {
      var n := rings[s][0];
      && (forall t <- rings :: Ring(t, if t == s then rings[t][1..] else rings[t], nodes))
      && (forall t, i :: t in rings && 0 <= i < |rings[t]| ==> rings[t][i] in queued)
      && (forall i :: 0 < i < |rings[s]| ==> rings[s][i] != n)
      && (forall t, i :: t in rings && t != s && 0 <= i < |rings[t]| ==> rings[t][i] != n)
      && (forall m {:trigger InList(rings, nodes, m)} :: m in queued && m != n ==> InList(rings, nodes, m))
      && (forall m <- queued :: m.command.packet != null ==> m.command.packet in packets)
      && (forall p <- packets :: p.referenceCount == holds[p] + |Mentioning(queued - {n}, p)|)
      && (forall p <- packets :: p.destroyed <= 1 && (p.destroyed == 1 ==> p.referenceCount == 0))
    }

    lemma DiscardTogether(s: Node)
      requires holds.Keys == packets && s in rings && rings[s] != []
      requires forall z {:trigger Look(z)} :: Look(z) ==> WorldWithoutFirst(s)
      ensures Together(rings[s := rings[s][1..]], nodes, queued - {rings[s][0]}, packets, holds)
    {
      assert Look(0);
      var items, n := rings[s], rings[s][0];
      var R := rings[s := items[1..]];
      forall m {:trigger InList(R, nodes, m)} | m in queued - {n} ensures InList(R, nodes, m) {
        assert InList(rings, nodes, m);
        if m.home == s {
          var i :| 0 <= i < |items| && items[i] == m;
          assert items[1..][i - 1] == m;
        }
      }
    }

    ghost method AdoptDiscard(s: Node)
      requires holds.Keys == packets && s in rings && rings[s] != []
      requires forall z {:trigger Look(z)} :: Look(z) ==> WorldWithoutFirst(s)
      modifies `rings, `queued
      ensures Valid()
      ensures rings == old(rings)[s := old(rings)[s][1..]] && queued == old(queued) - {old(rings)[s][0]}
    {
      DiscardTogether(s);
      rings, queued := rings[s := rings[s][1..]], queued - {rings[s][0]};
    }

    // What the world says of the first item of list s.
    lemma FirstOf(s: Node)
      requires Valid() && s in rings && rings[s] != []
      ensures Ring(s, rings[s], nodes) && rings[s][0] in queued && rings[s][0] in nodes
      ensures var p := rings[s][0].command.packet; p != null ==>
        p in packets && p.referenceCount == holds[p] + |Mentioning(queued, p)| && p.referenceCount > 0 && p.destroyed == 0
    {
      assert Look(0);
      var p := rings[s][0].command.packet;
      if p != null {
        assert rings[s][0] in Mentioning(queued, p);
      }
    }

    // Taking the first item of list s out of its ring and dropping its reference.
    twostate lemma FirstDiscarded(s: Node)
      requires old(Valid()) && SameBooks() && s in rings && rings[s] != []
      requires Ring(s, rings[s][1..], nodes)
      requires forall n <- nodes :: old(n.home) != s && old(n.home) != null ==> Same(n)
      requires forall n <- nodes :: n != rings[s][0] ==> n.home == old(n.home)
      requires forall p <- packets ::
        if p == rings[s][0].command.packet
        then p.referenceCount == old(p.referenceCount) - 1 && p.destroyed == old(p.destroyed) + if p.referenceCount == 0 then 1 else 0
        else p.referenceCount == old(p.referenceCount) && p.destroyed == old(p.destroyed)
      ensures forall z {:trigger Look(z)} :: Look(z) ==> WorldWithoutFirst(s)
    {
      assert Look(0);
      var n := rings[s][0];
      forall t <- rings | t != s ensures Ring(t, rings[t], nodes) {
        assert old(Ring(t, rings[t], nodes));
        forall i: int {:trigger LinkAt(t, rings[t], i, nodes)} | -1 <= i < |rings[t]| ensures LinkAt(t, rings[t], i, nodes) {
          assert old(LinkAt(t, rings[t], i, nodes));
        }
      }
      forall t, i | t in rings && t != s && 0 <= i < |rings[t]| ensures rings[t][i] != n {
        assert old(Ring(t, rings[t], nodes)) && old(Ring(s, rings[s], nodes));
      }
      assert old(Ring(s, rings[s], nodes));
      forall m {:trigger InList(rings, nodes, m)} | m in queued && m != n ensures InList(rings, nodes, m) {
        assert old(InList(rings, nodes, m));
      }
      forall p <- packets ensures p.referenceCount == holds[p] + |Mentioning(queued - {n}, p)| {
        MentioningLess(queued, n, p);
      }
    }

    twostate predicate SameBooks()
      reads this
    {
      rings == old(rings) && nodes == old(nodes) && queued == old(queued) && packets == old(packets) && holds == old(holds)
    }

    // The last reference to go takes the packet with it (lines 18-22 and 37-41).
    static method DropReference(packet: Packet)
      requires packet.referenceCount > 0
      modifies packet
      ensures packet.referenceCount == old(packet.referenceCount) - 1
      ensures packet.destroyed == old(packet.destroyed) + if packet.referenceCount == 0 then 1 else 0
    {
      packet.referenceCount := packet.referenceCount - 1;
      if packet.referenceCount == 0 {
        packet.destroyed := packet.destroyed + 1;
      }
    }

    // enet_list_remove(enet_list_begin(queue))
    method RemoveFirst(s: Node) returns (command: Node)
      requires Valid() && s in rings && rings[s] != [] && Ring(s, rings[s], nodes) && rings[s][0] in nodes
      modifies nodes
      ensures command == rings[s][0] && Ring(s, rings[s][1..], nodes)
      ensures forall n <- nodes :: old(n.home) != s && old(n.home) != null ==> Same(n)
      ensures forall n <- nodes :: n != command ==> n.home == old(n.home)
    {
      ghost var items := rings[s];
      assert LinkAt(s, items, -1, nodes);
      WithoutFirst(items);
      command := Remove(s.next, s, items, 0, nodes);
    }

    // One turn of the loops that empty a queue: the first command leaves it and drops its reference.
    method Discard(s: Node)
      requires Valid() && s in rings && rings[s] != []
      modifies `rings, `queued, nodes, packets
      ensures Valid() && Released() && (old(AllNumbered()) ==> AllNumbered())
      ensures NoneQueues(peers, s) ==> KeepsOrder()
      ensures rings == old(rings)[s := old(rings)[s][1..]] && queued == old(queued) - {old(rings)[s][0]}
    {
      Unlink(s);
      NumbersKept(old(rings), s, 1);
      KeptBeside(old(rings), s, old(rings)[s][1..]);
    }

    method Unlink(s: Node)
      requires Valid() && s in rings && rings[s] != []
      modifies `rings, `queued, nodes, packets
      ensures Valid() && Released()
      ensures rings == old(rings)[s := old(rings)[s][1..]] && queued == old(queued) - {old(rings)[s][0]}
    {
      FirstOf(s);
      var command := RemoveFirst(s);
      if command.command.packet != null {
        DropReference(command.command.packet);
      }
      assert forall p <- packets :: p != command.command.packet ==>
        p.referenceCount == old(p.referenceCount) && p.destroyed == old(p.destroyed);
      FirstDiscarded(s);
      AdoptDiscard(s);
    }

    // Since `start` the lists in `done` have been emptied, no other list has changed, each packet has lost
    // one reference for each command dropped, and it has been destroyed exactly when its last one went.
    ghost predicate ProgressNow(start: Start, done: seq<Node>)
      reads this, packets
    {
      && rings.Keys == start.rings.Keys && packets == start.counts.Keys == start.gone.Keys
      && (forall t <- rings :: rings[t] == if t in done then [] else start.rings[t])
      && queued == start.queued - ItemsOf(start.rings, done)
      && (forall p <- packets :: CountOf(start, p))
    }

    ghost predicate Progress(start: Start, done: seq<Node>)
      reads this, packets
    {
      rings.Keys == start.rings.Keys && forall z {:trigger Gaze(z)} :: Gaze(z) ==> ProgressNow(start, done)
    }

    ghost function Now(): (start: Start)
      requires Valid()
      reads this, nodes, packets
      ensures Progress(start, [])
    {
      assert forall p <- packets :: Mentioning(queued - queued, p) == {};
      Start(rings, queued, map p | p in packets :: p.referenceCount, map p | p in packets :: p.destroyed)
    }

    // The loops of enet_peer_reset_outgoing_commands, enet_peer_reset_incoming_commands, and the first loop
    // of enet_peer_reset_queues, whose acknowledgements carry no packet.
    method Empty(s: Node)
      requires Valid() && s in rings
      modifies `rings, `queued, nodes, packets
      ensures Valid() && Released()
      ensures rings == old(rings)[s := []] && queued == old(queued) - ItemSet(old(rings)[s])
    {
      ghost var items := rings[s];
      ghost var k := 0;
      EmptyWhen(s);
      while s.next != s
        invariant Valid() && Released() && s in rings && (s.next == s <==> rings[s] == [])
        invariant k <= |items| && rings[s] == items[k..] && rings == old(rings)[s := items[k..]]
        invariant queued == old(queued) - ItemSet(items[..k])
        decreases |rings[s]|
      {
        DropOne(old(queued), items, k);
        Unlink(s);
        EmptyWhen(s);
        k := k + 1;
      }
      assert items[..k] == items;
    }

    lemma DropOne(was: set<Node>, items: seq<Node>, k: nat)
      requires k < |items|
      ensures items[k..][0] == items[k] && items[k..][1..] == items[k + 1..]
      ensures was - ItemSet(items[..k]) - {items[k]} == was - ItemSet(items[..k + 1])
    {
      ItemSetMore(items, k);
    }

    // The same lists, nodes, packets and peers as before.
    twostate predicate SameSets()
      reads this
    {
      rings.Keys == old(rings.Keys) && nodes == old(nodes) && packets == old(packets) && peers == old(peers)
    }

    // What emptying a list means for the counts and the numbering.
    method ResetList(s: Node, ghost start: Start, ghost done: seq<Node>)
      requires Valid() && s in rings && Progress(start, done)
      modifies `rings, `queued, nodes, packets
      ensures Valid() && Progress(start, done + [s]) && SameSets()
      ensures (old(AllNumbered()) ==> AllNumbered()) && (NoneQueues(peers, s) ==> KeepsOrder())
    {
      EmptyCounted(s, start, done);
      assert old(rings)[s][|old(rings)[s]|..] == [];
      NumbersKept(old(rings), s, |old(rings)[s]|);
      KeptBeside(old(rings), s, []);
    }

    method EmptyCounted(s: Node, ghost start: Start, ghost done: seq<Node>)
      requires Valid() && s in rings && Progress(start, done)
      modifies `rings, `queued, nodes, packets
      ensures Valid() && Progress(start, done + [s]) && SameSets() && rings == old(rings)[s := []]
    {
      Counted();
      Empty(s);
      Counted();
      ProgressMore(s, SoFar(start, done));
    }

    lemma Counted()
      requires Valid()
      ensures forall p <- packets :: p.referenceCount == holds[p] + |Mentioning(queued, p)|
    {
      assert Look(0);
    }

    lemma EmptyWhen(s: Node)
      requires Valid() && s in rings
      ensures s in nodes && s.next != null && (s.next == s <==> rings[s] == [])
    {
      assert Look(0);
      assert LinkAt(s, rings[s], -1, nodes);
    }

    // What the books say when one more list has been emptied.
    lemma BooksMore(start: Start, done: seq<Node>, was: set<Node>, R: map<Node, seq<Node>>, s: Node)
      requires s in R && R.Keys == start.rings.Keys && (forall t <- R :: R[t] == if t in done then [] else start.rings[t])
      requires was == start.queued - ItemsOf(start.rings, done)
      requires rings == R[s := []] && queued == was - ItemSet(R[s])
      ensures rings.Keys == start.rings.Keys && forall t <- rings :: rings[t] == if t in done + [s] then [] else start.rings[t]
      ensures queued == start.queued - ItemsOf(start.rings, done + [s])
    {
      assert (done + [s])[..|done|] == done;
      if s in done {
        ItemsOfContains(start.rings, done, s);
      }
    }

    twostate lemma ProgressMore(new s: Node, was: SoFar)
      requires s in old(rings) && old(Progress(was.start, was.done)) && Released() && holds.Keys == packets
      requires old(forall p <- packets :: p.referenceCount == holds[p] + |Mentioning(queued, p)|)
      requires forall p <- packets :: p.referenceCount == holds[p] + |Mentioning(queued, p)|
      requires rings == old(rings)[s := []] && queued == old(queued) - ItemSet(old(rings)[s])
      ensures Progress(was.start, was.done + [s])
    {
      assert Gaze(0);
      var start, before := was.start, old(queued);
      BooksMore(start, was.done, before, old(rings), s);
      forall p <- packets ensures CountOf(start, p) {
        MentioningDropped(start.queued, before, queued, p);
      }
      ProgressAgain(start, was.done + [s]);
    }

    ghost predicate CountOf(start: Start, p: Packet)
      requires p in start.counts && p in start.gone
      reads this, p
    {
      && p.referenceCount == start.counts[p] - |Mentioning(start.queued - queued, p)|
      && p.destroyed == start.gone[p] + if start.counts[p] > 0 && p.referenceCount == 0 then 1 else 0
    }

    lemma ProgressAgain(start: Start, done: seq<Node>)
      requires rings.Keys == start.rings.Keys && packets == start.counts.Keys == start.gone.Keys
      requires forall t <- rings :: rings[t] == if t in done then [] else start.rings[t]
      requires queued == start.queued - ItemsOf(start.rings, done)
      requires forall p <- packets :: CountOf(start, p)
      ensures Progress(start, done)
    {
    }

    // enet_peer_reset_queues
    method ResetQueues(peer: Peer, ghost start: Start)
      requires Valid() && Progress(start, []) && forall s <- peer.Lists() :: s in rings
      requires peer.channels.Channels? ==> peer.channelCount == |peer.channels.a|
      modifies `rings, `queued, nodes, packets, peer`channels, peer`channelCount
      ensures Valid() && Progress(start, old(peer.Lists())) && (old(AllNumbered()) ==> AllNumbered())
      ensures peer.channels == NullChannels && peer.channelCount == 0
      ensures IsEmpty(peer.acknowledgements) && IsEmpty(peer.sentReliable) && IsEmpty(peer.sentUnreliable)
      ensures IsEmpty(peer.outgoingReliable) && IsEmpty(peer.outgoingUnreliable)
      ensures old(peer.channels).Channels? ==>
        forall c <- old(peer.channels.a) :: IsEmpty(c.incomingReliable) && IsEmpty(c.incomingUnreliable)
      ensures OnlyEmptied(old(peer.Lists())) && AllDropped()
      ensures old(Numbers(peer)) ==> Consecutive(peer)
      ensures forall p <- peers :: Spares({p}, old(peer.Lists())) && old(Consecutive(p)) ==> Consecutive(p)
      ensures old(AllConsecutive() && OwnOnly(peer)) ==> AllConsecutive()
    {
      ghost var lists := peer.Lists();
      StartIs(start);
      assert peer.OwnLists()[3] in lists && peer.OwnLists()[4] in lists;
      ResetLists(peer, start);
      ResetInOrder(peer, start, lists);
    }

    // Without the numbering.
    method ResetLists(peer: Peer, ghost start: Start)
      requires Valid() && Progress(start, []) && forall s <- peer.Lists() :: s in rings
      requires peer.channels.Channels? ==> peer.channelCount == |peer.channels.a|
      modifies `rings, `queued, nodes, packets, peer`channels, peer`channelCount
      ensures Valid() && Progress(start, old(peer.Lists())) && (old(AllNumbered()) ==> AllNumbered())
      ensures peer.channels == NullChannels && peer.channelCount == 0 && peers == old(peers)
      ensures IsEmpty(peer.acknowledgements) && IsEmpty(peer.sentReliable) && IsEmpty(peer.sentUnreliable)
      ensures IsEmpty(peer.outgoingReliable) && IsEmpty(peer.outgoingUnreliable)
      ensures old(peer.channels).Channels? ==>
        forall c <- old(peer.channels.a) :: IsEmpty(c.incomingReliable) && IsEmpty(c.incomingUnreliable)
      ensures OnlyEmptied(old(peer.Lists())) && AllDropped()
    {
      ghost var lists, channels := peer.Lists(), peer.channels;
      StartIs(start);
      ResetAll(peer, start);
      ResetMeans(start, lists);
      OwnEmpty(peer, lists);
      ChannelsEmpty(channels, lists);
      ghost var gone := old(queued) - queued;
      forall p <- packets ensures Dropped(p, |Mentioning(gone, p)|) {
        assert CountOf(start, p);
      }
    }

    ghost predicate IsEmpty(s: Node)
      reads this
    {
      s in rings && rings[s] == []
    }

    // Only these lists have changed, and only their commands have gone.
    twostate predicate OnlyEmptied(lists: seq<Node>)
      requires forall s <- lists :: s in old(rings)
      reads this
    {
      && rings.Keys == old(rings.Keys) && (forall t <- rings :: t !in lists ==> rings[t] == old(rings)[t])
      && queued == set n <- old(queued) | forall s <- lists :: n !in old(rings)[s]
    }

    // Each packet has lost a reference for each command that has gone and carried it.
    twostate predicate AllDropped()
      requires packets == old(packets)
      reads this, packets
    {
      forall p <- packets :: Dropped(p, |Mentioning(old(queued) - queued, p)|)
    }

    // The packet has lost n references, and it has been destroyed if they were the last ones.
    twostate predicate Dropped(p: Packet, n: nat)
      reads p
    {
      && p.referenceCount == old(p.referenceCount) - n
      && p.destroyed == old(p.destroyed) + if old(p.referenceCount) > 0 && p.referenceCount == 0 then 1 else 0
    }

    lemma ResetMeans(start: Start, done: seq<Node>)
      requires Progress(start, done)
      ensures forall t <- rings :: rings[t] == if t in done then [] else start.rings[t]
      ensures queued == set n <- start.queued | forall s <- done | s in start.rings :: n !in start.rings[s]
      ensures packets == start.counts.Keys == start.gone.Keys && forall p <- packets :: CountOf(start, p)
    {
      assert Gaze(0);
      forall n ensures n in ItemsOf(start.rings, done) <==> exists s <- done :: s in start.rings && n in start.rings[s] {
        ItemsOfHolds(start.rings, done, n);
      }
    }

    lemma OwnEmpty(peer: Peer, lists: seq<Node>)
      requires (forall s <- peer.OwnLists() :: s in lists) && (forall s <- lists :: IsEmpty(s))
      ensures IsEmpty(peer.acknowledgements) && IsEmpty(peer.sentReliable) && IsEmpty(peer.sentUnreliable)
      ensures IsEmpty(peer.outgoingReliable) && IsEmpty(peer.outgoingUnreliable)
    {
      var l := peer.OwnLists();
      assert l[0] in l && l[1] in l && l[2] in l && l[3] in l && l[4] in l;
    }

    lemma ChannelsEmpty(channels: ChannelArray, lists: seq<Node>)
      requires channels.Channels? ==> forall s <- ListsOf(channels.a, |channels.a|) :: s in lists
      requires forall s <- lists :: IsEmpty(s)
      ensures channels.Channels? ==>
        forall c <- channels.a :: IsEmpty(c.incomingReliable) && IsEmpty(c.incomingUnreliable)
    {
      if channels.Channels? {
        forall i | 0 <= i < |channels.a|
          ensures channels.a[i].incomingReliable in lists && channels.a[i].incomingUnreliable in lists
        {
          ListsOfMembers(channels.a, |channels.a|, i);
        }
      }
    }

    method ResetAll(peer: Peer, ghost start: Start)
      requires Valid() && Progress(start, []) && forall s <- peer.Lists() :: s in rings
      requires peer.channels.Channels? ==> peer.channelCount == |peer.channels.a|
      modifies `rings, `queued, nodes, packets, peer`channels, peer`channelCount
      ensures Valid() && Progress(start, old(peer.Lists())) && (old(AllNumbered()) ==> AllNumbered())
      ensures peer.channels == NullChannels && peer.channelCount == 0 && peers == old(peers)
    {
      assert forall s <- peer.OwnLists() :: s in peer.Lists();
      ResetOwn(peer, start);
      var channels := peer.channels;
      if channels.Channels? && peer.channelCount > 0 {
        forall i: nat {:trigger PresentAt(channels.a, i, rings.Keys)} | i < |channels.a|
          ensures PresentAt(channels.a, i, rings.Keys)
        {
          ListsOfMembers(channels.a, |channels.a|, i);
          assert channels.a[i].incomingReliable in old(peer.Lists());
          assert channels.a[i].incomingUnreliable in old(peer.Lists());
        }
        ResetChannels(channels.a, start, peer.OwnLists());
      } else {
        assert peer.Lists() == peer.OwnLists();
      }
      ForgetChannels(peer, start, old(peer.Lists()));
    }

    // No list of the peer is an outgoing list of another.
    ghost predicate OwnOnly(peer: Peer)
      reads this, peer
    {
      Spares(peers - {peer}, peer.Lists())
    }

    lemma StartIs(start: Start)
      requires Progress(start, [])
      ensures rings == start.rings && queued == start.queued && packets == start.counts.Keys == start.gone.Keys
      ensures forall p <- packets :: p.referenceCount == start.counts[p] && p.destroyed == start.gone[p]
    {
      assert Gaze(0);
      assert forall p <- packets :: CountOf(start, p) && Mentioning(start.queued - queued, p) == {};
    }

    // A peer that is reset goes on from the number where it was, and no command before that is left.
    lemma ResetConsecutive(peer: Peer, start: Start, done: seq<Node>)
      requires Progress(start, done) && peer.outgoingReliable in done && peer.outgoingUnreliable in done
      requires PeerInOrder(start.rings, peer, false)
      ensures Consecutive(peer)
    {
      assert Gaze(0);
      assert Gapless([], [], peer.issued, peer.issued);
    }

    // A reset leaves the commands of a peer whose lists it does not empty consecutive.
    lemma ResetElsewhere(p: Peer, start: Start, done: seq<Node>)
      requires Progress(start, done) && PeerInOrder(start.rings, p, true) && Spares({p}, done)
      ensures Consecutive(p)
    {
      assert Gaze(0);
      assert p in {p};
    }

    // A reset leaves the commands of every peer consecutive.
    lemma ResetInOrder(peer: Peer, start: Start, done: seq<Node>)
      requires Progress(start, done) && peer.outgoingReliable in done && peer.outgoingUnreliable in done
      ensures PeerInOrder(start.rings, peer, false) ==> Consecutive(peer)
      ensures forall p <- peers :: PeerInOrder(start.rings, p, true) && Spares({p}, done) ==> Consecutive(p)
      ensures InOrder(start.rings, peers, true) && Spares(peers - {peer}, done) ==> AllConsecutive()
    {
      if PeerInOrder(start.rings, peer, false) {
        ResetConsecutive(peer, start, done);
      }
      forall p <- peers | PeerInOrder(start.rings, p, true) && Spares({p}, done) ensures Consecutive(p) {
        ResetElsewhere(p, start, done);
      }
      if InOrder(start.rings, peers, true) && Spares(peers - {peer}, done) {
        assert Watch(0);
        forall p <- peers ensures Consecutive(p) {
          assert PeerInOrder(start.rings, p, true);
          assert p != peer ==> p in peers - {peer};
        }
      }
    }

    method ForgetChannels(peer: Peer, ghost start: Start, ghost done: seq<Node>)
      requires Valid() && Progress(start, done)
      modifies peer`channels, peer`channelCount
      ensures Valid() && Progress(start, done) && peer.channels == NullChannels && peer.channelCount == 0
      ensures KeepsOrder()
    {
      peer.channels := NullChannels;
      peer.channelCount := 0;
    }

    method ResetTwo(s: Node, t: Node, ghost start: Start, ghost done: seq<Node>)
      requires Valid() && Progress(start, done) && s in rings && t in rings
      modifies `rings, `queued, nodes, packets
      ensures Valid() && Progress(start, done + [s] + [t]) && SameSets()
      ensures old(AllNumbered()) ==> AllNumbered()
    {
      ResetList(s, start, done);
      ResetList(t, start, done + [s]);
    }

    // The five lists of the peer itself (lines 56-63).
    method ResetOwn(peer: Peer, ghost start: Start)
      requires Valid() && Progress(start, []) && forall s <- peer.OwnLists() :: s in rings
      modifies `rings, `queued, nodes, packets
      ensures Valid() && Progress(start, peer.OwnLists()) && (old(AllNumbered()) ==> AllNumbered())
    {
      ghost var l := peer.OwnLists();
      assert l[0] in l && l[1] in l && l[2] in l && l[3] in l && l[4] in l;
      ghost var three := [] + [l[0]] + [l[1]] + [l[2]];
      ResetSent(peer, start);
      ResetTwo(peer.outgoingReliable, peer.outgoingUnreliable, start, three);
      Five(l);
    }

    lemma Five(l: seq<Node>)
      requires |l| == 5
      ensures [] + [l[0]] + [l[1]] + [l[2]] + [l[3]] + [l[4]] == l
    {
    }

    method ResetSent(peer: Peer, ghost start: Start)
      requires Valid() && Progress(start, [])
      requires peer.acknowledgements in rings && peer.sentReliable in rings && peer.sentUnreliable in rings
      modifies `rings, `queued, nodes, packets
      ensures Valid() && Progress(start, [] + [peer.acknowledgements] + [peer.sentReliable] + [peer.sentUnreliable])
      ensures old(AllNumbered()) ==> AllNumbered()
    {
      ResetList(peer.acknowledgements, start, []);
      ResetList(peer.sentReliable, start, [] + [peer.acknowledgements]);
      ResetList(peer.sentUnreliable, start, [] + [peer.acknowledgements] + [peer.sentReliable]);
    }

    // The loop of enet_peer_reset_queues over the channels.
    method ResetChannels(a: seq<Channel>, ghost start: Start, ghost done: seq<Node>)
      requires Valid() && Progress(start, done) && Present(a, rings.Keys)
      modifies `rings, `queued, nodes, packets
      ensures Valid() && Progress(start, done + ListsOf(a, |a|)) && SameSets()
      ensures old(AllNumbered()) ==> AllNumbered()
    {
      ghost var lists, emptied := rings.Keys, done;
      assert done + ListsOf(a, 0) == done;
      for i := 0 to |a|
        invariant Valid() && Progress(start, emptied) && emptied == done + ListsOf(a, i)
        invariant rings.Keys == lists && SameSets()
        invariant old(AllNumbered()) ==> AllNumbered()
      {
        assert PresentAt(a, i, lists);
        ResetTwo(a[i].incomingReliable, a[i].incomingUnreliable, start, emptied);
        ListsOfStep(a, i, done);
        emptied := emptied + [a[i].incomingReliable] + [a[i].incomingUnreliable];
      }
    }

    // The world when c has been linked behind the last item of list s and has taken its reference.
    ghost predicate WorldWithLast(s: Node, c: Node)
      requires holds.Keys == packets && s in rings
      reads this, nodes, packets, c
    {
      && c !in queued && c.home == s && (forall t <- rings :: Ring(t, if t == s then rings[t] + [c] else rings[t], nodes + {c}))
      && (forall t, i :: t in rings && 0 <= i < |rings[t]| ==> rings[t][i] in queued)
      && (forall m {:trigger InList(rings, nodes, m)} :: m in queued ==> InList(rings, nodes, m))
      && (forall m <- queued + {c} :: m.command.packet != null ==> m.command.packet in packets)
      && (forall p <- packets :: p.referenceCount == holds[p] + |Mentioning(queued + {c}, p)|)
      && (forall p <- packets :: p.destroyed <= 1 && (p.destroyed == 1 ==> p.referenceCount == 0))
    }

    lemma QueueTogether(s: Node, c: Node)
      requires holds.Keys == packets && s in rings
      requires forall z {:trigger Look(z)} :: Look(z) ==> WorldWithLast(s, c)
      ensures Together(rings[s := rings[s] + [c]], nodes + {c}, queued + {c}, packets, holds)
    {
      assert Look(0);
      var R, N := rings[s := rings[s] + [c]], nodes + {c};
      assert R[s][|rings[s]|] == c;
      forall m {:trigger InList(R, N, m)} | m in queued + {c} ensures InList(R, N, m) {
        assert m != c ==> InList(rings, nodes, m);
      }
    }

    ghost method AdoptQueue(s: Node, c: Node)
      requires holds.Keys == packets && s in rings
      requires forall z {:trigger Look(z)} :: Look(z) ==> WorldWithLast(s, c)
      modifies `rings, `queued, `nodes
      ensures Valid()
      ensures rings == old(rings)[s := old(rings)[s] + [c]] && queued == old(queued) + {c} && nodes == old(nodes) + {c}
    {
      QueueTogether(s, c);
      rings, queued, nodes := rings[s := rings[s] + [c]], queued + {c}, nodes + {c};
    }

    // Linking c, a fresh node, behind the last item of list s.
    twostate lemma LastQueued(new s: Node, new c: Node)
      requires old(Valid()) && SameBooks() && s in rings && c !in nodes
      requires Ring(s, rings[s] + [c], nodes + {c})
      requires forall n <- nodes :: old(n.home) != s ==> Same(n)
      requires forall n <- nodes :: n.home == old(n.home)
      requires c !in queued
      requires c.command.packet != null ==> c.command.packet in packets && c.command.packet.destroyed == 0
      requires forall p <- packets :: p.destroyed == old(p.destroyed)
      requires forall p <- packets :: p.referenceCount == old(p.referenceCount) + if p == c.command.packet then 1 else 0
      ensures forall z {:trigger Look(z)} :: Look(z) ==> WorldWithLast(s, c)
    {
      assert Look(0);
      assert (rings[s] + [c])[|rings[s]|] == c;
      forall t <- rings | t != s ensures Ring(t, rings[t], nodes + {c}) {
        assert old(Ring(t, rings[t], nodes));
        forall i: int {:trigger LinkAt(t, rings[t], i, nodes + {c})} | -1 <= i < |rings[t]| ensures LinkAt(t, rings[t], i, nodes + {c}) {
          assert old(LinkAt(t, rings[t], i, nodes));
        }
      }
      forall m {:trigger InList(rings, nodes, m)} | m in queued ensures InList(rings, nodes, m) {
        assert old(InList(rings, nodes, m));
      }
      forall p <- packets ensures p.referenceCount == holds[p] + |Mentioning(queued + {c}, p)| {
        MentioningMore(queued, c, p);
      }
    }

    lemma LastOf(s: Node)
      requires Valid() && s in rings
      ensures Ring(s, rings[s], nodes) && forall n <- queued :: n in nodes
    {
      assert Look(0);
      forall n <- queued ensures n in nodes {
        assert InList(rings, nodes, n);
      }
    }

    // enet_peer_queue_outgoing_command; `commandByte` is command->header.command, `size` the size of the
    // command on the wire, and the stale numbers are the two found in the fresh memory when none is assigned.
    method QueueOutgoing(peer: Peer, commandByte: bv8, channelID: nat, packet: Packet?, offset: nat, length: nat,
        size: nat, staleNumber: nat, staleUnreliable: nat) returns (c: Node)
      requires Valid() && peer.outgoingReliable in rings && peer.outgoingUnreliable in rings
      requires packet != null ==> packet in packets && packet.destroyed == 0
      modifies `rings, `queued, `nodes, nodes, packets
      modifies peer`outgoingDataTotal, peer`outgoingReliableSequenceNumber, peer`issued
      ensures Valid() && fresh(c) && c.command.packet == packet && c.command.channelID == channelID
      ensures var s := if commandByte & 0x80 != 0 then peer.outgoingReliable else peer.outgoingUnreliable;
        rings == old(rings)[s := old(rings)[s] + [c]]
      ensures queued == old(queued) + {c} && nodes == old(nodes) + {c}
      ensures Issued(peer, c, old(peer.issued), old(peer.outgoingReliableSequenceNumber), staleNumber)
      ensures var d := c.command.details;
        && d.sentTime == d.roundTripTimeout == d.roundTripTimeoutLimit == 0
        && d.fragmentOffset == offset && d.fragmentLength == length
        && d.unreliableSequenceNumber == if channelID == 0xff then 0 else staleUnreliable
      ensures var (high, low) := c.command.details.wireNumber;
        high < 0x100 && low < 0x100 && 0x100 * high + low == c.command.reliableSequenceNumber % 0x10000
      ensures peer.outgoingDataTotal == (old(peer.outgoingDataTotal) + size + length) % 0x1_0000_0000
      ensures (old(Numbers(peer)) ==> Numbers(peer)) && (old(Consecutive(peer)) ==> Consecutive(peer))
      ensures peer in peers ==> KeepsOrder()
    {
      ghost var R, issued, last := rings, peer.issued, peer.outgoingReliableSequenceNumber;
      OrderBefore(peer);
      var s;
      s, c := Enqueue(peer, commandByte, channelID, packet, offset, length, size, staleNumber, staleUnreliable);
      OrderAfter(R, peer, s, c, issued, last, staleNumber, false);
      OrderAfter(R, peer, s, c, issued, last, staleNumber, true);
    }

    method Enqueue(peer: Peer, commandByte: bv8, channelID: nat, packet: Packet?, offset: nat, length: nat,
        size: nat, staleNumber: nat, staleUnreliable: nat) returns (s: Node, c: Node)
      requires Valid() && peer.outgoingReliable in rings && peer.outgoingUnreliable in rings
      requires packet != null ==> packet in packets && packet.destroyed == 0
      modifies `rings, `queued, `nodes, nodes, packets
      modifies peer`outgoingDataTotal, peer`outgoingReliableSequenceNumber, peer`issued
      ensures Valid() && fresh(c) && c.command.packet == packet && c.command.channelID == channelID
      ensures s == if commandByte & ACKNOWLEDGE != 0 then peer.outgoingReliable else peer.outgoingUnreliable
      ensures rings == old(rings)[s := old(rings)[s] + [c]] && queued == old(queued) + {c} && nodes == old(nodes) + {c}
      ensures Issued(peer, c, old(peer.issued), old(peer.outgoingReliableSequenceNumber), staleNumber)
      ensures Carries(c.command.details, c.command.reliableSequenceNumber, channelID, offset, length, staleUnreliable)
      ensures peer.outgoingDataTotal == (old(peer.outgoingDataTotal) + size + length) % 0x1_0000_0000
    {
      c := Number(peer, channelID, packet, offset, length, size, staleNumber, staleUnreliable);
      s := if commandByte & ACKNOWLEDGE != 0 then peer.outgoingReliable else peer.outgoingUnreliable;
      Link(s, c);
    }

    lemma OrderBefore(peer: Peer)
      ensures peer in peers && AllNumbered() ==>
        InOrder(rings, peers - {peer}, false) && Numbers(peer) && ApartFromAll(peers, peer)
      ensures peer in peers && AllConsecutive() ==>
        InOrder(rings, peers - {peer}, true) && Consecutive(peer) && ApartFromAll(peers, peer)
    {
      if peer in peers && AllNumbered() {
        InOrderOthers(rings, peers, peer, false);
      }
      if peer in peers && AllConsecutive() {
        InOrderOthers(rings, peers, peer, true);
      }
    }

    // A command put in an outgoing list of its peer leaves what was in order in order.
    lemma OrderAfter(R: map<Node, seq<Node>>, peer: Peer, s: Node, c: Node, issued: nat, last: nat, stale: nat,
        gapless: bool)
      requires s in R && rings == R[s := R[s] + [c]] && Issued(peer, c, issued, last, stale)
      requires s == peer.outgoingReliable || s == peer.outgoingUnreliable
      ensures OrderedAt(R, peer, issued, last, gapless) ==> PeerInOrder(rings, peer, gapless)
      ensures OrderedAt(R, peer, issued, last, gapless) && InOrder(R, peers - {peer}, gapless) && ApartFromAll(peers, peer)
        ==> InOrder(rings, peers, gapless)
    {
      if OrderedAt(R, peer, issued, last, gapless) {
        OrderedMore(R, peer, s, c, issued, last, stale, gapless);
        if InOrder(R, peers - {peer}, gapless) && ApartFromAll(peers, peer) {
          InOrderAgain(R, s, R[s] + [c], peers, peer, gapless);
        }
      }
    }

    // The other fields of a new command. The wire carries the high byte of the number first.
    static predicate Carries(d: Details, number: nat, channelID: nat, offset: nat, length: nat, staleUnreliable: nat) {
      && d.sentTime == d.roundTripTimeout == d.roundTripTimeoutLimit == 0
      && d.fragmentOffset == offset && d.fragmentLength == length
      && d.unreliableSequenceNumber == (if channelID == 0xff then 0 else staleUnreliable)
      && d.wireNumber.0 < 0x100 && d.wireNumber.1 < 0x100
      && 0x100 * d.wireNumber.0 + d.wireNumber.1 == number % 0x10000
    }

    static lemma WireNumber(number: nat)
      ensures 0x100 * (number / 256 % 256) + number % 256 == number % 0x10000
    {
    }

    // Lines 118-138: the sequence number and the fields of the new command.
    static method Number(peer: Peer, channelID: nat, packet: Packet?, offset: nat, length: nat, size: nat,
        staleNumber: nat, staleUnreliable: nat) returns (c: Node)
      modifies peer`outgoingDataTotal, peer`outgoingReliableSequenceNumber, peer`issued
      ensures fresh(c) && c.home == null && c.command.packet == packet && c.command.channelID == channelID
      ensures Carries(c.command.details, c.command.reliableSequenceNumber, channelID, offset, length, staleUnreliable)
      ensures channelID == 0xff ==> c.issue == old(peer.issued) && peer.issued == old(peer.issued) + 1
      ensures channelID == 0xff ==>
        && c.command.reliableSequenceNumber == peer.outgoingReliableSequenceNumber
        && peer.outgoingReliableSequenceNumber == (old(peer.outgoingReliableSequenceNumber) + 1) % 0x10000
      ensures channelID != 0xff ==> peer.issued == old(peer.issued) && c.command.reliableSequenceNumber == staleNumber
      ensures channelID != 0xff ==> peer.outgoingReliableSequenceNumber == old(peer.outgoingReliableSequenceNumber)
      ensures peer.outgoingDataTotal == (old(peer.outgoingDataTotal) + size + length) % 0x1_0000_0000
    {
      peer.outgoingDataTotal := (peer.outgoingDataTotal + size + length) % 0x1_0000_0000;
      var number, unreliable := staleNumber, staleUnreliable;
      ghost var issue := 0;
      if channelID == 0xff {
        peer.outgoingReliableSequenceNumber := (peer.outgoingReliableSequenceNumber + 1) % 0x10000;
        number, unreliable := peer.outgoingReliableSequenceNumber, 0;
        issue := peer.issued;
        peer.issued := peer.issued + 1;
      }
      WireNumber(number);
      var details := Details(unreliable, 0, 0, 0, offset, length, (number / 256 % 256, number % 256));
      c := new Node(Command(channelID, number, packet, details), issue);
    }

    // Lines 140-148: the command takes its reference and goes to the end of the list.
    method Append(s: Node, c: Node)
      requires Valid() && s in rings && c !in nodes && c.home == null
      requires c.command.packet != null ==> c.command.packet in packets && c.command.packet.destroyed == 0
      modifies `rings, `queued, `nodes, nodes, c, packets
      ensures Valid() && (NoneQueues(peers, s) ==> KeepsOrder())
      ensures rings == old(rings)[s := old(rings)[s] + [c]] && queued == old(queued) + {c} && nodes == old(nodes) + {c}
    {
      Link(s, c);
      KeptBeside(old(rings), s, rings[s]);
    }

    method Link(s: Node, c: Node)
      requires Valid() && s in rings && c !in nodes && c.home == null
      requires c.command.packet != null ==> c.command.packet in packets && c.command.packet.destroyed == 0
      modifies `rings, `queued, `nodes, nodes, c, packets
      ensures Valid()
      ensures rings == old(rings)[s := old(rings)[s] + [c]] && queued == old(queued) + {c} && nodes == old(nodes) + {c}
    {
      LastOf(s);
      ghost var items := rings[s];
      RingWidened(s, items, nodes, nodes + {c});
      if c.command.packet != null {
        c.command.packet.referenceCount := c.command.packet.referenceCount + 1;
      }
      Insert(s, c, s, items, |items|, nodes + {c});
      assert items[..|items|] + [c] + items[|items|..] == items + [c];
      LastQueued(s, c);
      AdoptQueue(s, c);
    }
  }

  lemma RingWidened(s: Node, items: seq<Node>, U: set<Node>, T: set<Node>)
    requires Ring(s, items, U) && U <= T
    ensures Ring(s, items, T)
  {
    forall i: int {:trigger LinkAt(s, items, i, T)} | -1 <= i < |items| ensures LinkAt(s, items, i, T) {
      assert LinkAt(s, items, i, U);
    }
  }

  // What the queues and the counts were at the start of a reset.
  datatype Start = Start(rings: map<Node, seq<Node>>, queued: set<Node>, counts: map<Packet, nat>, gone: map<Packet, nat>)

  // A reset on its way: what there was when it began, and the lists it has emptied.
  datatype SoFar = SoFar(start: Start, done: seq<Node>)

  // The lists of a channel are among the given ones.
  ghost predicate PresentAt(a: seq<Channel>, i: nat, lists: set<Node>)
    requires i < |a|
  {
    a[i].incomingReliable in lists && a[i].incomingUnreliable in lists
  }

  ghost predicate Present(a: seq<Channel>, lists: set<Node>) {
    forall i: nat {:trigger PresentAt(a, i, lists)} :: i < |a| ==> PresentAt(a, i, lists)
  }

  lemma ListsOfStep(a: seq<Channel>, i: nat, done: seq<Node>)
    requires i < |a|
    ensures done + ListsOf(a, i) + [a[i].incomingReliable] + [a[i].incomingUnreliable] == done + ListsOf(a, i + 1)
  {
  }

  lemma {:induction false} ListsOfMembers(a: seq<Channel>, n: nat, i: nat)
    requires i < n <= |a|
    ensures a[i].incomingReliable in ListsOf(a, n) && a[i].incomingUnreliable in ListsOf(a, n)
  {
    if i < n - 1 {
      ListsOfMembers(a, n - 1, i);
    }
  }

  ghost function ItemSet(items: seq<Node>): set<Node> {
    set n | n in items
  }

  lemma ItemSetMore(items: seq<Node>, k: nat)
    requires k < |items|
    ensures ItemSet(items[..k + 1]) == ItemSet(items[..k]) + {items[k]}
  {
    assert items[..k + 1] == items[..k] + [items[k]];
  }

  // The items of some lists.
  ghost function ItemsOf(R: map<Node, seq<Node>>, lists: seq<Node>): set<Node>
    decreases |lists|
  {
    if lists == [] then {} else
    var s := lists[|lists| - 1];
    ItemsOf(R, lists[..|lists| - 1]) + if s in R then ItemSet(R[s]) else {}
  }

  lemma {:induction false} ItemsOfContains(R: map<Node, seq<Node>>, lists: seq<Node>, s: Node)
    requires s in lists && s in R
    ensures ItemSet(R[s]) <= ItemsOf(R, lists)
    decreases |lists|
  {
    var n := |lists| - 1;
    if lists[n] != s {
      var i :| 0 <= i < |lists| && lists[i] == s;
      assert lists[..n][i] == s;
      ItemsOfContains(R, lists[..n], s);
    }
  }

  lemma {:induction false} ItemsOfHolds(R: map<Node, seq<Node>>, lists: seq<Node>, n: Node)
    ensures n in ItemsOf(R, lists) <==> exists s <- lists :: s in R && n in R[s]
    decreases |lists|
  {
    if lists != [] {
      var k := |lists| - 1;
      ItemsOfHolds(R, lists[..k], n);
      assert lists == lists[..k] + [lists[k]];
    }
  }
}
