/** The intrusive circular lists of cs/my_enet/list.c: a ring of nodes closed by a sentinel. */
module ENetList {

  // ENetPacket; `destroyed` counts the calls of enet_packet_destroy on it.
  class Packet {
    var referenceCount: nat
    ghost var destroyed: nat
  }

  // What a queued node carries: an acknowledgement, an outgoing or an incoming command.
  datatype Command = Command(channelID: nat, reliableSequenceNumber: nat, packet: Packet?, details: Details)

  // The other fields of ENetOutgoingCommand; the two bytes of wireNumber are the header's sequence number in
  // network byte order.
  datatype Details = Details(unreliableSequenceNumber: nat, sentTime: nat, roundTripTimeout: nat,
    roundTripTimeoutLimit: nat, fragmentOffset: nat, fragmentLength: nat, wireNumber: (nat, nat))

  const NO_DETAILS := Details(0, 0, 0, 0, 0, 0, (0, 0))

  class Node {
    const command: Command
    var next: Node?
    var previous: Node?
    ghost const issue: nat  // how many commands went out on channel 0xff before this one
    ghost var home: Node?   // the sentinel of the ring the node is in

    constructor (command: Command, ghost issue: nat)
      ensures this.command == command && this.issue == issue && home == null
    {
      this.command, this.issue := command, issue;
      next, previous, home := null, null, null;
    }
  }

  // The i-th node of a ring, which is its sentinel before the first and after the last item.
  ghost function At(s: Node, items: seq<Node>, i: int): Node {
    if 0 <= i < |items| then items[i] else s
  }

  ghost predicate LinkAt(s: Node, items: seq<Node>, i: int, U: set<Node>)
    reads U
  {
    var a, b := At(s, items, i), At(s, items, i + 1);
    a in U && b in U && a.next == b && b.previous == a
  }

  // The ring of sentinel s holds `items`; every node of it is in U and is in no other ring.
  ghost predicate Ring(s: Node, items: seq<Node>, U: set<Node>)
    reads U
  {
    && s in U && s.home == s
    && (forall i :: 0 <= i < |items| ==> items[i] in U && items[i] != s && items[i].home == s)
    && (forall i, j :: 0 <= i < j < |items| ==> items[i] != items[j])
    && (forall i: int {:trigger LinkAt(s, items, i, U)} :: -1 <= i < |items| ==> LinkAt(s, items, i, U))
  }

  twostate predicate Same(n: Node)
    reads n
  {
    n.next == old(n.next) && n.previous == old(n.previous) && n.home == old(n.home)
  }

  // enet_list_clear
  method Clear(s: Node, ghost U: set<Node>)
    requires s in U
    modifies s
    ensures Ring(s, [], U)
  {
    s.next := s;
    s.previous := s;
    s.home := s;
  }

  lemma InsertedAt(s: Node, items: seq<Node>, data: Node, k: nat, i: int)
    requires k <= |items|
    ensures At(s, items[..k] + [data] + items[k..], i) ==
            if i == k then data else At(s, items, if i < k then i else i - 1)
  {
  }

  // enet_list_insert: `data` goes before the node at place k.
  method Insert(position: Node, data: Node, ghost s: Node, ghost items: seq<Node>, ghost k: nat, ghost U: set<Node>)
    requires Ring(s, items, U) && k <= |items| && position == At(s, items, k)
    requires data in U && data.home == null
    modifies U`next, U`previous, data`home
    ensures Ring(s, items[..k] + [data] + items[k..], U)
    ensures forall n <- U :: n != data && old(n.home) != s ==> Same(n)
  {
    ghost var r := items[..k] + [data] + items[k..];
    assert LinkAt(s, items, k - 1, U);
    data.previous := position.previous;
    data.next := position;
    data.previous.next := data;
    position.previous := data;
    data.home := s;
    forall i: int {:trigger LinkAt(s, r, i, U)} | -1 <= i < |r| ensures LinkAt(s, r, i, U) {
      InsertedAt(s, items, data, k, i);
      InsertedAt(s, items, data, k, i + 1);
      if i < k - 1 {
        assert old(LinkAt(s, items, i, U));
      } else if i > k {
        assert old(LinkAt(s, items, i - 1, U));
      }
    }
  }

  function Without<T>(s: seq<T>, k: nat): seq<T>
    requires k < |s|
  {
    s[..k] + s[k + 1..]
  }

  lemma WithoutFirst<T>(s: seq<T>)
    requires s != []
    ensures Without(s, 0) == s[1..]
  {
  }

  lemma RemovedAt(s: Node, items: seq<Node>, k: nat, i: int)
    requires k < |items|
    ensures At(s, Without(items, k), i) == At(s, items, if i < k then i else i + 1)
  {
  }

  // enet_list_remove: the node at place k leaves the ring.
  method Remove(position: Node, ghost s: Node, ghost items: seq<Node>, ghost k: nat, ghost U: set<Node>)
      returns (data: Node)
    requires Ring(s, items, U) && k < |items| && position == items[k]
    modifies U`next, U`previous, position`home
    ensures data == position && data.home == null
    ensures Ring(s, Without(items, k), U)
    ensures forall n <- U :: old(n.home) != s ==> Same(n)
  {
    ghost var r := Without(items, k);
    assert LinkAt(s, items, k - 1, U) && LinkAt(s, items, k, U);
    position.previous.next := position.next;
    position.next.previous := position.previous;
    position.home := null;
    forall i: int {:trigger LinkAt(s, r, i, U)} | -1 <= i < |r| ensures LinkAt(s, r, i, U) {
      RemovedAt(s, items, k, i);
      RemovedAt(s, items, k, i + 1);
      if i < k - 1 {
        assert old(LinkAt(s, items, i, U));
      } else if i >= k {
        assert old(LinkAt(s, items, i + 1, U));
      }
    }
    return position;
  }

  // enet_list_size
  method Size(s: Node, ghost items: seq<Node>, ghost U: set<Node>) returns (size: nat)
    requires Ring(s, items, U)
    ensures size == |items|
  {
    size := 0;
    assert LinkAt(s, items, -1, U);
    var position := s.next;
    while position != s
      invariant size <= |items| && position == At(s, items, size)
      decreases |items| - size
    {
      assert LinkAt(s, items, size, U);
      size := size + 1;
      position := position.next;
    }
  }
}
