/** One node of the mesh: the links it keeps, the ids it has seen, and where it sends an item on. */
module Mesh {
  import opened Basics
  import opened Events
  import opened Fsm

  const SEEN_CAPACITY: nat := 256

  /** `counter` rises with every item the origin device introduces. */
  datatype EventId = EventId(origin: Id, counter: nat)

  /** The latest ids, oldest first. */
  datatype Seen = Seen(capacity: nat, ids: seq<EventId>)

  function Observed(s: Seen, id: EventId): Seen {
    if id in s.ids then s
    else if |s.ids| == s.capacity && s.ids != [] then s.(ids := s.ids[1..] + [id])
    else s.(ids := s.ids + [id])
  }

  class SeenSet {
    const capacity: nat
    var inner: seq<EventId>

    function View(): Seen reads this { Seen(capacity, inner) }

    constructor (capacity: nat)
      ensures View() == Seen(capacity, [])
    {
      this.capacity := capacity;
      inner := [];
    }

    method Observe(id: EventId) returns (isNew: bool)
      modifies this
      ensures isNew == (id !in old(inner))
      ensures View() == Observed(old(View()), id)
    {
      if id in inner {
        return false;
      }
      if |inner| == capacity && inner != [] {
        inner := inner[1..];
      }
      inner := inner + [id];
      return true;
    }
  }

  datatype Node = Node(self: Id, nextCounter: nat, seen: Seen, links: map<Id, Phase>)

  function LinkedPeers(n: Node): set<Id> { set d | d in n.links && n.links[d].Linked? }

  /** Everyone linked except the sender and the origin. */
  function Targets(n: Node, source: Id, id: EventId): set<Id> { LinkedPeers(n) - {source, id.origin} }

  datatype Ingest = Apply(forwardTo: set<Id>) | Ignored

  /** A local copy: a fresh id, recorded as seen, for every linked peer. */
  function Broadcast(n: Node): (Node, EventId, set<Id>) {
    var id := EventId(n.self, n.nextCounter);
    (n.(nextCounter := n.nextCounter + 1, seen := Observed(n.seen, id)), id, LinkedPeers(n))
  }

  function Ingested(n: Node, source: Id, id: EventId): (Node, Ingest) {
    (n.(seen := Observed(n.seen, id)), if id in n.seen.ids then Ignored else Apply(Targets(n, source, id)))
  }

  /** One peer's link takes one event of the transition table; an unknown peer's link starts idle. */
  function PeerHandled(n: Node, peer: Id, e: Event): (Node, seq<Action>) {
    var (next, actions) := Transition(if peer in n.links then n.links[peer] else Idle, e);
    (n.(links := n.links[peer := next]), actions)
  }
}
