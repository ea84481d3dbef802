/** A network of nodes that flood clipboard items to each other, in any delivery order. */
module MeshNet {
  import opened Basics
  import opened Mesh

  /** An id that a node took on, and the node it came from (the node itself for its own copy). */
  datatype Arrival = Arrival(id: EventId, from: Id)

  datatype Message = Message(from: Id, to: Id, id: EventId)

  /** `log` is each node's list of items taken on, oldest first; `issued` is every id ever introduced. */
  datatype Net = Net(nodes: map<Id, Node>, inFlight: multiset<Message>, log: map<Id, seq<Arrival>>, issued: set<EventId>)

  datatype Move = Copy(at: Id) | Deliver(message: Message)

  function Fan(from: Id, targets: set<Id>, id: EventId): set<Message> { set t | t in targets :: Message(from, t, id) }

  /** `n` took `id` on and sends it out. */
  function Accepted(net: Net, n: Id, node: Node, arrival: Arrival, targets: set<Id>): Net
    requires n in net.log
  {
    net.(nodes := net.nodes[n := node], log := net.log[n := net.log[n] + [arrival]],
         inFlight := net.inFlight + multiset(Fan(n, targets, arrival.id)))
  }

  predicate Enabled(net: Net, m: Move) {
    match m
    case Copy(at) => at in net.nodes && at in net.log
    case Deliver(message) => message in net.inFlight && message.to in net.nodes && message.to in net.log
  }

  function Moved(net: Net, m: Move): Net
    requires Enabled(net, m)
  {
    match m
    case Copy(at) =>
      var (node, id, targets) := Broadcast(net.nodes[at]);
      Accepted(net, at, node, Arrival(id, at), targets).(issued := net.issued + {id})
    case Deliver(message) =>
      var (node, result) := Ingested(net.nodes[message.to], message.from, message.id);
      var taken := net.(inFlight := net.inFlight - multiset{message});
      match result
      case Ignored => taken.(nodes := net.nodes[message.to := node])
      case Apply(targets) => Accepted(taken, message.to, node, Arrival(message.id, message.from), targets)
  }

  /** The moves can be made one after the other. */
  predicate IsRun(net: Net, run: seq<Move>)
    decreases |run|
  {
    run == [] || (Enabled(net, run[0]) && IsRun(Moved(net, run[0]), run[1..]))
  }

  function After(net: Net, run: seq<Move>): Net
    requires IsRun(net, run)
    decreases |run|
  {
    if run == [] then net else After(Moved(net, run[0]), run[1..])
  }

  // ── The invariant ───────────────────────────────────────────────────

  predicate Has(net: Net, n: Id, id: EventId) {
    n in net.log && exists i :: 0 <= i < |net.log[n]| && net.log[n][i].id == id
  }

  predicate IsLink(net: Net, from: Id, to: Id) {
    from in net.nodes && to in net.nodes[from].links && net.nodes[from].links[to].Linked?
  }

  function Ids(log: seq<Arrival>): seq<EventId> { seq(|log|, i requires 0 <= i < |log| => log[i].id) }

  /** Who is linked to whom: links lead to other nodes of the network. */
  ghost predicate Topology(net: Net) {
    && net.log.Keys == net.nodes.Keys
    && forall n :: n in net.nodes ==>
         && net.nodes[n].self == n && net.nodes[n].seen.capacity == 256
         && n !in LinkedPeers(net.nodes[n]) && LinkedPeers(net.nodes[n]) <= net.nodes.Keys
  }

  /** The seen-set holds the latest ids of the node's log. */
  ghost predicate SeenIsLatest(net: Net)
    requires Topology(net)
  {
    forall n :: n in net.nodes ==> net.nodes[n].seen.ids == LastN(Ids(net.log[n]), 256)
  }

  /** Two arrivals of one id at one node have at least 256 others between them. */
  ghost predicate Spaced(net: Net) {
    forall n, i, j :: n in net.log && 0 <= i < j < |net.log[n]| && net.log[n][i].id == net.log[n][j].id ==>
      j - i > 256
  }

  /** Every issued id is on its origin's log and below its counter. */
  ghost predicate IssuedAtOrigin(net: Net) {
    forall id <- net.issued ::
      id.origin in net.nodes && id.counter < net.nodes[id.origin].nextCounter && Has(net, id.origin, id)
  }

  /** An item is the node's own, or came over a link from a node that has it; never to its origin. */
  predicate IsExplained(net: Net, n: Id, a: Arrival) {
    && a.id in net.issued
    && if a.from == n then a.id.origin == n
       else IsLink(net, a.from, n) && Has(net, a.from, a.id) && n != a.id.origin
  }

  ghost predicate AllExplained(net: Net) {
    forall n, i :: n in net.log && 0 <= i < |net.log[n]| ==> IsExplained(net, n, net.log[n][i])
  }

  /** The sender took the item on from somebody other than the addressee, who is not the origin either. */
  predicate IsForward(net: Net, m: Message) {
    && m.id in net.issued && IsLink(net, m.from, m.to) && m.to != m.id.origin
    && m.from in net.log
    && exists i :: 0 <= i < |net.log[m.from]| && net.log[m.from][i].id == m.id && net.log[m.from][i].from != m.to
  }

  ghost predicate AllForwards(net: Net) { forall m :: m in net.inFlight ==> IsForward(net, m) }

  predicate IsComing(net: Net, to: Id, id: EventId) { exists m <- net.inFlight :: m.to == to && m.id == id }

  /** What a node has, its linked peers have too or are being sent. */
  ghost predicate Flooded(net: Net) {
    forall n, t, id :: IsLink(net, n, t) && Has(net, n, id) ==> Has(net, t, id) || IsComing(net, t, id)
  }

  ghost predicate Inv(net: Net) {
    && Topology(net) && SeenIsLatest(net) && Spaced(net) && IssuedAtOrigin(net)
    && AllExplained(net) && AllForwards(net) && Flooded(net)
  }

  /** Any links, any counters, nothing seen and nothing under way. */
  ghost predicate IsInitial(net: Net) {
    && Topology(net) && net.inFlight == multiset{} && net.issued == {}
    && forall n :: n in net.nodes ==> net.log[n] == [] && net.nodes[n].seen.ids == []
  }

  lemma InitialInv(net: Net)
    requires IsInitial(net)
    ensures Inv(net)
  {
  }

  // ── One move ────────────────────────────────────────────────────────

  /** `net1` is `net0` with one more arrival at `n`, of an id that was not among the node's latest. */
  ghost predicate Grows(net0: Net, net1: Net, n: Id, a: Arrival) {
    && Topology(net0) && Topology(net1) && n in net0.nodes
    && net1.nodes.Keys == net0.nodes.Keys
    && (forall k :: k in net0.nodes ==>
          net1.nodes[k].links == net0.nodes[k].links && net1.nodes[k].nextCounter >= net0.nodes[k].nextCounter)
    && net1.log == net0.log[n := net0.log[n] + [a]]
  }

  lemma HasGrows(net0: Net, net1: Net, n: Id, a: Arrival, k: Id, id: EventId)
    requires Grows(net0, net1, n, a)
    ensures Has(net1, k, id) <==> Has(net0, k, id) || (k == n && id == a.id)
  {
    if Has(net0, k, id) {
      var i :| 0 <= i < |net0.log[k]| && net0.log[k][i].id == id;
      assert net1.log[k][i].id == id;
    }
    if k == n { assert net1.log[n][|net0.log[n]|] == a; }
  }

  lemma LinksGrow(net0: Net, net1: Net, n: Id, a: Arrival, from: Id, to: Id)
    requires Grows(net0, net1, n, a)
    ensures IsLink(net1, from, to) <==> IsLink(net0, from, to)
  {
  }

  lemma RecentIsLatest(ids: seq<EventId>, i: nat, n: nat)
    requires i < |ids|
    ensures |ids| - i <= n ==> ids[i] in LastN(ids, n)
  {
    if |ids| - i <= n < |ids| { assert ids[i] == ids[|ids| - n..][i - (|ids| - n)]; }
  }

  lemma SpacedGrows(net0: Net, net1: Net, n: Id, a: Arrival)
    requires Grows(net0, net1, n, a) && Spaced(net0) && SeenIsLatest(net0) && a.id !in net0.nodes[n].seen.ids
    ensures Spaced(net1)
  {
    var log := net0.log[n];
    forall i | 0 <= i < |log| && log[i].id == a.id ensures |log| - i > 256 {
      RecentIsLatest(Ids(log), i, 256);
    }
    forall k, i, j | k in net1.log && 0 <= i < j < |net1.log[k]| && net1.log[k][i].id == net1.log[k][j].id
      ensures j - i > 256
    {
      if k == n && j == |log| { assert net1.log[k][i] == log[i]; } else { assert net1.log[k][i] == net0.log[k][i] && net1.log[k][j] == net0.log[k][j]; }
    }
  }

  /** Recording one more id keeps the seen-set the tail of the log. */
  lemma LatestGrows(log: seq<Arrival>, a: Arrival, seen: Seen)
    requires seen.capacity == 256 && seen.ids == LastN(Ids(log), 256) && a.id !in seen.ids
    ensures Observed(seen, a.id).ids == LastN(Ids(log + [a]), 256)
  {
    assert Ids(log + [a]) == Ids(log) + [a.id];
  }

  lemma ExplainedGrows(net0: Net, net1: Net, n: Id, a: Arrival)
    requires Grows(net0, net1, n, a) && AllExplained(net0) && net0.issued <= net1.issued && IsExplained(net1, n, a)
    ensures AllExplained(net1)
  {
    hide IsLink;
    forall k, i | k in net1.log && 0 <= i < |net1.log[k]| ensures IsExplained(net1, k, net1.log[k][i]) {
      if !(k == n && i == |net0.log[n]|) {
        var b := net0.log[k][i];
        assert net1.log[k][i] == b && IsExplained(net0, k, b);
        HasGrows(net0, net1, n, a, b.from, b.id);
        LinksGrow(net0, net1, n, a, b.from, k);
      }
    }
  }

  lemma ForwardGrows(net0: Net, net1: Net, n: Id, a: Arrival, m: Message)
    requires Grows(net0, net1, n, a) && net0.issued <= net1.issued && IsForward(net0, m)
    ensures IsForward(net1, m)
  {
    LinksGrow(net0, net1, n, a, m.from, m.to);
    var i :| 0 <= i < |net0.log[m.from]| && net0.log[m.from][i].id == m.id && net0.log[m.from][i].from != m.to;
    assert net1.log[m.from][i] == net0.log[m.from][i];
  }

  /** The node sends its new item to every link it may, and each message is a forward. */
  lemma FanForwards(net: Net, n: Id, a: Arrival, m: Message)
    requires Topology(net) && n in net.nodes && net.log[n] != [] && net.log[n][|net.log[n]| - 1] == a && a.id in net.issued
    requires m in Fan(n, Targets(net.nodes[n], a.from, a.id), a.id)
    ensures IsForward(net, m)
  {
  }

  lemma ForwardsGrow(net0: Net, net1: Net, n: Id, a: Arrival)
    requires Grows(net0, net1, n, a) && net0.issued <= net1.issued && a.id in net1.issued
    requires forall m :: m in net1.inFlight ==>
               IsForward(net0, m) || m in Fan(n, Targets(net1.nodes[n], a.from, a.id), a.id)
    ensures AllForwards(net1)
  {
    hide IsForward;
    forall m | m in net1.inFlight ensures IsForward(net1, m) {
      if IsForward(net0, m) { ForwardGrows(net0, net1, n, a, m); } else { FanForwards(net1, n, a, m); }
    }
  }

  /** The new item floods on, and every older item does as before. */
  lemma FloodedGrows(net0: Net, net1: Net, n: Id, a: Arrival)
    requires Grows(net0, net1, n, a) && Flooded(net0) && IssuedAtOrigin(net1) && IsExplained(net1, n, a)
    requires forall m :: m in net0.inFlight && !(m.to == n && m.id == a.id) ==> m in net1.inFlight
    requires forall m :: m in Fan(n, Targets(net1.nodes[n], a.from, a.id), a.id) ==> m in net1.inFlight
    ensures Flooded(net1)
  {
    forall k, t, id | IsLink(net1, k, t) && Has(net1, k, id) ensures Has(net1, t, id) || IsComing(net1, t, id) {
      FloodedPair(net0, net1, n, a, k, t, id);
    }
  }

  lemma FloodedPair(net0: Net, net1: Net, n: Id, a: Arrival, k: Id, t: Id, id: EventId)
    requires Grows(net0, net1, n, a) && Flooded(net0) && IssuedAtOrigin(net1) && IsExplained(net1, n, a)
    requires forall m :: m in net0.inFlight && !(m.to == n && m.id == a.id) ==> m in net1.inFlight
    requires forall m :: m in Fan(n, Targets(net1.nodes[n], a.from, a.id), a.id) ==> m in net1.inFlight
    requires IsLink(net1, k, t) && Has(net1, k, id)
    ensures Has(net1, t, id) || IsComing(net1, t, id)
  {
    hide Has;
    LinksGrow(net0, net1, n, a, k, t);
    HasGrows(net0, net1, n, a, k, id);
    HasGrows(net0, net1, n, a, t, id);
    if Has(net0, k, id) {
      if !Has(net0, t, id) && !(t == n && id == a.id) {
        var m :| m in net0.inFlight && m.to == t && m.id == id;
        assert m in net1.inFlight;
      }
    } else if t != a.from && t != a.id.origin {
      assert Message(n, t, id) in Fan(n, Targets(net1.nodes[n], a.from, a.id), a.id);
    }
  }

  lemma IssuedGrows(net0: Net, net1: Net, n: Id, a: Arrival)
    requires Grows(net0, net1, n, a) && IssuedAtOrigin(net0)
    requires net1.issued == net0.issued || (net1.issued == net0.issued + {a.id} && a.id.origin == n && a.id.counter < net1.nodes[n].nextCounter)
    ensures IssuedAtOrigin(net1)
  {
    hide Has;
    forall id <- net1.issued
      ensures id.origin in net1.nodes && id.counter < net1.nodes[id.origin].nextCounter && Has(net1, id.origin, id)
    {
      HasGrows(net0, net1, n, a, id.origin, id);
    }
  }

  lemma SeenGrows(net0: Net, net1: Net, n: Id, a: Arrival)
    requires Grows(net0, net1, n, a) && SeenIsLatest(net0) && a.id !in net0.nodes[n].seen.ids
    requires net1.nodes[n].seen == Observed(net0.nodes[n].seen, a.id)
    requires forall k :: k in net0.nodes && k != n ==> net1.nodes[k] == net0.nodes[k]
    ensures SeenIsLatest(net1)
  {
    LatestGrows(net0.log[n], a, net0.nodes[n].seen);
  }

  /** Everything a new arrival at one node keeps. */
  lemma AcceptedInv(net0: Net, net1: Net, n: Id, a: Arrival)
    requires Inv(net0) && Grows(net0, net1, n, a) && a.id !in net0.nodes[n].seen.ids
    requires net1.nodes[n].seen == Observed(net0.nodes[n].seen, a.id)
    requires forall k :: k in net0.nodes && k != n ==> net1.nodes[k] == net0.nodes[k]
    requires net1.issued == net0.issued || (net1.issued == net0.issued + {a.id} && a.id.origin == n && a.id.counter < net1.nodes[n].nextCounter)
    requires IsExplained(net1, n, a)
    requires forall m :: m in net0.inFlight && !(m.to == n && m.id == a.id) ==> m in net1.inFlight
    requires forall m :: m in Fan(n, Targets(net1.nodes[n], a.from, a.id), a.id) ==> m in net1.inFlight
    requires forall m :: m in net1.inFlight ==> m in net0.inFlight || m in Fan(n, Targets(net1.nodes[n], a.from, a.id), a.id)
    ensures Inv(net1)
  {
    hide Spaced, SeenIsLatest, AllExplained, Flooded, IssuedAtOrigin, Observed, Targets, Fan, Grows, IsForward, IsExplained;
    ExplainedIssued(net1, n, a);
    GrowsTopology(net0, net1, n, a);
    SpacedGrows(net0, net1, n, a);
    SeenGrows(net0, net1, n, a);
    IssuedGrows(net0, net1, n, a);
    ExplainedGrows(net0, net1, n, a);
    ForwardsGrow(net0, net1, n, a);
    FloodedGrows(net0, net1, n, a);
  }

  lemma GrowsTopology(net0: Net, net1: Net, n: Id, a: Arrival)
    requires Grows(net0, net1, n, a)
    ensures Topology(net0) && Topology(net1)
  {
  }

  lemma ExplainedIssued(net: Net, n: Id, a: Arrival)
    requires IsExplained(net, n, a)
    ensures a.id in net.issued
  {
  }

  /** A node's own copy gets an id that nobody has seen. */
  lemma CopyInv(net: Net, at: Id)
    requires Inv(net) && at in net.nodes
    ensures Inv(Moved(net, Copy(at)))
  {
    var net1 := Moved(net, Copy(at));
    var node := net.nodes[at];
    var a := Arrival(EventId(at, node.nextCounter), at);
    hide Observed, Fan;
    assert a.id !in net.issued;
    if a.id in node.seen.ids { SeenIsLogged(net, at, a.id); }
    assert Targets(net1.nodes[at], at, a.id) == LinkedPeers(node);
    assert LinkedPeers(net1.nodes[at]) == LinkedPeers(node);
    CopyGrows(net, at);
    hide Spaced, SeenIsLatest, AllExplained, Flooded, IssuedAtOrigin, Grows, AllForwards;
    AcceptedInv(net, net1, at, a);
  }

  lemma CopyGrows(net: Net, at: Id)
    requires Topology(net) && at in net.nodes
    ensures Grows(net, Moved(net, Copy(at)), at, Arrival(EventId(at, net.nodes[at].nextCounter), at))
  {
    hide Fan;
  }

  /** An id in the seen-set is on the log, and so was issued. */
  lemma SeenIsLogged(net: Net, n: Id, id: EventId)
    requires Topology(net) && SeenIsLatest(net) && AllExplained(net) && n in net.nodes && id in net.nodes[n].seen.ids
    ensures Has(net, n, id) && id in net.issued
  {
    hide IsExplained;
    var ids := Ids(net.log[n]);
    var latest := LastN(ids, 256);
    var i :| 0 <= i < |latest| && latest[i] == id;
    LatestIndex(ids, 256, i);
    var k := i + |ids| - |latest|;
    assert net.log[n][k].id == id && IsExplained(net, n, net.log[n][k]);
    ExplainedIssued(net, n, net.log[n][k]);
  }

  lemma LatestIndex(ids: seq<EventId>, n: nat, i: nat)
    requires i < |LastN(ids, n)|
    ensures LastN(ids, n)[i] == ids[i + |ids| - |LastN(ids, n)|]
  {
  }

  /** A repeated id is taken off the wire and changes nothing else. */
  lemma IgnoredInv(net: Net, m: Message)
    requires Inv(net) && Enabled(net, Deliver(m)) && m.id in net.nodes[m.to].seen.ids
    ensures Inv(Moved(net, Deliver(m)))
  {
    hide SeenIsLatest, Flooded, IsForward, AllExplained, IssuedAtOrigin, Spaced;
    var net1 := net.(inFlight := net.inFlight - multiset{m});
    IgnoredMove(net, m);
    SeenIsLogged(net, m.to, m.id);
    SameLogs(net, net1);
    TakenFloods(net, net1, m);
    forall k | k in net1.inFlight ensures IsForward(net1, k) { SameForward(net, net1, k); }
  }

  lemma IgnoredMove(net: Net, m: Message)
    requires Enabled(net, Deliver(m)) && m.id in net.nodes[m.to].seen.ids
    ensures Moved(net, Deliver(m)) == net.(inFlight := net.inFlight - multiset{m})
  {
    assert Moved(net, Deliver(m)).nodes == net.nodes;
  }

  /** A message may go once its addressee has the item. */
  lemma TakenFloods(net: Net, net1: Net, m: Message)
    requires Flooded(net) && Has(net, m.to, m.id) && net1 == net.(inFlight := net.inFlight - multiset{m})
    ensures Flooded(net1)
  {
    hide Has;
    forall n, t, id | IsLink(net1, n, t) && Has(net1, n, id) ensures Has(net1, t, id) || IsComing(net1, t, id) {
      SameHas(net, net1, n, id);
      SameHas(net, net1, t, id);
      assert IsLink(net, n, t);
      if !Has(net, t, id) {
        var k :| k in net.inFlight && k.to == t && k.id == id;
        assert k in net1.inFlight;
      }
    }
  }

  lemma SameHas(net0: Net, net1: Net, n: Id, id: EventId)
    requires net1.log == net0.log
    ensures Has(net1, n, id) <==> Has(net0, n, id)
  {
  }

  lemma SameForward(net0: Net, net1: Net, m: Message)
    requires net1 == net0.(inFlight := net1.inFlight) && IsForward(net0, m)
    ensures IsForward(net1, m)
  {
  }

  lemma SameLogs(net0: Net, net1: Net)
    requires Inv(net0) && net1 == net0.(inFlight := net1.inFlight)
    ensures Topology(net1) && SeenIsLatest(net1) && Spaced(net1) && AllExplained(net1) && IssuedAtOrigin(net1)
  {
    hide Flooded, AllForwards;
    forall id <- net1.issued ensures Has(net1, id.origin, id) { SameHas(net0, net1, id.origin, id); }
    forall n, i | n in net1.log && 0 <= i < |net1.log[n]| ensures IsExplained(net1, n, net1.log[n][i]) {
      var a := net1.log[n][i];
      assert IsExplained(net0, n, a);
      SameHas(net0, net1, a.from, a.id);
    }
  }

  lemma TakenInv(net: Net, m: Message)
    requires Inv(net) && Enabled(net, Deliver(m)) && m.id !in net.nodes[m.to].seen.ids
    ensures Inv(Moved(net, Deliver(m)))
  {
    hide Spaced, SeenIsLatest, AllExplained, Flooded, IssuedAtOrigin, Grows, Fan, Observed;
    var net1 := Moved(net, Deliver(m));
    var a := Arrival(m.id, m.from);
    TakenGrows(net, m);
    assert IsForward(net, m);
    HasGrows(net, net1, m.to, a, m.from, m.id);
    LinksGrow(net, net1, m.to, a, m.from, m.to);
    assert IsExplained(net1, m.to, a);
    assert Targets(net1.nodes[m.to], m.from, m.id) == Targets(net.nodes[m.to], m.from, m.id);
    AcceptedInv(net, net1, m.to, a);
  }

  lemma TakenGrows(net: Net, m: Message)
    requires Topology(net) && Enabled(net, Deliver(m)) && m.id !in net.nodes[m.to].seen.ids
    ensures Grows(net, Moved(net, Deliver(m)), m.to, Arrival(m.id, m.from))
  {
    hide Fan;
  }

  lemma MovedInv(net: Net, m: Move)
    requires Inv(net) && Enabled(net, m)
    ensures Inv(Moved(net, m))
  {
    hide Inv, Moved;
    match m
    case Copy(at) => CopyInv(net, at);
    case Deliver(message) =>
      if message.id in net.nodes[message.to].seen.ids { IgnoredInv(net, message); } else { TakenInv(net, message); }
  }

  /** Every reachable network, whatever the order of copies and deliveries. */
  lemma {:induction false} AlwaysInv(net: Net, run: seq<Move>)
    requires Inv(net) && IsRun(net, run)
    ensures Inv(After(net, run))
    decreases |run|
  {
    hide Inv, Moved;
    if run != [] {
      MovedInv(net, run[0]);
      AlwaysInv(Moved(net, run[0]), run[1..]);
    }
  }

  // ── No loops, no echoes ─────────────────────────────────────────────

  /** A node that took on at most 257 items took each on once: an id comes back only after 256 others. */
  lemma AtMostOnce(net: Net, run: seq<Move>, n: Id)
    requires IsInitial(net) && IsRun(net, run) && n in After(net, run).log
    requires |After(net, run).log[n]| <= 257
    ensures Distinct(Ids(After(net, run).log[n]))
  {
    hide After, IsRun;
    InitialInv(net);
    AlwaysInv(net, run);
  }

  /** No message goes to the origin, nor to the node the sender has the item from. */
  lemma NeverBack(net: Net, run: seq<Move>, m: Message)
    requires IsInitial(net) && IsRun(net, run) && m in After(net, run).inFlight
    requires m.from in After(net, run).log && |After(net, run).log[m.from]| <= 257
    ensures m.to != m.id.origin && m.to != m.from
    ensures forall a <- After(net, run).log[m.from] :: a.id == m.id ==> a.from != m.to
  {
    hide After, IsRun, Inv, Ids;
    InitialInv(net);
    AlwaysInv(net, run);
    NeverBackNow(After(net, run), m);
  }

  lemma NeverBackNow(net: Net, m: Message)
    requires Inv(net) && m in net.inFlight && m.from in net.log && |net.log[m.from]| <= 257
    ensures m.to != m.id.origin && m.to != m.from
    ensures forall a <- net.log[m.from] :: a.id == m.id ==> a.from != m.to
  {
    hide SeenIsLatest, Flooded, AllExplained, IssuedAtOrigin;
    assert IsForward(net, m);
  }

  // ── Coverage ────────────────────────────────────────────────────────

  /** A way along the links. */
  ghost predicate IsPath(net: Net, path: seq<Id>) {
    path != [] && path[0] in net.nodes && forall i :: 0 <= i < |path| - 1 ==> IsLink(net, path[i], path[i + 1])
  }

  ghost predicate Reaches(net: Net, from: Id, to: Id) {
    exists path :: IsPath(net, path) && path[0] == from && path[|path| - 1] == to
  }

  /** Items only travel along the links. */
  ghost predicate OnlyByLinks(net: Net) { forall n, id :: Has(net, n, id) ==> Reaches(net, id.origin, n) }

  lemma ReachesNext(net: Net, from: Id, n: Id, to: Id)
    requires Reaches(net, from, n) && IsLink(net, n, to)
    ensures Reaches(net, from, to)
  {
    var path :| IsPath(net, path) && path[0] == from && path[|path| - 1] == n;
    var longer := path + [to];
    forall i | 0 <= i < |longer| - 1 ensures IsLink(net, longer[i], longer[i + 1]) {}
    assert IsPath(net, longer);
  }

  lemma ReachesSelf(net: Net, n: Id)
    requires n in net.nodes
    ensures Reaches(net, n, n)
  {
    assert IsPath(net, [n]);
  }

  /** Moves leave the links alone. */
  lemma SameReach(net0: Net, net1: Net, from: Id, to: Id)
    requires net1.nodes.Keys == net0.nodes.Keys && forall k :: k in net0.nodes ==> net1.nodes[k].links == net0.nodes[k].links
    requires Reaches(net0, from, to)
    ensures Reaches(net1, from, to)
  {
    var path :| IsPath(net0, path) && path[0] == from && path[|path| - 1] == to;
    forall i | 0 <= i < |path| - 1 ensures IsLink(net1, path[i], path[i + 1]) { assert IsLink(net0, path[i], path[i + 1]); }
    assert IsPath(net1, path);
  }

  /** What one move adds to the logs: nothing, or one explained arrival. */
  lemma MovedGrows(net: Net, m: Move) returns (n: Id, a: Arrival)
    requires Inv(net) && Enabled(net, m)
    ensures var net1 := Moved(net, m);
            || (Grows(net, net1, n, a) && IsExplained(net1, n, a) && a.id !in net.nodes[n].seen.ids
                && (m.Copy? ==> n == m.at && a == Arrival(EventId(n, net.nodes[n].nextCounter), n) && net1.issued == net.issued + {a.id})
                && (m.Deliver? ==> n == m.message.to && a == Arrival(m.message.id, m.message.from) && net1.issued == net.issued))
            || (m.Deliver? && net1 == net.(inFlight := net.inFlight - multiset{m.message}))
  {
    hide Inv, Moved, Grows, IsExplained;
    match m
    case Copy(at) =>
      n := at;
      a := CopyArrives(net, at);
    case Deliver(message) =>
      n, a := message.to, Arrival(message.id, message.from);
      if a.id in net.nodes[n].seen.ids { IgnoredMove(net, message); } else { DeliverArrives(net, message); }
  }

  lemma CopyArrives(net: Net, at: Id) returns (a: Arrival)
    requires Inv(net) && Enabled(net, Copy(at))
    ensures var net1 := Moved(net, Copy(at));
            && a == Arrival(EventId(at, net.nodes[at].nextCounter), at) && a.id !in net.nodes[at].seen.ids
            && Grows(net, net1, at, a) && IsExplained(net1, at, a) && net1.issued == net.issued + {a.id}
  {
    hide Spaced, SeenIsLatest, AllExplained, Flooded, IssuedAtOrigin, AllForwards, Grows, Fan, IsExplained;
    a := Arrival(EventId(at, net.nodes[at].nextCounter), at);
    MovedInv(net, Copy(at));
    CopyGrows(net, at);
    CopyIsNew(net, at);
    LastExplained(net, Moved(net, Copy(at)), at, a);
  }

  lemma DeliverArrives(net: Net, m: Message)
    requires Inv(net) && Enabled(net, Deliver(m)) && m.id !in net.nodes[m.to].seen.ids
    ensures var net1, a := Moved(net, Deliver(m)), Arrival(m.id, m.from);
            Grows(net, net1, m.to, a) && IsExplained(net1, m.to, a) && net1.issued == net.issued
  {
    hide Spaced, SeenIsLatest, AllExplained, Flooded, IssuedAtOrigin, AllForwards, Grows, Fan, IsExplained;
    MovedInv(net, Deliver(m));
    TakenGrows(net, m);
    LastExplained(net, Moved(net, Deliver(m)), m.to, Arrival(m.id, m.from));
  }

  lemma CopyIsNew(net: Net, at: Id)
    requires Inv(net) && at in net.nodes
    ensures EventId(at, net.nodes[at].nextCounter) !in net.issued
    ensures EventId(at, net.nodes[at].nextCounter) !in net.nodes[at].seen.ids
  {
    hide Spaced, SeenIsLatest, AllExplained, Flooded;
    var id := EventId(at, net.nodes[at].nextCounter);
    if id in net.nodes[at].seen.ids { SeenIsLogged(net, at, id); }
  }

  lemma LastExplained(net0: Net, net1: Net, n: Id, a: Arrival)
    requires Grows(net0, net1, n, a) && AllExplained(net1)
    ensures IsExplained(net1, n, a)
  {
    hide IsExplained;
    assert net1.log[n][|net0.log[n]|] == a;
  }

  lemma OnlyByLinksMoved(net: Net, m: Move)
    requires Inv(net) && Enabled(net, m) && OnlyByLinks(net)
    ensures OnlyByLinks(Moved(net, m))
  {
    hide Inv, Moved, Has, Reaches;
    var net1 := Moved(net, m);
    var n, a := MovedGrows(net, m);
    forall k, id | Has(net1, k, id) ensures Reaches(net1, id.origin, k) {
      if net1.log == net.log {
        SameHas(net, net1, k, id);
        SameReach(net, net1, id.origin, k);
      } else {
        OnlyByLinksGrows(net, net1, n, a, k, id);
      }
    }
  }

  lemma OnlyByLinksGrows(net0: Net, net1: Net, n: Id, a: Arrival, k: Id, id: EventId)
    requires Grows(net0, net1, n, a) && OnlyByLinks(net0) && IsExplained(net1, n, a) && Has(net1, k, id)
    ensures Reaches(net1, id.origin, k)
  {
    hide Has, Reaches;
    HasGrows(net0, net1, n, a, k, id);
    if Has(net0, k, id) {
      SameReach(net0, net1, id.origin, k);
    } else if a.from == n {
      ReachesSelf(net1, n);
    } else {
      HasGrows(net0, net1, n, a, a.from, id);
      SameReach(net0, net1, id.origin, a.from);
      ReachesNext(net1, id.origin, a.from, n);
    }
  }

  lemma {:induction false} AlwaysOnlyByLinks(net: Net, run: seq<Move>)
    requires Inv(net) && OnlyByLinks(net) && IsRun(net, run)
    ensures OnlyByLinks(After(net, run))
    decreases |run|
  {
    hide Inv, Moved, OnlyByLinks;
    if run != [] {
      MovedInv(net, run[0]);
      OnlyByLinksMoved(net, run[0]);
      AlwaysOnlyByLinks(Moved(net, run[0]), run[1..]);
    }
  }

  /** With nothing in flight, what the first node of a path has, the last one has. */
  lemma {:induction false} FloodsAlong(net: Net, path: seq<Id>, id: EventId)
    requires Topology(net) && Flooded(net) && net.inFlight == multiset{} && IsPath(net, path) && Has(net, path[0], id)
    ensures Has(net, path[|path| - 1], id)
  {
    hide Has, IsLink;
    if |path| > 1 {
      assert IsLink(net, path[0], path[1]);
      assert !IsComing(net, path[1], id);
      var rest := path[1..];
      forall i | 0 <= i < |rest| - 1 ensures IsLink(net, rest[i], rest[i + 1]) { assert rest[i] == path[i + 1]; }
      LinkedNode(net, path);
      FloodsAlong(net, rest, id);
    }
  }

  lemma LinkedNode(net: Net, path: seq<Id>)
    requires Topology(net) && IsPath(net, path) && |path| > 1
    ensures path[1] in net.nodes
  {
    assert IsLink(net, path[0], path[1]);
  }

  /** Coverage: once nothing is in flight, a node has an item iff the item was issued and the links lead to the node
      from the item's origin, whatever the order of deliveries. */
  lemma Coverage(net: Net, run: seq<Move>, n: Id, id: EventId)
    requires IsInitial(net) && IsRun(net, run) && After(net, run).inFlight == multiset{}
    ensures Has(After(net, run), n, id) <==> id in After(net, run).issued && Reaches(After(net, run), id.origin, n)
  {
    hide After, IsRun, Has;
    InitialInv(net);
    AlwaysInv(net, run);
    InitialOnlyByLinks(net);
    AlwaysOnlyByLinks(net, run);
    var end := After(net, run);
    if Has(end, n, id) {
      HasIsIssued(end, n, id);
    }
    if id in end.issued && Reaches(end, id.origin, n) {
      var path :| IsPath(end, path) && path[0] == id.origin && path[|path| - 1] == n;
      FloodsAlong(end, path, id);
    }
  }

  lemma InitialOnlyByLinks(net: Net)
    requires IsInitial(net)
    ensures OnlyByLinks(net)
  {
  }

  lemma HasIsIssued(net: Net, n: Id, id: EventId)
    requires AllExplained(net) && Has(net, n, id)
    ensures id in net.issued
  {
    hide IsExplained;
    var i :| 0 <= i < |net.log[n]| && net.log[n][i].id == id;
    ExplainedIssued(net, n, net.log[n][i]);
  }

  // ── Termination ─────────────────────────────────────────────────────

  function Links(net: Net): set<(Id, Id)> {
    set n, t | n in net.nodes && t in LinkedPeers(net.nodes[n]) :: (n, t)
  }

  /** One message over every link. */
  function OverEveryLink(net: Net, id: EventId): set<Message> { set l | l in Links(net) :: Message(l.0, l.1, id) }

  /** Every message that is still to be sent: over a link whose sender lacks the item. */
  ghost function Unsent(net: Net): set<Message> {
    set l, id | l in Links(net) && id in net.issued && !Has(net, l.0, id) :: Message(l.0, l.1, id)
  }

  /** The number of messages that can still be delivered. */
  ghost function Measure(net: Net): nat { |Unsent(net)| + |net.inFlight| }

  ghost predicate NoneTwice(net: Net) { forall n :: n in net.log ==> Distinct(Ids(net.log[n])) }

  lemma {:induction false} DistinctFits(s: seq<EventId>, all: set<EventId>)
    requires Distinct(s) && forall x :: x in s ==> x in all
    ensures |s| <= |all|
  {
    if s != [] {
      var last := s[|s| - 1];
      forall x | x in s[..|s| - 1] ensures x in all - {last} {}
      DistinctFits(s[..|s| - 1], all - {last});
    }
  }

  /** No node took on more than 257 items: as many as its seen-set can keep apart. */
  ghost predicate IsSmall(net: Net) { forall n :: n in net.log ==> |net.log[n]| <= 257 }

  lemma SmallIsDistinct(net: Net)
    requires Spaced(net) && IsSmall(net)
    ensures NoneTwice(net)
  {
  }

  /** Logs only grow. */
  lemma SmallMoved(net: Net, m: Move)
    requires Inv(net) && Enabled(net, m) && IsSmall(Moved(net, m))
    ensures IsSmall(net)
  {
    hide Inv, Moved;
    var n, a := MovedGrows(net, m);
    forall k | k in net.log ensures |net.log[k]| <= 257 {
      assert k in Moved(net, m).log && |net.log[k]| <= |Moved(net, m).log[k]|;
    }
  }

  lemma {:induction false} SmallBefore(net: Net, run: seq<Move>)
    requires Inv(net) && IsRun(net, run) && IsSmall(After(net, run))
    ensures IsSmall(net)
    decreases |run|
  {
    hide Inv, Moved, IsSmall, Enabled;
    if run != [] {
      MovedInv(net, run[0]);
      SmallBefore(Moved(net, run[0]), run[1..]);
      SmallMoved(net, run[0]);
    }
  }

  lemma GrowsNode(net0: Net, net1: Net, n: Id, a: Arrival)
    requires Grows(net0, net1, n, a)
    ensures n in net0.nodes && n in net1.nodes && Topology(net0)
  {
  }

  lemma SameLinks(net0: Net, net1: Net, n: Id, a: Arrival)
    requires Grows(net0, net1, n, a)
    ensures Links(net1) == Links(net0)
  {
    assert forall k :: k in net0.nodes ==> LinkedPeers(net1.nodes[k]) == LinkedPeers(net0.nodes[k]);
  }

  /** An arrival turns the messages it causes from unsent into sent. */
  lemma UnsentGrows(net0: Net, net1: Net, n: Id, a: Arrival)
    requires Grows(net0, net1, n, a) && !Has(net0, n, a.id)
    requires net1.issued == net0.issued || net1.issued == net0.issued + {a.id}
    ensures Unsent(net1) !! Fan(n, Targets(net1.nodes[n], a.from, a.id), a.id)
    ensures var pool := Unsent(net0) + if a.id in net0.issued then {} else OverEveryLink(net0, a.id);
            a.id in net1.issued ==> Unsent(net1) + Fan(n, Targets(net1.nodes[n], a.from, a.id), a.id) <= pool
  {
    hide Has;
    SameLinks(net0, net1, n, a);
    forall m: Message | m in Unsent(net1) ensures !Has(net0, m.from, m.id) && !(m.from == n && m.id == a.id) {
      HasGrows(net0, net1, n, a, m.from, m.id);
    }
    var pool := Unsent(net0) + if a.id in net0.issued then {} else OverEveryLink(net0, a.id);
    if a.id in net1.issued {
      forall m: Message | m in Unsent(net1) ensures m in pool {
        assert (m.from, m.to) in Links(net0) && m == Message((m.from, m.to).0, (m.from, m.to).1, m.id);
      }
      forall m: Message | m in Fan(n, Targets(net1.nodes[n], a.from, a.id), a.id) ensures m in pool {
        assert (m.from, m.to) in Links(net1) && m == Message((m.from, m.to).0, (m.from, m.to).1, a.id);
      }
    }
  }

  lemma Subset<T>(small: set<T>, big: set<T>)
    requires small <= big
    ensures |small| <= |big|
  {
    assert big == small + (big - small);
  }

  lemma MeasureGrows(net0: Net, net1: Net, n: Id, a: Arrival, base: nat)
    requires Grows(net0, net1, n, a) && !Has(net0, n, a.id) && a.id in net1.issued
    requires net1.issued == net0.issued || net1.issued == net0.issued + {a.id}
    requires |net1.inFlight| <= base + |Fan(n, Targets(net1.nodes[n], a.from, a.id), a.id)|
    ensures Measure(net1) <= |Unsent(net0)| + base + if a.id in net0.issued then 0 else |Links(net0)|
  {
    hide Has, Unsent, Targets, Fan, OverEveryLink, Grows;
    GrowsNode(net0, net1, n, a);
    UnsentGrows(net0, net1, n, a);
    var fan := Fan(n, Targets(net1.nodes[n], a.from, a.id), a.id);
    var pool := Unsent(net0) + if a.id in net0.issued then {} else OverEveryLink(net0, a.id);
    Subset(Unsent(net1) + fan, pool);
    assert |Unsent(net1) + fan| == |Unsent(net1)| + |fan|;
    OverEveryLinkSize(net0, a.id);
  }

  lemma OverEveryLinkSize(net: Net, id: EventId)
    ensures |OverEveryLink(net, id)| <= |Links(net)|
  {
    OverLinksSize(Links(net), id);
  }

  lemma {:induction false} OverLinksSize(links: set<(Id, Id)>, id: EventId)
    ensures |set l | l in links :: Message(l.0, l.1, id)| <= |links|
  {
    if links != {} {
      var one :| one in links;
      OverLinksSize(links - {one}, id);
      assert (set l | l in links :: Message(l.0, l.1, id)) ==
             (set l | l in links - {one} :: Message(l.0, l.1, id)) + {Message(one.0, one.1, id)};
    }
  }

  /** A delivery uses up at least one message, and an introduction adds at most one for every link. */
  lemma MeasureMoved(net: Net, m: Move)
    requires Inv(net) && Enabled(net, m) && IsSmall(Moved(net, m))
    ensures Measure(Moved(net, m)) <= if m.Deliver? then Measure(net) - 1 else Measure(net) + |Links(net)|
    ensures Links(Moved(net, m)) == Links(net)
  {
    hide Inv, Moved, Measure, Unsent, Grows, Fan, Targets, IsSmall;
    var net1 := Moved(net, m);
    var n, a := MovedGrows(net, m);
    if m.Deliver? && net1 == net.(inFlight := net.inFlight - multiset{m.message}) {
      DeliverableIsInFlight(net, m.message);
      TakenMeasure(net, net1, m.message);
    } else {
      GrowsNode(net, net1, n, a);
      SameLinks(net, net1, n, a);
      MovedInv(net, m);
      NewIsNew(net, net1, n, a);
      if m.Copy? { CopyMeasure(net, m.at, n, a); } else { DeliverMeasure(net, m.message, n, a); }
    }
  }

  lemma DeliverableIsInFlight(net: Net, m: Message)
    requires Enabled(net, Deliver(m))
    ensures m in net.inFlight
  {
  }

  lemma HasIsInIds(net: Net, n: Id, id: EventId)
    requires n in net.log
    ensures Has(net, n, id) <==> id in Ids(net.log[n])
  {
    var log := net.log[n];
    assert |Ids(log)| == |log| && forall i :: 0 <= i < |log| ==> Ids(log)[i] == log[i].id;
  }

  /** A node that took on few items had not taken on its newest one before. */
  lemma NewIsNew(net0: Net, net1: Net, n: Id, a: Arrival)
    requires Grows(net0, net1, n, a) && Inv(net1) && IsSmall(net1)
    ensures !Has(net0, n, a.id)
  {
    hide SeenIsLatest, Flooded, AllForwards, AllExplained, IssuedAtOrigin;
    var log, longer := net0.log[n], net1.log[n];
    forall i | 0 <= i < |log| ensures log[i].id != a.id { assert longer[i] == log[i] && longer[|log|] == a; }
  }

  lemma TakenMeasure(net: Net, net1: Net, m: Message)
    requires m in net.inFlight && net1 == net.(inFlight := net.inFlight - multiset{m})
    ensures Measure(net1) == Measure(net) - 1 && Links(net1) == Links(net)
  {
    assert net.inFlight == net1.inFlight + multiset{m};
    assert Unsent(net1) == Unsent(net) by {
      hide Links;
      assert forall n, id :: Has(net1, n, id) <==> Has(net, n, id);
    }
  }

  lemma CopyMeasure(net: Net, at: Id, n: Id, a: Arrival)
    requires Inv(net) && at in net.nodes && n == at && a == Arrival(EventId(at, net.nodes[at].nextCounter), at)
    requires !Has(net, at, a.id)
    ensures Measure(Moved(net, Copy(at))) <= Measure(net) + |Links(net)|
  {
    hide Has, Unsent, Grows, Spaced, SeenIsLatest, AllExplained, AllForwards, Flooded, IssuedAtOrigin, Observed;
    var net1 := Moved(net, Copy(at));
    CopyGrows(net, at);
    CopyIsNew(net, at);
    assert Targets(net1.nodes[at], at, a.id) == LinkedPeers(net.nodes[at]);
    MeasureGrows(net, net1, at, a, |net.inFlight|);
  }

  lemma DeliverMeasure(net: Net, m: Message, n: Id, a: Arrival)
    requires Inv(net) && Enabled(net, Deliver(m)) && n == m.to && a == Arrival(m.id, m.from)
    requires a.id !in net.nodes[n].seen.ids && !Has(net, n, a.id)
    ensures Measure(Moved(net, Deliver(m))) <= Measure(net) - 1
  {
    hide Has, Unsent, Grows, Spaced, SeenIsLatest, AllExplained, Flooded, IssuedAtOrigin, Observed, IsForward;
    var net1 := Moved(net, Deliver(m));
    TakenGrows(net, m);
    assert net.inFlight == (net.inFlight - multiset{m}) + multiset{m};
    assert Targets(net1.nodes[n], m.from, m.id) == Targets(net.nodes[n], m.from, m.id);
    ForwardIssued(net, m);
    MeasureGrows(net, net1, n, a, |net.inFlight| - 1);
  }

  lemma ForwardIssued(net: Net, m: Message)
    requires AllForwards(net) && m in net.inFlight
    ensures m.id in net.issued
  {
    assert IsForward(net, m);
  }

  function Copies(run: seq<Move>): (r: nat)
    ensures r <= |run|
  {
    if run == [] then 0 else (if run[0].Copy? then 1 else 0) + Copies(run[1..])
  }

  function Deliveries(run: seq<Move>): nat { |run| - Copies(run) }

  /** No flood goes on for ever: as long as no node took on more than 257 items, every node took each item on once, and
      all deliveries together, past and still to come, are at most one for every item and link. */
  lemma {:induction false} FloodsAreFinite(net: Net, run: seq<Move>)
    requires Inv(net) && IsRun(net, run) && IsSmall(After(net, run))
    ensures NoneTwice(After(net, run))
    ensures Deliveries(run) + Measure(After(net, run)) <= Measure(net) + Copies(run) * |Links(net)|
    decreases |run|
  {
    hide Inv, Moved, NoneTwice, Measure, Links, Enabled, IsSmall;
    if run == [] {
      InvIsSpaced(net);
      SmallIsDistinct(net);
    } else {
      var next := Moved(net, run[0]);
      MovedInv(net, run[0]);
      SmallBefore(next, run[1..]);
      MeasureMoved(net, run[0]);
      FloodsAreFinite(next, run[1..]);
      OneMore(Copies(run[1..]), |Links(net)|);
    }
  }

  lemma InvIsSpaced(net: Net)
    requires Inv(net)
    ensures Spaced(net)
  {
  }

  lemma OneMore(n: nat, k: nat)
    ensures (1 + n) * k == n * k + k
  {
  }

  /** From a fresh network: each item is delivered over each link at most once, and taken on once by every node. */
  lemma FreshFlood(net: Net, run: seq<Move>)
    requires IsInitial(net) && IsRun(net, run) && IsSmall(After(net, run))
    ensures NoneTwice(After(net, run))
    ensures Deliveries(run) + |After(net, run).inFlight| <= Copies(run) * |Links(net)|
  {
    hide After, IsRun, IsSmall;
    InitialInv(net);
    assert Unsent(net) == {};
    FloodsAreFinite(net, run);
  }

  // ── When every node takes on few items ──────────────────────────────

  /** The items that the links can bring to a node. */
  ghost function Supply(net: Net, n: Id): set<EventId> { set id | id in net.issued && Reaches(net, id.origin, n) }

  /** The links bring no node more than 256 items, however many there are elsewhere. */
  ghost predicate FewEverywhere(net: Net) { forall n :: n in net.nodes ==> |Supply(net, n)| <= 256 }

  /** A node that took each of its items on once took on no more than the links can bring it. */
  lemma SuppliedOnly(net: Net, n: Id)
    requires Inv(net) && OnlyByLinks(net) && NoneTwice(net) && n in net.nodes
    ensures |net.log[n]| <= |Supply(net, n)|
  {
    hide Spaced, SeenIsLatest, Flooded, AllForwards, IssuedAtOrigin, IsExplained, Reaches, Has;
    var ids := Ids(net.log[n]);
    forall x | x in ids ensures x in Supply(net, n) {
      HasIsInIds(net, n, x);
      HasIsIssued(net, n, x);
    }
    DistinctFits(ids, Supply(net, n));
  }

  /** Moves only add to what a node can get. */
  lemma SupplyMoved(net: Net, m: Move, n: Id)
    requires Inv(net) && Enabled(net, m)
    ensures Supply(net, n) <= Supply(Moved(net, m), n) && Moved(net, m).nodes.Keys == net.nodes.Keys
  {
    hide Inv, Moved, Reaches;
    var k, a := MovedGrows(net, m);
    forall id | id in Supply(net, n) ensures id in Supply(Moved(net, m), n) {
      SameReach(net, Moved(net, m), id.origin, n);
    }
  }

  lemma FewMoved(net: Net, m: Move)
    requires Inv(net) && Enabled(net, m) && FewEverywhere(Moved(net, m))
    ensures FewEverywhere(net)
  {
    hide Inv, Moved, Supply;
    forall n | n in net.nodes ensures |Supply(net, n)| <= 256 {
      SupplyMoved(net, m, n);
      Subset(Supply(net, n), Supply(Moved(net, m), n));
    }
  }

  lemma {:induction false} FewBefore(net: Net, run: seq<Move>)
    requires Inv(net) && IsRun(net, run) && FewEverywhere(After(net, run))
    ensures FewEverywhere(net)
    decreases |run|
  {
    hide Inv, Moved, FewEverywhere, Enabled;
    if run != [] {
      MovedInv(net, run[0]);
      FewBefore(Moved(net, run[0]), run[1..]);
      FewMoved(net, run[0]);
    }
  }

  /** One more arrival after at most 256 distinct ones. */
  lemma SmallNext(net: Net, m: Move)
    requires Inv(net) && Enabled(net, m) && OnlyByLinks(net) && NoneTwice(net) && FewEverywhere(net)
    ensures IsSmall(Moved(net, m))
  {
    hide Moved, Spaced, SeenIsLatest, Flooded, AllForwards, AllExplained, IssuedAtOrigin, OnlyByLinks, NoneTwice, Supply;
    var n, a := MovedGrows(net, m);
    forall k | k in Moved(net, m).log ensures |Moved(net, m).log[k]| <= 257 {
      assert k in net.nodes;
      SuppliedOnly(net, k);
    }
  }

  /** Where the links bring no node more than 256 items, no node ever takes on more: floods are finite for good. */
  lemma {:induction false} StaysSmall(net: Net, run: seq<Move>)
    requires Inv(net) && OnlyByLinks(net) && NoneTwice(net) && IsSmall(net)
    requires IsRun(net, run) && FewEverywhere(After(net, run))
    ensures IsSmall(After(net, run))
    decreases |run|
  {
    hide Inv, Moved, OnlyByLinks, NoneTwice, IsSmall, FewEverywhere, Enabled;
    if run != [] {
      var next := Moved(net, run[0]);
      FewBefore(net, run);
      MovedInv(net, run[0]);
      OnlyByLinksMoved(net, run[0]);
      SmallNext(net, run[0]);
      InvIsSpaced(next);
      SmallIsDistinct(next);
      StaysSmall(next, run[1..]);
    }
  }

  lemma FreshStaysSmall(net: Net, run: seq<Move>)
    requires IsInitial(net) && IsRun(net, run) && FewEverywhere(After(net, run))
    ensures IsSmall(After(net, run))
  {
    hide After, IsRun, FewEverywhere, OnlyByLinks;
    InitialInv(net);
    InitialOnlyByLinks(net);
    StaysSmall(net, run);
  }

  lemma {:induction false} DistinctCount(s: seq<EventId>, x: EventId)
    requires Distinct(s)
    ensures multiset(s)[x] == if x in s then 1 else 0
  {
    if s != [] {
      var init, last := s[..|s| - 1], s[|s| - 1];
      assert s == init + [last];
      DistinctCount(init, x);
    }
  }

  /** Exactly once: when all is delivered, a node that took on at most 257 items took on each item the links bring it
      one time, and no other item. */
  lemma ExactlyOnce(net: Net, run: seq<Move>, n: Id, id: EventId)
    requires IsInitial(net) && IsRun(net, run)
    requires After(net, run).inFlight == multiset{} && n in After(net, run).log
    requires |After(net, run).log[n]| <= 257
    ensures var end := After(net, run);
            multiset(Ids(end.log[n]))[id] == if id in end.issued && Reaches(end, id.origin, n) then 1 else 0
  {
    hide After, IsRun, Reaches, Has;
    AtMostOnce(net, run, n);
    Coverage(net, run, n, id);
    DistinctCount(Ids(After(net, run).log[n]), id);
    HasIsInIds(After(net, run), n, id);
  }
}
