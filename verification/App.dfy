/** The object the daemon drives: one event at a time, its fields updated in place. */
module App {
  import opened Basics
  import opened Classify
  import opened Events
  import opened Fsm
  import opened AppSpec
  import Actions
  import Dedup
  import Hex
  import History
  import Mesh
  import Policy
  import Text

  class App {
    const digest: Digest
    var phase: Phase
    var state: State
    var clock: nat
    const dedup: Dedup.DedupRing
    var firewall: Policy.FirewallPolicy
    var lastPairedPeerId: Id
    var pendingPayloads: map<string, PendingPayload>
    var otherLinkedPeers: set<Id>

    const selfDevice: Id
    var localSeq: nat
    const seen: Mesh.SeenSet
    var links: map<Id, Phase>

    /** The clipboard machine. */
    function View(): AppState
      reads this, dedup
    {
      AppState(phase, state, clock, dedup.View(), firewall, lastPairedPeerId, pendingPayloads, otherLinkedPeers)
    }

    /** The mesh node. */
    function MeshView(): Mesh.Node
      reads this, seen
    {
      Mesh.Node(selfDevice, localSeq, seen.View(), links)
    }

    constructor (digest: Digest, firewall: Policy.FirewallPolicy, selfDevice: Id)
      ensures fresh(dedup) && fresh(seen) && this.digest == digest
      ensures View() == Initial(firewall)
      ensures MeshView() == Mesh.Node(selfDevice, 0, Mesh.Seen(256, []), map[])
    {
      this.digest := digest;
      phase, state, clock := Idle, INITIAL_STATE, 0;
      dedup := new Dedup.DedupRing(Dedup.DEDUP_CAPACITY);
      this.firewall := firewall;
      lastPairedPeerId, pendingPayloads, otherLinkedPeers := ZERO_ID, map[], {};
      this.selfDevice := selfDevice;
      localSeq, links := 0, map[];
      seen := new Mesh.SeenSet(Mesh.SEEN_CAPACITY);
    }

    // ── The parking lot ───────────────────────────────────────────────

    /** Parking a held hash again does nothing. */
    method ParkPending(p: PendingPayload, preview: string)
      modifies this`pendingPayloads, this`state
      ensures View() == Parked(old(View()), p, preview)
    {
      var key := Hex.Hex32(p.hash);
      if key in pendingPayloads {
        return;
      }
      pendingPayloads := pendingPayloads[key := p];
      state := state.(pending := state.pending + [Shown(key, p, Text.Trim(preview))]);
    }

    /** The item leaves both queues, and moves if the user allows it. */
    method ResolvePending(key: string, allow: bool) returns (actions: seq<Action>)
      modifies this`pendingPayloads, this`state
      ensures (View(), actions) == Resolved(old(View()), key, allow)
    {
      state := state.(pending := WithoutKeys(state.pending, {key}));
      if key !in pendingPayloads {
        assert pendingPayloads - {key} == pendingPayloads;
        return [EmitState];
      }
      var p := pendingPayloads[key];
      pendingPayloads := pendingPayloads - {key};
      if !allow {
        return [EmitState];
      }
      return [SyncAction(p), EmitState];
    }

    method DropAll()
      modifies this`pendingPayloads, this`state
      ensures View() == DropPendingAll(old(View()))
    {
      state := state.(pending := []);
      pendingPayloads := map[];
    }

    /** Drops the items tied to one peer, and tells which. */
    method DropFor(peer: Id) returns (dropped: set<Id>)
      modifies this`pendingPayloads, this`state
      ensures View() == DropPendingFor(old(View()), peer) && dropped == DroppedHashes(old(View()), peer)
    {
      var keys := set k | k in pendingPayloads && pendingPayloads[k].peerId == Some(peer);
      dropped := set k | k in keys :: pendingPayloads[k].hash;
      pendingPayloads := pendingPayloads - keys;
      state := state.(pending := WithoutKeys(state.pending, keys));
    }

    // ── The history ───────────────────────────────────────────────────

    method PushHistory(item: History.HistoryItem)
      modifies this`state
      ensures View() == WithRow(old(View()), item)
    {
      var history := History.Push(state.history, item);
      state := state.(history := history);
    }

    method ExpireHistory(now: nat) returns (changed: bool)
      modifies this`state
      ensures View() == Expired(old(View()), now)
      ensures changed <==> View() != old(View())
    {
      if state.historyRetentionSecs == 0 {
        return false;
      }
      var before := state.history;
      state := state.(history := History.Unexpired(before, now, state.historyRetentionSecs));
      ShorterWhenChanged(before, now, state.historyRetentionSecs);
      changed := |state.history| != |before|;
    }

    method SetHistoryRetention(secs: nat, now: nat) returns (ok: bool)
      modifies this`state
      ensures ok <==> secs in HISTORY_RETENTION_CHOICES
      ensures View() == RetentionSet(old(View()), secs, now)
    {
      if secs !in HISTORY_RETENTION_CHOICES {
        return false;
      }
      state := state.(historyRetentionSecs := secs);
      var changed := ExpireHistory(now);
      return true;
    }

    /** Brings the saved history back, and shows the dedup ring its newest rows, the oldest of them first. */
    method RestoreHistory(items: seq<History.HistoryItem>)
      modifies this`state, dedup
      ensures View() == Restored(old(View()), items)
    {
      var kept := History.CapKeepingFavorites(items);
      state := state.(history := kept);
      var newest := if |kept| <= dedup.capacity then kept else kept[..dedup.capacity];
      ghost var was := dedup.View();
      var i := |newest|;
      assert newest[i..] == [];
      while i > 0
        invariant i <= |newest|
        invariant dedup.View() == Seeded(was, newest[i..])
        invariant View() == old(View()).(st := state, ring := dedup.View()) && state == old(state).(history := kept)
      {
        i := i - 1;
        assert newest[i..][1..] == newest[i + 1..];
        match Hex.Hex32Decode(newest[i].hash) {
          case None =>
          case Some(hash) =>
            var isNew := dedup.Observe(hash);
        }
      }
      assert newest[0..] == newest;
    }

    // ── Settings ──────────────────────────────────────────────────────

    method SetFirewallPolicy(policy: Policy.FirewallPolicy)
      modifies this`firewall
      ensures View() == Next(digest, old(View()), SetFirewall(policy)).0
    {
      firewall := policy;
    }

    method SetOtherLinkedPeers(peers: set<Id>)
      modifies this`otherLinkedPeers
      ensures View() == Next(digest, old(View()), SetOtherLinked(peers)).0
    {
      otherLinkedPeers := peers;
    }

    // ── Events ────────────────────────────────────────────────────────

    /** A copied or received item: clock, dedup ring, history. */
    method ObserveItem(e: Event, w: Wall) returns (suppress: bool)
      requires IsClipboard(e)
      modifies this`clock, this`state, dedup
      ensures View() == Copied(digest, old(View()), e, w)
      ensures suppress == IsDuplicate(digest, old(View()), e, w)
    {
      clock := ClockObserve(clock, e.lamport);
      var key := KeyOf(digest, e);
      var alreadyHeld := e.FrameReceivedClipboard? && e.resync && Dedup.Contains(dedup.View(), key);
      if alreadyHeld {
        return true;
      }
      var isNew := dedup.ObserveClipboard(key, w.millis);
      if !isNew {
        return true;
      }
      if !e.sensitive {
        if e.LocalClipboardChange? {
          PushHistory(LocalRow(e, w));
        } else if Policy.Decide(firewall, e.kind, e.sensitive, Policy.Inbound).Pass? {
          PushHistory(RemoteRow(e, w));
        }
      }
      return false;
    }

    /** Who the peer is; a peer other than the last paired one takes the replaced peer's items with it. */
    method SeePeer(peerId: Id, name: string) returns (dropped: set<Id>)
      modifies this`state, this`lastPairedPeerId, this`pendingPayloads
      ensures View() == PeerSighted(old(View()), peerId, name)
      ensures dropped == if IsSwap(old(View()), peerId) && otherLinkedPeers != {}
                         then DroppedHashes(old(View()), old(lastPairedPeerId)) else {}
    {
      dropped := {};
      state := state.(peer := state.peer.(name := name));
      if peerId != ZERO_ID {
        if lastPairedPeerId != ZERO_ID && peerId != lastPairedPeerId {
          if otherLinkedPeers != {} {
            dropped := DropFor(lastPairedPeerId);
          } else {
            WipeHistory();
          }
        }
        lastPairedPeerId := peerId;
        state := state.(peer := state.peer.(id := peerId));
      }
    }

    /** Moves the pairing-words verification. */
    method MoveSas(e: Event) returns (sas: Pairing)
      ensures sas == SasAfter(state.sas, phase.Linked?, e)
    {
      sas := state.sas;
      match e {
        case SasPairingStarted(peerId) => sas := Pairing(Showing, Some(peerId));
        case SasLocalConfirmed(peerId) =>
          if sas.peer == Some(peerId) {
            sas := sas.(phase := if sas.phase.PeerConfirmed? || sas.phase.Confirmed? then Confirmed else LocalConfirmed);
          }
        case SasPeerConfirmed(peerId) =>
          if sas.peer == Some(peerId) {
            sas := sas.(phase := if sas.phase.LocalConfirmed? || sas.phase.Confirmed? then Confirmed else PeerConfirmed);
          }
        case SasPeerRejected(peerId) => if sas.peer == Some(peerId) { sas := sas.(phase := PeerRejected); }
        case PeerLost(peerId) =>
          if sas.peer == Some(peerId) && (sas.phase.Showing? || sas.phase.PeerConfirmed? || sas.phase.LocalConfirmed?) {
            sas := NO_PAIRING;
          }
        case SasReset => sas := NO_PAIRING;
        case UntrustedPeerSeen(_) => sas := NO_PAIRING;
        case ManualUnpair => sas := NO_PAIRING;
        case GhostTimeout => if !phase.Linked? { sas := NO_PAIRING; }
        case _ =>
      }
    }

    /** The shown peer. */
    method DescribePeer(e: Event) returns (peer: Peer)
      ensures peer == PeerAfter(View(), e)
    {
      peer := state.peer;
      if e.BatteryChangedPeer? {
        peer := peer.(battery := Battery(e.level, e.charging));
      } else if e.PeerPlatform? {
        peer := peer.(platform := e.platform);
      } else if e.PeerCaps? {
        peer := peer.(caps := e.caps);
      } else if e.PeerLost? {
        peer := peer.(battery := NO_BATTERY);
      } else if e.PrimaryFailover? {
        peer := peer.(name := e.name, platform := e.platform, caps := e.caps, battery := NO_BATTERY);
        if e.peerId != ZERO_ID {
          peer := peer.(id := e.peerId);
        }
      } else if e.UntrustedPeerSeen? || e.ManualUnpair? || (e.GhostTimeout? && !phase.Linked?)
                || (e.PeerRevoked? && e.peerId != ZERO_ID && e.peerId == peer.id) {
        peer := NO_PEER;
      }
    }

    /** The fields that only describe: batteries, the shown peer, the switch, the pairing. */
    method Describe(e: Event)
      modifies this`state
      ensures state == Described(old(View()), e)
    {
      hide SasAfter, PeerAfter;
      var sas := MoveSas(e);
      var peer := DescribePeer(e);
      var on, battery, trusted := state.on, state.battery, state.trustedPeerName;
      if e.ToggleOn? {
        on := true;
      } else if e.ToggleOff? || e.ManualUnpair? {
        on := false;
      }
      if e.BatteryChangedSelf? {
        battery := Battery(e.level, e.charging);
      }
      if e.SetTrustedPeer? {
        trusted := Some(e.name);
      } else if e.ManualUnpair? || (e.PeerRevoked? && e.peerId != ZERO_ID && e.peerId == state.peer.id) {
        trusted := None;
      }
      state := state.(on := on, battery := battery, peer := peer, trustedPeerName := trusted, sas := sas);
    }

    /** Forgets everything of the peer, and has the vault wiped. */
    method WipeHistory()
      modifies this`pendingPayloads, this`state
      ensures View() == HistoryWiped(old(View()))
    {
      state := state.(history := []);
      DropAll();
      state := state.(vaultWipeGen := state.vaultWipeGen + 1);
    }

    /** The peer is lost for good: what waits on it goes, and for an untrusted one the history too. */
    method ForgetPeer(e: Event, w: Wall) returns (dropped: set<Id>)
      requires e.UntrustedPeerSeen? || e.GhostTimeout? || e.ManualUnpair? || e.PeerRevoked?
      modifies this`state, this`pendingPayloads
      ensures View() == Prepared(digest, old(View()), e, w)
      ensures dropped == Dropped(old(View()), e)
    {
      hide Described, WithoutKeys, Copied, PeerSighted, DropPendingFor, DropPendingAll, HistoryWiped, DroppedHashes;
      ghost var was := View();
      var lost := if e.PeerRevoked? then e.peerId else state.peer.id;
      DescribedKeepsQueues(was, e);
      Describe(e);
      DroppedByPayload(was, state, lost);
      dropped := {};
      if e.UntrustedPeerSeen? {
        WipeHistory();
      } else if e.ManualUnpair? {
        DropAll();
      } else if e.PeerRevoked? || !phase.Linked? {
        dropped := DropFor(lost);
      }
    }

    /** What the other events change before the phase moves. */
    method Prepare(e: Event, w: Wall)
      requires !IsClipboard(e) && !e.PeerSeen? && !e.ResolvePending?
      requires !e.UntrustedPeerSeen? && !e.GhostTimeout? && !e.ManualUnpair? && !e.PeerRevoked?
      modifies this`state, this`lastPairedPeerId
      ensures View() == Prepared(digest, old(View()), e, w)
      ensures Dropped(old(View()), e) == {}
    {
      hide Described, History.Repinned, History.Favorites, Copied, PeerSighted;
      DescribedKeepsQueues(View(), e);
      Describe(e);
      if e.PrimaryFailover? && e.peerId != ZERO_ID {
        lastPairedPeerId := e.peerId;
      } else if e.SetFavorite? {
        state := state.(history := History.Repinned(state.history, e.key, e.favorite));
      } else if e.ClearHistory? {
        state := state.(history := if e.includeFavorites then [] else History.Favorites(state.history),
                        vaultWipeGen := state.vaultWipeGen + 1);
      }
    }

    /** Everything an event changes before the phase moves; `suppress` when it is an echo. */
    method Mutate(e: Event, w: Wall) returns (suppress: bool, dropped: set<Id>)
      requires !e.ResolvePending?
      modifies this`state, this`clock, this`lastPairedPeerId, this`pendingPayloads, dedup
      ensures View() == Prepared(digest, old(View()), e, w)
      ensures suppress == (IsClipboard(e) && IsDuplicate(digest, old(View()), e, w))
      ensures dropped == Dropped(old(View()), e)
    {
      hide Described, Copied, PeerSighted, IsDuplicate, DroppedHashes;
      suppress, dropped := false, {};
      if e.PeerSeen? {
        dropped := SeePeer(e.peerId, e.name);
      } else if IsClipboard(e) {
        suppress := ObserveItem(e, w);
      } else if e.UntrustedPeerSeen? || e.GhostTimeout? || e.ManualUnpair? || e.PeerRevoked? {
        dropped := ForgetPeer(e, w);
      } else {
        Prepare(e, w);
      }
    }

    /** Holds back what the policy does not let through, and parks what the user is to decide. */
    method ApplyFirewall(e: Event, actions: seq<Action>) returns (kept: seq<Action>)
      modifies this`state, this`pendingPayloads
      ensures kept == Filtered(old(View()), e, actions)
      ensures View() == if IsClipboard(e) && Verdict(old(View()), e).Defer?
                        then Parked(old(View()), PayloadOf(e), e.preview) else old(View())
    {
      if !IsClipboard(e) {
        return actions;
      }
      match Policy.Decide(firewall, e.kind, e.sensitive, DirectionOf(e)) {
        case Pass => return actions;
        case Block => return Stripped(DirectionOf(e), actions);
        case Defer =>
          kept := Stripped(DirectionOf(e), actions);
          ParkPending(PayloadOf(e), e.preview);
      }
    }

    /** What is left of the table's actions: no held items, no write by a catch-up delivery, real battery readings. */
    method Filter(e: Event, dropped: set<Id>, table: seq<Action>) returns (actions: seq<Action>)
      modifies this`state, this`pendingPayloads
      ensures View() == if IsClipboard(e) && Verdict(old(View()), e).Defer?
                        then Parked(old(View()), PayloadOf(e), e.preview) else old(View())
      ensures actions ==
              WithOwnBattery(
                WithoutResyncWrite(e, Filtered(old(View()), e, table) + if dropped == {} then [] else [PendingDropped(dropped)]),
                state.battery)
    {
      hide Stripped, WithOwnBattery, Filtered, Parked;
      actions := ApplyFirewall(e, table);
      actions := actions + if dropped == {} then [] else [PendingDropped(dropped)];
      if e.FrameReceivedClipboard? && e.resync {
        var hadWrite := exists a <- actions :: a.WriteClipboard?;
        actions := Stripped(Policy.Inbound, actions);
        actions := actions + if hadWrite then [ResyncApplySuppressed] else [];
      }
      actions := WithOwnBattery(actions, state.battery);
    }

    /** The phase moves, the actions are filtered, and the derived fields follow. */
    method Conclude(e: Event, dropped: set<Id>) returns (actions: seq<Action>)
      modifies this`phase, this`state, this`pendingPayloads
      ensures (View(), actions) == Concluded(old(View()), e, dropped)
    {
      hide Transition, Stripped, WithOwnBattery, WithoutResyncWrite, AlwaysEmits, Filtered, Parked, Verdict;
      ParkedKeepsRest(View(), e);
      var (next, table) := Transition(phase, e);
      actions := Filter(e, dropped, table);
      phase := next;
      var status := StatusFor(state);
      var changed := state.status != status;
      state := state.(phase := PhaseName(next), status := status);
      if changed && EmitState !in actions {
        actions := actions + [EmitState];
      }
      if AlwaysEmits(e) && EmitState !in actions {
        actions := actions + [EmitState];
      }
    }

    /** One event in, the actions for the daemon out: the whole effect is `Step`, and the mesh half is untouched. */
    method Handle(e: Event, w: Wall) returns (actions: seq<Action>)
      modifies this`phase, this`state, this`clock, this`lastPairedPeerId, this`pendingPayloads, dedup
      ensures (View(), actions) == Step(digest, old(View()), e, w)
      ensures MeshView() == old(MeshView())
    {
      hide Concluded, Prepared, Dropped, Resolved, IsDuplicate, IsPeerMismatch;
      if e.ResolvePending? {
        actions := ResolvePending(e.key, e.allow);
        return;
      }
      if e.PeerSeen? && IsPeerMismatch(View(), e.peerId) {
        return [];
      }
      var suppress, dropped := Mutate(e, w);
      if suppress {
        return [DuplicateDropped] + if e.FrameReceivedClipboard? then [AckItem(e.hash)] else [];
      }
      actions := Conclude(e, dropped);
    }

    // ── The mesh ──────────────────────────────────────────────────────

    /** Each peer's link moves on its own; the clipboard machine does not notice. */
    method HandlePeer(peer: Id, e: Event) returns (actions: seq<Action>)
      modifies this`links
      ensures (MeshView(), actions) == Mesh.PeerHandled(old(MeshView()), peer, e)
      ensures View() == old(View())
    {
      var from := if peer in links then links[peer] else Idle;
      var (next, table) := Transition(from, e);
      links := links[peer := next];
      return table;
    }

    method NextLocalEventId() returns (id: Mesh.EventId)
      modifies this`localSeq
      ensures id == Mesh.EventId(selfDevice, old(localSeq)) && localSeq == old(localSeq) + 1
    {
      id := Mesh.EventId(selfDevice, localSeq);
      localSeq := localSeq + 1;
    }

    /** Stamps a local copy and addresses it to every linked peer. */
    method BroadcastLocal(hash: Id, kind: Kind, payload: Bytes, sensitive: bool)
      returns (id: Mesh.EventId, targets: map<Id, Action>)
      modifies this`localSeq, seen
      ensures (MeshView(), id, targets.Keys) == Mesh.Broadcast(old(MeshView()))
      ensures id == Mesh.EventId(selfDevice, old(localSeq)) && localSeq == old(localSeq) + 1
      ensures forall d :: d in targets <==> d in links && links[d].Linked?
      ensures forall d :: d in targets ==> targets[d] == SendItem(hash, kind, payload, sensitive)
      ensures View() == old(View())
    {
      id := NextLocalEventId();
      var isNew := seen.Observe(id);
      targets := map d | d in links && links[d].Linked? :: SendItem(hash, kind, payload, sensitive);
    }

    /** Takes an item on the first time only, and sends it on to everyone but its sender and its origin. */
    method IngestRemote(source: Id, id: Mesh.EventId) returns (r: Mesh.Ingest)
      modifies seen
      ensures (MeshView(), r) == Mesh.Ingested(old(MeshView()), source, id)
      ensures r.Ignored? <==> id in old(seen.inner)
      ensures r.Apply? ==> forall d :: d in r.forwardTo <==> d in links && links[d].Linked? && d != source && d != id.origin
      ensures View() == old(View())
    {
      var isNew := seen.Observe(id);
      if !isNew {
        return Mesh.Ignored;
      }
      var forwardTo := set d | d in links && links[d].Linked? && d != source && d != id.origin;
      assert forwardTo == Mesh.Targets(MeshView(), source, id);
      return Mesh.Apply(forwardTo);
    }
  }

  /** Expiry that removes anything makes the list shorter. */
  lemma {:induction false} ShorterWhenChanged(h: seq<History.HistoryItem>, now: nat, secs: nat)
    ensures |History.Unexpired(h, now, secs)| <= |h|
    ensures |History.Unexpired(h, now, secs)| == |h| <==> History.Unexpired(h, now, secs) == h
  {
    if h != [] { ShorterWhenChanged(h[1..], now, secs); }
  }

  /** Parking leaves the rest of the state alone. */
  lemma ParkedKeepsRest(s: AppState, e: Event)
    ensures IsClipboard(e) ==>
              var t := Parked(s, PayloadOf(e), e.preview);
              t == s.(pendingPayloads := t.pendingPayloads, st := s.st.(pending := t.st.pending))
  {
  }

  /** Which hashes go depends on the held payloads only. */
  lemma DroppedByPayload(s: AppState, st: State, peer: Id)
    ensures DroppedHashes(s.(st := st), peer) == DroppedHashes(s, peer)
  {
  }

  lemma DescribedKeepsQueues(s: AppState, e: Event)
    ensures var t := Described(s, e);
            t.pending == s.st.pending && t.history == s.st.history && t.vaultWipeGen == s.st.vaultWipeGen
  {
  }
}
