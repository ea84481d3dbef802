/** What the daemon and its clients are told: every change of the snapshot, every dropped item, the real battery. */
module Notices {
  import opened Basics
  import opened Events
  import opened AppSpec
  import opened Actions
  import opened Frames
  import opened Fsm
  import opened Runs
  import opened Sessions
  import Policy

  // ── Changes of the snapshot ─────────────────────────────────────────

  /** An event that always notifies does, and a notice in the table is never filtered out of another event's actions. */
  lemma ConcludedEmits(s: AppState, e: Event, dropped: set<Id>)
    requires AlwaysEmits(e) || EmitState in Transition(s.phase, e).1
    ensures EmitState in Concluded(s, e, dropped).1
  {
    hide Transition, AlwaysEmits;
    var table := Transition(s.phase, e).1;
    var kept := WithoutResyncWrite(e, Filtered(s, e, table) + if dropped == {} then [] else [PendingDropped(dropped)]);
    var own := WithOwnBattery(kept, s.st.battery);
    if !AlwaysEmits(e) {
      ClipboardAlwaysEmits(e);
      InMeansCount(kept, EmitState);
      OwnBatteryCount(kept, s.st.battery, EmitState);
      InMeansCount(own, EmitState);
    }
    ConcludedActions(s, e, dropped);
  }

  lemma ClipboardAlwaysEmits(e: Event)
    ensures IsClipboard(e) ==> AlwaysEmits(e)
  {
  }

  lemma ConcludedActions(s: AppState, e: Event, dropped: set<Id>)
    ensures var table := Transition(s.phase, e).1;
            var kept := WithoutResyncWrite(e, Filtered(s, e, table) + if dropped == {} then [] else [PendingDropped(dropped)]);
            Concluded(s, e, dropped).1 ==
            WithEmit(AlwaysEmits(e), WithEmit(StatusFor(s.st) != s.st.status, WithOwnBattery(kept, s.st.battery)))
  {
    hide Transition, AlwaysEmits, Filtered, WithoutResyncWrite, WithOwnBattery, WithEmit;
    ConcludedFrame(s, e, dropped);
  }

  /** The two ways back from a handshake that say nothing to the clients. */
  predicate IsSilent(phase: Phase, e: Event) { phase.Handshaking? && (e.HandshakeTimeout? || e.NetworkChanged?) }

  /** The events that change nothing but the phase. */
  predicate IsPhaseOnly(e: Event) {
    e.HandshakeOk? || e.HandshakeTimeout? || e.NetworkChanged? || e.Reconnect? || e.MeshPeersChanged?
  }

  lemma TableEmits(phase: Phase, e: Event)
    ensures !AlwaysEmits(e) && !e.ResolvePending? ==>
              EmitState in Transition(phase, e).1 || (IsPhaseOnly(e) && (IsSilent(phase, e) || Transition(phase, e).0 == phase))
    ensures IsSilent(phase, e) ==> Transition(phase, e).0.Discovering? && EmitState !in Transition(phase, e).1 && !AlwaysEmits(e)
  {
  }

  lemma PhaseOnly(digest: Digest, s: AppState, e: Event, w: Wall)
    requires IsPhaseOnly(e)
    ensures Prepared(digest, s, e, w) == s && Dropped(s, e) == {} && !IsClipboard(e) && !e.ResolvePending?
  {
  }

  /** Every change of the snapshot is announced, except a handshake that times out or loses the network. */
  lemma ChangesAreAnnounced(digest: Digest, s: AppState, e: Event, w: Wall)
    requires IsDerived(s)
    ensures var (t, actions) := Step(digest, s, e, w);
            t.st != s.st && !IsSilent(s.phase, e) ==> EmitState in actions
  {
    hide Prepared, Concluded, IsDuplicate, Dropped, Transition, AlwaysEmits, IsPeerMismatch, WithoutKeys;
    TableEmits(s.phase, e);
    PreparedPhase(digest, s, e, w);
    if IsClipboard(e) && IsDuplicate(digest, s, e, w) {
      DuplicateChangesNothing(digest, s, e, w);
    } else if !e.ResolvePending? && !(e.PeerSeen? && IsPeerMismatch(s, e.peerId)) {
      var s1 := Prepared(digest, s, e, w);
      if AlwaysEmits(e) || EmitState in Transition(s.phase, e).1 {
        ConcludedEmits(s1, e, Dropped(s, e));
      } else {
        PhaseOnly(digest, s, e, w);
        ConcludedFrame(s, e, {});
      }
    }
  }

  lemma DuplicateChangesNothing(digest: Digest, s: AppState, e: Event, w: Wall)
    requires IsClipboard(e) && IsDuplicate(digest, s, e, w)
    ensures Prepared(digest, s, e, w).st == s.st
  {
    hide IsDuplicate;
  }

  /** In those two cases the shown phase does change, and nobody is told. */
  lemma SilentChanges(digest: Digest, s: AppState, e: Event, w: Wall)
    requires IsDerived(s) && IsSilent(s.phase, e)
    ensures var (t, actions) := Step(digest, s, e, w);
            t.st.phase == "discovering" && s.st.phase == "handshaking" && EmitState !in actions
  {
    hide Prepared, Dropped, AlwaysEmits;
    TableEmits(s.phase, e);
    PhaseOnly(digest, s, e, w);
    ConcludedActions(s, e, {});
    ConcludedFrame(s, e, {});
    var table := Transition(s.phase, e).1;
    InMeansCount(table, EmitState);
    OwnBatteryCount(table, s.st.battery, EmitState);
    InMeansCount(WithOwnBattery(table, s.st.battery), EmitState);
    assert table + [] == table;
  }

  /** The clients are notified of every event but an echo, a sighted stranger, a reconnect, a change of network, a
      handshake that times out, and one that succeeds while none is under way. */
  lemma NotifiedExact(digest: Digest, s: AppState, e: Event, w: Wall)
    requires IsDerived(s)
    ensures var actions := Step(digest, s, e, w).1;
            EmitState in actions <==>
            && DuplicateDropped !in actions
            && !(e.PeerSeen? && (s.phase.Handshaking? || s.phase.Linked?) && s.st.peer.name != [] && e.peerId != s.st.peer.id)
            && !e.Reconnect? && !e.NetworkChanged? && !e.HandshakeTimeout? && (e.HandshakeOk? ==> s.phase.Handshaking?)
  {
    hide Prepared, Concluded, IsDuplicate, Dropped, Transition, AlwaysEmits, WithoutKeys, WithEmit;
    var s1 := Prepared(digest, s, e, w);
    PreparedPhase(digest, s, e, w);
    TableNotifies(s.phase, e);
    NeverCalledRepeat(s1, e, Dropped(s, e));
    if IsNotified(s.phase, e) && !e.ResolvePending? {
      ConcludedEmits(s1, e, Dropped(s, e));
    } else if !e.ResolvePending? {
      PhaseOnly(digest, s, e, w);
      NotNotified(s, e);
    }
  }

  predicate IsNotified(phase: Phase, e: Event) {
    !e.Reconnect? && !e.NetworkChanged? && !e.HandshakeTimeout? && (e.HandshakeOk? ==> phase.Handshaking?)
  }

  lemma TableNotifies(phase: Phase, e: Event)
    ensures IsNotified(phase, e) && !e.ResolvePending? ==> AlwaysEmits(e) || EmitState in Transition(phase, e).1
    ensures !IsNotified(phase, e) ==> !AlwaysEmits(e) && EmitState !in Transition(phase, e).1 && IsPhaseOnly(e)
  {
  }

  lemma NeverCalledRepeat(s: AppState, e: Event, dropped: set<Id>)
    ensures DuplicateDropped !in Concluded(s, e, dropped).1
  {
    hide Concluded, Transition;
    ConcludedExact(s, e, dropped, DuplicateDropped);
    NoRepeatInTable(s.phase, e);
    InMeansCount(Transition(s.phase, e).1, DuplicateDropped);
    InMeansCount(Concluded(s, e, dropped).1, DuplicateDropped);
  }

  lemma NoRepeatInTable(phase: Phase, e: Event)
    ensures DuplicateDropped !in Transition(phase, e).1
  {
  }

  lemma NotNotified(s: AppState, e: Event)
    requires IsDerived(s) && IsPhaseOnly(e) && !AlwaysEmits(e) && EmitState !in Transition(s.phase, e).1
    ensures EmitState !in Concluded(s, e, {}).1
  {
    hide Concluded, Transition, AlwaysEmits, WithOwnBattery;
    ConcludedActions(s, e, {});
    var table := Transition(s.phase, e).1;
    InMeansCount(table, EmitState);
    OwnBatteryCount(table, s.st.battery, EmitState);
    InMeansCount(WithOwnBattery(table, s.st.battery), EmitState);
    assert table + [] == table;
  }

  // ── Battery ─────────────────────────────────────────────────────────

  lemma {:induction false} OwnBatteryOnly(actions: seq<Action>, own: Battery)
    ensures forall a :: a in WithOwnBattery(actions, own) && a.SendBattery? ==>
                          a == SendBattery(own.level, own.charging) && own.level != UNKNOWN_BATTERY
    ensures SendBattery(own.level, own.charging) in WithOwnBattery(actions, own) <==>
              own.level != UNKNOWN_BATTERY && exists a <- actions :: a.SendBattery?
  {
    if actions != [] {
      OwnBatteryOnly(actions[1..], own);
      assert actions == [actions[0]] + actions[1..];
    }
  }

  /** A battery report only ever carries this device's last reading, and none goes out before the first one. */
  lemma BatteryIsReal(digest: Digest, s: AppState, e: Event, w: Wall, a: Action)
    requires a in Step(digest, s, e, w).1 && a.SendBattery?
    ensures var own := Step(digest, s, e, w).0.st.battery;
            a == SendBattery(own.level, own.charging) && own.level != UNKNOWN_BATTERY
  {
    hide Prepared, IsDuplicate, Dropped, Transition, AlwaysEmits, IsPeerMismatch, WithOwnBattery, Concluded;
    if !e.ResolvePending? && !(IsClipboard(e) && IsDuplicate(digest, s, e, w)) {
      var s1, dropped := Prepared(digest, s, e, w), Dropped(s, e);
      ConcludedActions(s1, e, dropped);
      ConcludedFrame(s1, e, dropped);
      OwnBatteryOnly(
        WithoutResyncWrite(e, Filtered(s1, e, Transition(s1.phase, e).1) + if dropped == {} then [] else [PendingDropped(dropped)]),
        s1.st.battery);
    }
  }

  lemma FilteredBattery(s: AppState, e: Event, table: seq<Action>, tail: seq<Action>)
    requires forall a <- tail :: !a.SendBattery?
    ensures (exists a <- WithoutResyncWrite(e, Filtered(s, e, table) + tail) :: a.SendBattery?) <==>
            exists a <- table :: a.SendBattery?
  {
    hide Verdict;
    if IsClipboard(e) { StrippedBattery(DirectionOf(e), table); }
    StrippedBattery(Policy.Inbound, Filtered(s, e, table) + tail);
  }

  lemma {:induction false} StrippedBattery(dir: Policy.Direction, actions: seq<Action>)
    ensures (exists a <- Stripped(dir, actions) :: a.SendBattery?) <==> exists a <- actions :: a.SendBattery?
  {
    if actions != [] {
      StrippedBattery(dir, actions[1..]);
      assert actions == [actions[0]] + actions[1..];
    }
  }

  /** This device's last reading goes out iff there is one, and a session opens or the reading comes while it is up. */
  lemma BatteryIsSent(digest: Digest, s: AppState, e: Event, w: Wall)
    ensures var (t, actions) := Step(digest, s, e, w);
            SendBattery(t.st.battery.level, t.st.battery.charging) in actions <==>
            && t.st.battery.level != 255
            && ((s.phase.Handshaking? && e.HandshakeOk?) || (s.phase.Linked? && e.BatteryChangedSelf?))
  {
    hide Prepared, IsDuplicate, Dropped, Transition, AlwaysEmits, IsPeerMismatch, WithOwnBattery, Concluded,
         Filtered, WithoutResyncWrite;
    PreparedPhase(digest, s, e, w);
    BatteryDue(s.phase, e);
    if !e.ResolvePending? && !(e.PeerSeen? && IsPeerMismatch(s, e.peerId)) && !(IsClipboard(e) && IsDuplicate(digest, s, e, w)) {
      var s1, dropped := Prepared(digest, s, e, w), Dropped(s, e);
      var table, tail := Transition(s.phase, e).1, if dropped == {} then [] else [PendingDropped(dropped)];
      ConcludedActions(s1, e, dropped);
      ConcludedFrame(s1, e, dropped);
      FilteredBattery(s1, e, table, tail);
      OwnBatteryOnly(WithoutResyncWrite(e, Filtered(s1, e, table) + tail), s1.st.battery);
    }
  }

  // ── What comes first ────────────────────────────────────────────────

  /** The first action of the table stays the first one, unless it is filtered out. */
  lemma HeadStays(s: AppState, e: Event, dropped: set<Id>)
    requires Transition(s.phase, e).1 != [] && !Transition(s.phase, e).1[0].SendBattery?
    requires IsClipboard(e) ==> Verdict(s, e).Pass? && !(e.FrameReceivedClipboard? && e.resync)
    ensures Concluded(s, e, dropped).1 != [] && Concluded(s, e, dropped).1[0] == Transition(s.phase, e).1[0]
  {
    hide Concluded, Transition, AlwaysEmits, Verdict, WithOwnBattery, WithEmit;
    ConcludedActions(s, e, dropped);
    var kept := Transition(s.phase, e).1 + if dropped == {} then [] else [PendingDropped(dropped)];
    OwnBatteryHead(kept, s.st.battery);
    var own := WithOwnBattery(kept, s.st.battery);
    EmitHead(StatusFor(s.st) != s.st.status, own);
    EmitHead(AlwaysEmits(e), WithEmit(StatusFor(s.st) != s.st.status, own));
  }

  lemma OwnBatteryHead(actions: seq<Action>, own: Battery)
    requires actions != [] && !actions[0].SendBattery?
    ensures WithOwnBattery(actions, own) != [] && WithOwnBattery(actions, own)[0] == actions[0]
  {
  }

  lemma EmitHead(needed: bool, actions: seq<Action>)
    requires actions != []
    ensures WithEmit(needed, actions) != [] && WithEmit(needed, actions)[0] == actions[0]
  {
  }

  lemma TableOrder(phase: Phase, e: Event)
    ensures var actions := Transition(phase, e).1;
            && (OpenSession in actions ==> actions[0] == OpenSession)
            && (CloseSession in actions ==> actions[0] == CloseSession)
            && (StopDiscovery in actions && StartDiscovery in actions ==> actions[0] == StopDiscovery)
            && (IsClipboard(e) ==> OpenSession !in actions && CloseSession !in actions && StopDiscovery !in actions)
  {
  }

  /** A session is opened before anything is sent over it, and closed before anything else is done; a search that is
      restarted is stopped first. */
  lemma SessionComesFirst(digest: Digest, s: AppState, e: Event, w: Wall)
    ensures var actions := Step(digest, s, e, w).1;
            && (OpenSession in actions ==> actions[0] == OpenSession)
            && (CloseSession in actions ==> actions[0] == CloseSession)
            && (StopDiscovery in actions && StartDiscovery in actions ==> actions[0] == StopDiscovery)
  {
    hide Prepared, Concluded, IsDuplicate, Dropped, Transition, WithoutKeys, IsPeerMismatch, Count;
    ResolvedOpensNothing(s, e);
    if !e.ResolvePending? && !(e.PeerSeen? && IsPeerMismatch(s, e.peerId)) && !(IsClipboard(e) && IsDuplicate(digest, s, e, w)) {
      var s1, dropped := Prepared(digest, s, e, w), Dropped(s, e);
      var table, actions := Transition(s.phase, e).1, Concluded(s1, e, dropped).1;
      PreparedPhase(digest, s, e, w);
      TableOrder(s.phase, e);
      forall a | a == OpenSession || a == CloseSession || a == StopDiscovery || a == StartDiscovery
        ensures a in actions <==> a in table
      {
        ConcludedExact(s1, e, dropped, a);
        InMeansCount(actions, a);
        InMeansCount(table, a);
      }
      if OpenSession in table || CloseSession in table || (StopDiscovery in table && StartDiscovery in table) {
        HeadStays(s1, e, dropped);
      }
    }
  }

  lemma ResolvedOpensNothing(s: AppState, e: Event)
    ensures e.ResolvePending? ==>
              var actions := Resolved(s, e.key, e.allow).1;
              OpenSession !in actions && CloseSession !in actions && StopDiscovery !in actions
  {
  }

  // ── Dropped items ───────────────────────────────────────────────────

  lemma TableDropsNothing(phase: Phase, e: Event, hashes: set<Id>)
    ensures PendingDropped(hashes) !in Transition(phase, e).1
  {
  }

  lemma NoticeCount(s: AppState, e: Event, dropped: set<Id>, hashes: set<Id>)
    ensures PendingDropped(hashes) in Concluded(s, e, dropped).1 <==> hashes == dropped != {}
  {
    hide Concluded, Transition, AlwaysEmits, Filtered, WithOwnBattery, WithEmit;
    var a, table := PendingDropped(hashes), Transition(s.phase, e).1;
    var tail := if dropped == {} then [] else [PendingDropped(dropped)];
    var filtered := Filtered(s, e, table);
    var kept := WithoutResyncWrite(e, filtered + tail);
    var own := WithOwnBattery(kept, s.st.battery);
    var once := WithEmit(StatusFor(s.st) != s.st.status, own);
    TableDropsNothing(s.phase, e, hashes);
    FilteredDropsNothing(s, e, table, hashes);
    ResyncKeepsNotice(e, filtered + tail, hashes);
    InMeansCount(kept, a);
    OwnBatteryCount(kept, s.st.battery, a);
    InMeansCount(own, a);
    EmitCount(StatusFor(s.st) != s.st.status, own, a);
    InMeansCount(once, a);
    EmitCount(AlwaysEmits(e), once, a);
    InMeansCount(WithEmit(AlwaysEmits(e), once), a);
    ConcludedActions(s, e, dropped);
  }

  lemma FilteredDropsNothing(s: AppState, e: Event, table: seq<Action>, hashes: set<Id>)
    requires PendingDropped(hashes) !in table
    ensures PendingDropped(hashes) !in Filtered(s, e, table)
  {
    hide Stripped, Verdict;
    if IsClipboard(e) {
      StrippedCount(DirectionOf(e), table, PendingDropped(hashes));
      InMeansCount(table, PendingDropped(hashes));
      InMeansCount(Stripped(DirectionOf(e), table), PendingDropped(hashes));
    }
  }

  lemma ResyncKeepsNotice(e: Event, actions: seq<Action>, hashes: set<Id>)
    ensures PendingDropped(hashes) in WithoutResyncWrite(e, actions) <==> PendingDropped(hashes) in actions
  {
    hide Stripped;
    StrippedCount(Policy.Inbound, actions, PendingDropped(hashes));
    InMeansCount(actions, PendingDropped(hashes));
    InMeansCount(Stripped(Policy.Inbound, actions), PendingDropped(hashes));
  }

  /** The peer whose parked items alone this event drops. */
  function LeavingPeer(s: AppState, e: Event): Option<Id> {
    match e
    case PeerRevoked(peerId) => Some(peerId)
    case GhostTimeout => if s.phase.Linked? then None else Some(s.st.peer.id)
    case PeerSeen(peerId, _) => if IsSwap(s, peerId) && s.otherLinkedPeers != {} then Some(s.lastPairedPeerId) else None
    case _ => None
  }

  ghost function GoneHashes(before: map<string, PendingPayload>, after: map<string, PendingPayload>): set<Id> {
    set k | k in before && k !in after :: before[k].hash
  }

  /** When one peer's parked items are dropped, the daemon is told the hashes of exactly the items that left the queue;
      and there is no such notice otherwise. */
  lemma DropsAreAnnounced(digest: Digest, s: AppState, e: Event, w: Wall, hashes: set<Id>)
    ensures var (t, actions) := Step(digest, s, e, w);
            PendingDropped(hashes) in actions <==>
            && LeavingPeer(s, e).Some? && !(e.PeerSeen? && IsPeerMismatch(s, e.peerId))
            && hashes == GoneHashes(s.pendingPayloads, t.pendingPayloads) != {}
  {
    hide Concluded, IsDuplicate, IsPeerMismatch, Transition, Prepared, Copied, PeerSighted, Described, WithoutKeys, Resolved;
    ResolvedIsQuiet(s, e, hashes);
    if !e.ResolvePending? && !(e.PeerSeen? && IsPeerMismatch(s, e.peerId)) {
      var s1 := Prepared(digest, s, e, w);
      NoticeCount(s1, e, Dropped(s, e), hashes);
      if LeavingPeer(s, e).Some? {
        LeavingIsGone(digest, s, e, w);
        ConcludedFrame(s1, e, Dropped(s, e));
      }
    }
  }

  lemma ResolvedIsQuiet(s: AppState, e: Event, hashes: set<Id>)
    ensures e.ResolvePending? ==> PendingDropped(hashes) !in Resolved(s, e.key, e.allow).1
  {
  }

  lemma LeavingIsGone(digest: Digest, s: AppState, e: Event, w: Wall)
    requires LeavingPeer(s, e).Some?
    ensures Dropped(s, e) == GoneHashes(s.pendingPayloads, Prepared(digest, s, e, w).pendingPayloads)
  {
    hide Described, WithoutKeys, Copied;
    var after := Prepared(digest, s, e, w).pendingPayloads;
    var keys := PeerKeys(s.pendingPayloads, LeavingPeer(s, e).value);
    assert after == s.pendingPayloads - keys;
    assert forall k :: k in keys <==> k in s.pendingPayloads && k !in after;
  }
}
