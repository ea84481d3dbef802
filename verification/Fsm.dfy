/** The link state machine: one pure table from phase and event to phase and actions. */
module Fsm {
  import opened Basics
  import opened Events

  datatype Phase = Idle | Discovering | Handshaking | Linked

  function PhaseName(p: Phase): string {
    match p
    case Idle => "idle"
    case Discovering => "discovering"
    case Handshaking => "handshaking"
    case Linked => "linked"
  }

  /** The battery level the handshake announces before `App` fills in the real one. */
  const PLACEHOLDER_BATTERY: nat := 100

  function Transition(phase: Phase, e: Event): (Phase, seq<Action>) {
    match e
    case ToggleOff => (Idle, [CloseSession, StopDiscovery, EmitState, EmitLog(Info)])
    case ManualUnpair => (Idle, [CloseSession, StopDiscovery, DropPeer, EmitState, EmitLog(Info)])
    case ToggleOn =>
      if phase.Idle? then (Discovering, [StartDiscovery, EmitState, EmitLog(Info)]) else (phase, [])
    case PeerSeen(peerId, _) =>
      (match phase
       case Idle => (Idle, [])
       case Discovering => (Handshaking, [SendHandshake(peerId), EmitLog(Info)])
       case Handshaking => (Handshaking, [])
       case Linked => (Linked, [EmitState, EmitLog(Ok)]))
    case NetworkChanged =>
      (match phase
       case Idle => (Idle, [])
       case Discovering => (Discovering, [StopDiscovery, StartDiscovery, EmitLog(Warn)])
       case Handshaking => (Discovering, [StartDiscovery])
       case Linked => (Linked, []))
    case UntrustedPeerSeen(_) => (Discovering, [DropPeer, EmitState, EmitLog(Warn), StartDiscovery])
    case GhostTimeout =>
      if phase.Discovering? || phase.Handshaking?
      then (Discovering, [DropPeer, EmitState, EmitLog(Warn), StartDiscovery])
      else (phase, [])
    case HandshakeOk =>
      if phase.Handshaking?
      then (Linked, [OpenSession, BurstReplay, SendBattery(PLACEHOLDER_BATTERY, false), EmitState, EmitLog(Ok)])
      else (phase, [])
    case HandshakeTimeout =>
      if phase.Handshaking? then (Discovering, [EmitLog(Warn), StartDiscovery]) else (phase, [])
    case PeerLost(_) =>
      (match phase
       case Handshaking => (Discovering, [EmitLog(Warn), StartDiscovery])
       case Linked => (Discovering, [CloseSession, EmitState, EmitLog(Warn), StartDiscovery])
       case _ => (phase, []))
    case LocalClipboardChange(hash, kind, payload, _, sensitive, _) =>
      if phase.Linked? then (Linked, [SendItem(hash, kind, payload, sensitive)]) else (phase, [])
    case FrameReceivedClipboard(hash, kind, payload, _, sensitive, _, _, _) =>
      if phase.Linked?
      then (Linked, [WriteClipboard(kind, payload, sensitive), AckItem(hash), EmitState, EmitLog(Ok)])
      else (phase, [AckItem(hash), EmitLog(Warn)])
    case BatteryChangedSelf(level, charging) =>
      if phase.Linked? then (Linked, [SendBattery(level, charging), EmitState]) else (phase, [EmitState])
    case BatteryChangedPeer(_, _) => (phase, [EmitState])
    case PeerPlatform(_) => (phase, [EmitState])
    case PeerCaps(_) => (phase, [EmitState])
    case MeshPeersChanged => (phase, [EmitState])
    case PrimaryFailover(_, _, _, _) => (phase, [EmitState])
    case Reconnect =>
      (match phase
       case Linked => (Linked, [BurstReplay])
       case Discovering => (Discovering, [StartDiscovery])
       case _ => (phase, []))
    case _ => (phase, [])
  }

  /** The session opens exactly on entry to `Linked`, and leaving `Linked` always closes it or drops the peer. */
  lemma LinkedIsASession(phase: Phase, e: Event)
    ensures var (next, actions) := Transition(phase, e);
            && (OpenSession in actions <==> !phase.Linked? && next.Linked?)
            && (phase.Linked? && !next.Linked? ==> CloseSession in actions || DropPeer in actions)
            && (CloseSession in actions || DropPeer in actions ==> !next.Linked?)
  {
  }

  /** Looking for peers always starts with the phase that does it. */
  lemma DiscoveringIsStarted(phase: Phase, e: Event)
    ensures var (next, actions) := Transition(phase, e);
            !phase.Discovering? && next.Discovering? ==> StartDiscovery in actions
  {
  }

  // ── The table read by phase and by action ───────────────────────────

  /** Which events end whatever is under way. */
  predicate EndsAll(e: Event) { e.ToggleOff? || e.ManualUnpair? || e.UntrustedPeerSeen? }

  /** When the device is in each phase after an event. */
  lemma PhaseExact(phase: Phase, e: Event)
    ensures var next := Transition(phase, e).0;
            && (next.Idle? <==> e.ToggleOff? || e.ManualUnpair? || (phase.Idle? && !e.ToggleOn? && !e.UntrustedPeerSeen?))
            && (next.Linked? <==>
                || (phase.Handshaking? && e.HandshakeOk?)
                || (phase.Linked? && !EndsAll(e) && !e.PeerLost?))
            && (next.Handshaking? <==>
                || (phase.Discovering? && e.PeerSeen?)
                || (phase.Handshaking? && !EndsAll(e) && !e.HandshakeOk? && !e.HandshakeTimeout? && !e.PeerLost?
                    && !e.NetworkChanged? && !e.GhostTimeout?))
  {
  }

  /** A handshake is sent exactly when a peer is sighted while discovering, and to that peer. */
  lemma HandshakeSent(phase: Phase, e: Event, peer: Id)
    ensures SendHandshake(peer) in Transition(phase, e).1 <==> phase.Discovering? && e.PeerSeen? && e.peerId == peer
  {
  }

  /** When the search for peers starts and stops. */
  lemma SearchExact(phase: Phase, e: Event)
    ensures var actions := Transition(phase, e).1;
            && (StartDiscovery in actions <==>
                || e.UntrustedPeerSeen?
                || (phase.Idle? && e.ToggleOn?)
                || (phase.Discovering? && (e.NetworkChanged? || e.GhostTimeout? || e.Reconnect?))
                || (phase.Handshaking? && (e.NetworkChanged? || e.GhostTimeout? || e.HandshakeTimeout? || e.PeerLost?))
                || (phase.Linked? && e.PeerLost?))
            && (StopDiscovery in actions <==> e.ToggleOff? || e.ManualUnpair? || (phase.Discovering? && e.NetworkChanged?))
  {
  }

  /** When a session is closed, a peer is dropped, and what was missed is replayed. */
  lemma ClosingExact(phase: Phase, e: Event)
    ensures var actions := Transition(phase, e).1;
            && (CloseSession in actions <==> e.ToggleOff? || e.ManualUnpair? || (phase.Linked? && e.PeerLost?))
            && (DropPeer in actions <==>
                e.ManualUnpair? || e.UntrustedPeerSeen? || (e.GhostTimeout? && (phase.Discovering? || phase.Handshaking?)))
            && (BurstReplay in actions <==> (phase.Handshaking? && e.HandshakeOk?) || (phase.Linked? && e.Reconnect?))
  {
  }

  /** A battery report is due when a session opens, and on every own reading while it is up. */
  lemma BatteryDue(phase: Phase, e: Event)
    ensures (exists a <- Transition(phase, e).1 :: a.SendBattery?) <==>
              (phase.Handshaking? && e.HandshakeOk?) || (phase.Linked? && e.BatteryChangedSelf?)
  {
    if phase.Handshaking? && e.HandshakeOk? { assert Transition(phase, e).1[2].SendBattery?; }
    if phase.Linked? && e.BatteryChangedSelf? { assert Transition(phase, e).1[0].SendBattery?; }
  }
}
