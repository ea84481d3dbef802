/** The composed clipboard state machine as a function of the old state and one event. */
module AppSpec {
  import opened Basics
  import opened Classify
  import opened Events
  import opened Fsm
  import opened History
  import opened Policy
  import Dedup
  import Hex
  import Text

  /** Battery level before the first reading. */
  const UNKNOWN_BATTERY: nat := 255

  const LAMPORT_OBSERVE_MAX: nat := 0x100_0000_0000
  const U64_MAX: nat := 0xFFFF_FFFF_FFFF_FFFF

  const DEFAULT_HISTORY_RETENTION_SECS: nat := 86400
  const HISTORY_RETENTION_CHOICES: set<nat> := {3600, 86400, 7 * 86400, 0}

  datatype Status = Inactive | Syncing

  datatype SasPhase = SasIdle | Showing | PeerConfirmed | LocalConfirmed | Confirmed | PeerRejected

  /** The display half of a parked item. */
  datatype PendingItem = PendingItem(
    hash: string, kind: Kind, preview: string, sensitive: bool, direction: Direction, peerId: Option<string>)

  /** The half of a parked item that never leaves the daemon. */
  datatype PendingPayload = PendingPayload(
    direction: Direction, kind: Kind, payload: Bytes, sensitive: bool, hash: Id, peerId: Option<Id>)

  datatype Battery = Battery(level: nat, charging: bool)

  /** The peer that the single-peer view shows. */
  datatype Peer = Peer(id: Id, name: string, platform: string, caps: seq<string>, battery: Battery)

  /** The pairing-words verification: how far it is, and with whom. */
  datatype Pairing = Pairing(phase: SasPhase, peer: Option<Id>)

  /** The snapshot that clients render. */
  datatype State = State(
    phase: string, on: bool, status: Status, battery: Battery, peer: Peer, trustedPeerName: Option<string>,
    history: seq<HistoryItem>, pending: seq<PendingItem>, vaultWipeGen: nat, historyRetentionSecs: nat, sas: Pairing)

  datatype AppState = AppState(
    phase: Phase, st: State, clock: nat, ring: Dedup.Ring, firewall: FirewallPolicy,
    lastPairedPeerId: Id, pendingPayloads: map<string, PendingPayload>, otherLinkedPeers: set<Id>)

  /** The wall clock as the event sees it. */
  datatype Wall = Wall(hhmm: string, millis: nat)

  type Digest = seq<byte> -> Id

  const NO_BATTERY: Battery := Battery(UNKNOWN_BATTERY, false)
  const NO_PEER: Peer := Peer(ZERO_ID, "", "", [], NO_BATTERY)
  const NO_PAIRING: Pairing := Pairing(SasIdle, None)

  const INITIAL_STATE: State := State(
    PhaseName(Idle), false, Inactive, NO_BATTERY, NO_PEER, None,
    [], [], 0, DEFAULT_HISTORY_RETENTION_SECS, NO_PAIRING)

  function Initial(firewall: FirewallPolicy): AppState {
    AppState(Idle, INITIAL_STATE, 0, Dedup.Ring(Dedup.DEDUP_CAPACITY, []), firewall, ZERO_ID, map[], {})
  }

  function StatusFor(st: State): Status { if st.on then Syncing else Inactive }

  /** The Lamport clock after seeing a peer's value, which is believed up to a bound. */
  function ClockObserve(clock: nat, seen: nat): nat {
    Min(Max(clock, Min(seen, LAMPORT_OBSERVE_MAX)) + 1, U64_MAX)
  }

  // ── Pending items ───────────────────────────────────────────────────

  function WithoutKeys(pending: seq<PendingItem>, keys: set<string>): seq<PendingItem> {
    if pending == [] then []
    else (if pending[0].hash in keys then [] else [pending[0]]) + WithoutKeys(pending[1..], keys)
  }

  function PeerKeys(payloads: map<string, PendingPayload>, peer: Id): set<string> {
    set k | k in payloads && payloads[k].peerId == Some(peer)
  }

  function DropPendingFor(s: AppState, peer: Id): AppState {
    var keys := PeerKeys(s.pendingPayloads, peer);
    s.(pendingPayloads := s.pendingPayloads - keys, st := s.st.(pending := WithoutKeys(s.st.pending, keys)))
  }

  /** The content hashes that `DropPendingFor` removes. */
  function DroppedHashes(s: AppState, peer: Id): set<Id> {
    set k | k in PeerKeys(s.pendingPayloads, peer) :: s.pendingPayloads[k].hash
  }

  function DropPendingAll(s: AppState): AppState { s.(pendingPayloads := map[], st := s.st.(pending := [])) }

  function DirectionOf(e: Event): Direction
    requires IsClipboard(e)
  {
    if e.LocalClipboardChange? then Outbound else Inbound
  }

  /** The sender of an inbound item; an outbound one is tied to no peer. */
  function SenderOf(e: Event): Option<Id>
    requires IsClipboard(e)
  {
    if e.LocalClipboardChange? then None else Some(e.peerId)
  }

  function PayloadOf(e: Event): PendingPayload
    requires IsClipboard(e)
  {
    PendingPayload(DirectionOf(e), e.kind, e.payload, e.sensitive, e.hash, SenderOf(e))
  }

  function HexOf(id: Option<Id>): Option<string> { if id.Some? then Some(Hex.Hex32(id.value)) else None }

  /** The display half of a parked payload. */
  function Shown(key: string, p: PendingPayload, preview: string): PendingItem {
    PendingItem(key, p.kind, preview, p.sensitive, p.direction, HexOf(p.peerId))
  }

  function Parked(s: AppState, p: PendingPayload, preview: string): AppState {
    var key := Hex.Hex32(p.hash);
    if key in s.pendingPayloads then s
    else s.(pendingPayloads := s.pendingPayloads[key := p],
            st := s.st.(pending := s.st.pending + [Shown(key, p, Text.Trim(preview))]))
  }

  /** The action that moves an item: send it out, or write it to the clipboard. */
  function SyncAction(p: PendingPayload): Action {
    match p.direction
    case Outbound => SendItem(p.hash, p.kind, p.payload, p.sensitive)
    case Inbound => WriteClipboard(p.kind, p.payload, p.sensitive)
  }

  function Resolved(s: AppState, key: string, allow: bool): (AppState, seq<Action>) {
    var s' := s.(pendingPayloads := s.pendingPayloads - {key}, st := s.st.(pending := WithoutKeys(s.st.pending, {key})));
    (s', if key in s.pendingPayloads && allow then [SyncAction(s.pendingPayloads[key]), EmitState] else [EmitState])
  }

  // ── Peers ───────────────────────────────────────────────────────────

  /** Another peer shows up while a handshake or a session with a named peer is under way. */
  predicate IsPeerMismatch(s: AppState, other: Id) {
    s.st.peer.name != [] && s.st.peer.id != other && (s.phase.Handshaking? || s.phase.Linked?)
  }

  /** A peer other than the last paired one takes over. */
  predicate IsSwap(s: AppState, peer: Id) {
    peer != ZERO_ID && s.lastPairedPeerId != ZERO_ID && peer != s.lastPairedPeerId
  }

  function HistoryWiped(s: AppState): AppState {
    DropPendingAll(s).(st := s.st.(history := [], pending := [], vaultWipeGen := s.st.vaultWipeGen + 1))
  }

  /** A swap forgets the replaced peer: only its parked items while other peers are linked, everything otherwise. */
  function SwapApplied(s: AppState, peer: Id): AppState {
    if !IsSwap(s, peer) then s
    else if s.otherLinkedPeers != {} then DropPendingFor(s, s.lastPairedPeerId)
    else HistoryWiped(s)
  }

  function PeerSighted(s: AppState, peer: Id, name: string): AppState {
    var s1 := s.(st := s.st.(peer := s.st.peer.(name := name)));
    if peer == ZERO_ID then s1
    else
      var s2 := SwapApplied(s1, peer);
      s2.(lastPairedPeerId := peer, st := s2.st.(peer := s2.st.peer.(id := peer)))
  }

  // ── Clipboard ───────────────────────────────────────────────────────

  function LocalRow(e: Event, w: Wall): HistoryItem
    requires e.LocalClipboardChange?
  {
    HistoryItem(e.kind, Text.Trim(e.preview), w.hhmm, Local, e.sensitive, e.lamport, Hex.Hex32(e.hash),
                false, false, None, w.millis)
  }

  function RemoteRow(e: Event, w: Wall): HistoryItem
    requires e.FrameReceivedClipboard?
  {
    HistoryItem(e.kind, Text.Trim(e.preview), w.hhmm, Remote, e.sensitive, e.lamport, Hex.Hex32(e.hash),
                false, e.resync, Some(Hex.Hex32(e.peerId)), w.millis)
  }

  function WithRow(s: AppState, row: HistoryItem): AppState { s.(st := s.st.(history := Pushed(s.st.history, row))) }

  /** The dedup key: the daemon's own digest, recomputed from the payload for a received item. */
  function KeyOf(digest: Digest, e: Event): Id
    requires IsClipboard(e)
  {
    if e.LocalClipboardChange? then e.hash else ContentKey(digest, e.kind, e.payload.raw)
  }

  /** An echo, or a catch-up delivery of content already held. */
  predicate IsDuplicate(digest: Digest, s: AppState, e: Event, w: Wall)
    requires IsClipboard(e)
  {
    var key := KeyOf(digest, e);
    || (e.FrameReceivedClipboard? && e.resync && Dedup.Contains(s.ring, key))
    || Dedup.IsEcho(s.ring, key, w.millis)
  }

  function Verdict(s: AppState, e: Event): Decision
    requires IsClipboard(e)
  {
    Decide(s.firewall, e.kind, e.sensitive, DirectionOf(e))
  }

  /** A local copy is recorded whatever the firewall says of sending it; a received item only when admitted. */
  predicate IsRecorded(s: AppState, e: Event)
    requires IsClipboard(e)
  {
    !e.sensitive && (e.LocalClipboardChange? || Verdict(s, e).Pass?)
  }

  function RowOf(e: Event, w: Wall): HistoryItem
    requires IsClipboard(e)
  {
    if e.LocalClipboardChange? then LocalRow(e, w) else RemoteRow(e, w)
  }

  function Copied(digest: Digest, s: AppState, e: Event, w: Wall): AppState
    requires IsClipboard(e)
  {
    var s1 := s.(clock := ClockObserve(s.clock, e.lamport));
    if IsDuplicate(digest, s, e, w) then s1
    else
      var s2 := s1.(ring := Dedup.ClipboardObserved(s.ring, KeyOf(digest, e), w.millis));
      if IsRecorded(s, e) then WithRow(s2, RowOf(e, w)) else s2
  }

  // ── One event ───────────────────────────────────────────────────────

  /** The SAS verdict after the local user confirms. */
  function LocalConfirm(p: SasPhase): SasPhase { if p.PeerConfirmed? || p.Confirmed? then Confirmed else LocalConfirmed }

  /** The SAS verdict after the peer confirms. */
  function PeerConfirm(p: SasPhase): SasPhase { if p.LocalConfirmed? || p.Confirmed? then Confirmed else PeerConfirmed }

  /** What one event does to the pairing-words verification, given whether a session is up. */
  function SasAfter(p: Pairing, linked: bool, e: Event): Pairing {
    match e
    case SasPairingStarted(id) => Pairing(Showing, Some(id))
    case SasLocalConfirmed(id) => if p.peer == Some(id) then p.(phase := LocalConfirm(p.phase)) else p
    case SasPeerConfirmed(id) => if p.peer == Some(id) then p.(phase := PeerConfirm(p.phase)) else p
    case SasPeerRejected(id) => if p.peer == Some(id) then p.(phase := PeerRejected) else p
    case SasReset => NO_PAIRING
    case UntrustedPeerSeen(_) => NO_PAIRING
    case ManualUnpair => NO_PAIRING
    case GhostTimeout => if linked then p else NO_PAIRING
    case PeerLost(id) =>
      if p.peer == Some(id) && (p.phase.Showing? || p.phase.PeerConfirmed? || p.phase.LocalConfirmed?) then NO_PAIRING
      else p
    case _ => p
  }

  /** What one event does to the shown peer. */
  function PeerAfter(s: AppState, e: Event): Peer {
    var peer := s.st.peer;
    match e
    case BatteryChangedPeer(level, charging) => peer.(battery := Battery(level, charging))
    case PeerPlatform(platform) => peer.(platform := platform)
    case PeerCaps(caps) => peer.(caps := caps)
    case PeerLost(_) => peer.(battery := NO_BATTERY)
    case PrimaryFailover(id, name, platform, caps) =>
      Peer(if id == ZERO_ID then peer.id else id, name, platform, caps, NO_BATTERY)
    case UntrustedPeerSeen(_) => NO_PEER
    case GhostTimeout => if s.phase.Linked? then peer else NO_PEER
    case ManualUnpair => NO_PEER
    case PeerRevoked(id) => if id != ZERO_ID && id == peer.id then NO_PEER else peer
    case _ => peer
  }

  /** What one event does to the master switch. */
  function OnAfter(on: bool, e: Event): bool {
    match e
    case ToggleOn => true
    case ToggleOff => false
    case ManualUnpair => false
    case _ => on
  }

  /** What one event does to the name of the trusted peer. */
  function TrustedAfter(st: State, e: Event): Option<string> {
    match e
    case SetTrustedPeer(name) => Some(name)
    case ManualUnpair => None
    case PeerRevoked(id) => if id != ZERO_ID && id == st.peer.id then None else st.trustedPeerName
    case _ => st.trustedPeerName
  }

  /** What one event does to the fields that only describe: batteries, the shown peer, the switch, the pairing. */
  function Described(s: AppState, e: Event): State {
    s.st.(on := OnAfter(s.st.on, e), trustedPeerName := TrustedAfter(s.st, e), peer := PeerAfter(s, e),
          battery := if e.BatteryChangedSelf? then Battery(e.level, e.charging) else s.st.battery,
          sas := SasAfter(s.st.sas, s.phase.Linked?, e))
  }

  /** Everything an event changes before the phase moves. */
  function Prepared(digest: Digest, s: AppState, e: Event, w: Wall): AppState {
    var s1 := s.(st := Described(s, e));
    match e
    case PeerSeen(id, name) => PeerSighted(s, id, name)
    case LocalClipboardChange(_, _, _, _, _, _) => Copied(digest, s, e, w)
    case FrameReceivedClipboard(_, _, _, _, _, _, _, _) => Copied(digest, s, e, w)
    case PrimaryFailover(id, _, _, _) => if id == ZERO_ID then s1 else s1.(lastPairedPeerId := id)
    case UntrustedPeerSeen(_) => HistoryWiped(s1)
    case GhostTimeout => if s.phase.Linked? then s1 else DropPendingFor(s1, s.st.peer.id)
    case ManualUnpair => DropPendingAll(s1)
    case SetFavorite(key, favorite) => s1.(st := s1.st.(history := Repinned(s.st.history, key, favorite)))
    case ClearHistory(includeFavorites) =>
      s1.(st := s1.st.(history := if includeFavorites then [] else Favorites(s.st.history),
                       vaultWipeGen := s.st.vaultWipeGen + 1))
    case PeerRevoked(id) => DropPendingFor(s1, id)
    case _ => s1
  }

  /** The hashes of the parked items an event drops for one peer. */
  function Dropped(s: AppState, e: Event): set<Id> {
    match e
    case PeerSeen(peerId, _) =>
      if IsSwap(s, peerId) && s.otherLinkedPeers != {} then DroppedHashes(s, s.lastPairedPeerId) else {}
    case GhostTimeout => if s.phase.Linked? then {} else DroppedHashes(s, s.st.peer.id)
    case PeerRevoked(peerId) => DroppedHashes(s, peerId)
    case _ => {}
  }

  /** The actions without the one kind that would sync an item in this direction. */
  function Stripped(dir: Direction, actions: seq<Action>): seq<Action> {
    if actions == [] then []
    else (if IsSyncOf(dir, actions[0]) then [] else [actions[0]]) + Stripped(dir, actions[1..])
  }

  predicate IsSyncOf(dir: Direction, a: Action) { if dir.Outbound? then a.SendItem? else a.WriteClipboard? }

  /** Every battery report carries this device's own reading, and none is sent before the first reading. */
  function WithOwnBattery(actions: seq<Action>, own: Battery): seq<Action> {
    if actions == [] then [] else OwnBattery(actions[0], own) + WithOwnBattery(actions[1..], own)
  }

  function OwnBattery(a: Action, own: Battery): seq<Action> {
    if !a.SendBattery? then [a] else if own.level != UNKNOWN_BATTERY then [SendBattery(own.level, own.charging)] else []
  }

  /** What the firewall leaves of the actions of a clipboard event. */
  function Filtered(s: AppState, e: Event, actions: seq<Action>): seq<Action> {
    if IsClipboard(e) && !Verdict(s, e).Pass? then Stripped(DirectionOf(e), actions) else actions
  }

  /** A catch-up delivery never writes the clipboard. */
  function WithoutResyncWrite(e: Event, actions: seq<Action>): seq<Action> {
    if !(e.FrameReceivedClipboard? && e.resync) then actions
    else Stripped(Inbound, actions) + if exists a <- actions :: a.WriteClipboard? then [ResyncApplySuppressed] else []
  }

  predicate AlwaysEmits(e: Event) {
    || e.ToggleOn? || e.ToggleOff? || e.BatteryChangedSelf? || e.BatteryChangedPeer? || e.PeerSeen? || e.PeerLost?
    || e.ManualUnpair? || e.UntrustedPeerSeen? || e.GhostTimeout? || e.SetTrustedPeer? || e.SetFavorite?
    || e.ClearHistory? || IsClipboard(e) || e.SasPairingStarted? || e.SasLocalConfirmed? || e.SasPeerConfirmed?
    || e.SasPeerRejected? || e.SasReset? || e.PeerRevoked?
  }

  function WithEmit(needed: bool, actions: seq<Action>): seq<Action> {
    if needed && EmitState !in actions then actions + [EmitState] else actions
  }

  /** The phase moves, the actions are filtered, and the derived fields follow. `dropped` left the pending queue. */
  function Concluded(s: AppState, e: Event, dropped: set<Id>): (AppState, seq<Action>) {
    var (next, table) := Transition(s.phase, e);
    var parked := if IsClipboard(e) && Verdict(s, e).Defer? then Parked(s, PayloadOf(e), e.preview) else s;
    var st := parked.st.(phase := PhaseName(next), status := StatusFor(parked.st));
    var purged := Filtered(s, e, table) + if dropped == {} then [] else [PendingDropped(dropped)];
    var own := WithOwnBattery(WithoutResyncWrite(e, purged), st.battery);
    (parked.(phase := next, st := st), WithEmit(AlwaysEmits(e), WithEmit(st.status != s.st.status, own)))
  }

  /** One event in, the new state and the actions for the daemon out. */
  function Step(digest: Digest, s: AppState, e: Event, w: Wall): (AppState, seq<Action>) {
    if e.ResolvePending? then Resolved(s, e.key, e.allow)
    else if e.PeerSeen? && IsPeerMismatch(s, e.peerId) then (s, [])
    else
      var s1 := Prepared(digest, s, e, w);
      if IsClipboard(e) && IsDuplicate(digest, s, e, w) then
        (s1, [DuplicateDropped] + if e.FrameReceivedClipboard? then [AckItem(e.hash)] else [])
      else Concluded(s1, e, Dropped(s, e))
  }

  // ── Everything that can happen to the machine ───────────────────────

  datatype Input =
    | Handle(event: Event, wall: Wall)
    | SetFirewall(policy: FirewallPolicy)
    | SetRetention(secs: nat, now: nat)
    | Expire(now: nat)
    | SetOtherLinked(peers: set<Id>)

  function Expired(s: AppState, now: nat): AppState {
    if s.st.historyRetentionSecs == 0 then s
    else s.(st := s.st.(history := Unexpired(s.st.history, now, s.st.historyRetentionSecs)))
  }

  function RetentionSet(s: AppState, secs: nat, now: nat): AppState {
    if secs in HISTORY_RETENTION_CHOICES then Expired(s.(st := s.st.(historyRetentionSecs := secs)), now) else s
  }

  function Next(digest: Digest, s: AppState, i: Input): (AppState, seq<Action>) {
    match i
    case Handle(e, w) => Step(digest, s, e, w)
    case SetFirewall(policy) => (s.(firewall := policy), [])
    case SetRetention(secs, now) => (RetentionSet(s, secs, now), [])
    case Expire(now) => (Expired(s, now), [])
    case SetOtherLinked(peers) => (s.(otherLinkedPeers := peers), [])
  }

  /** Feeds the newest saved rows to the dedup ring, the oldest of them first. */
  function Seeded(ring: Dedup.Ring, rows: seq<HistoryItem>): Dedup.Ring {
    if rows == [] then ring
    else
      var r := Seeded(ring, rows[1..]);
      match Hex.Hex32Decode(rows[0].hash)
      case None => r
      case Some(hash) => Dedup.Observed(r, hash)
  }

  /** The machine at boot, after the saved history was restored. */
  function Restored(s: AppState, rows: seq<HistoryItem>): AppState {
    var kept := Capped(rows, 0);
    var newest := if |kept| <= s.ring.capacity then kept else kept[..s.ring.capacity];
    s.(st := s.st.(history := kept), ring := Seeded(s.ring, newest))
  }
}
