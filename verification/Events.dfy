/** What the daemon tells the state machine, and what the state machine asks for in return. */
module Events {
  import opened Basics
  import opened Classify

  datatype Event =
    | ToggleOn
    | ToggleOff
    | PeerSeen(peerId: Id, name: string)
    | PeerPlatform(platform: string)
    | PeerCaps(caps: seq<string>)
    | PeerLost(peerId: Id)
    | HandshakeOk
    | HandshakeTimeout
    | SetTrustedPeer(name: string)
    | UntrustedPeerSeen(name: string)
    | GhostTimeout
    | ManualUnpair
    | NetworkChanged
    | BatteryChangedSelf(level: nat, charging: bool)
    | BatteryChangedPeer(level: nat, charging: bool)
    | LocalClipboardChange(hash: Id, kind: Kind, payload: Bytes, preview: string, sensitive: bool, lamport: nat)
    | FrameReceivedClipboard(hash: Id, kind: Kind, payload: Bytes, preview: string, sensitive: bool, lamport: nat,
                             resync: bool, peerId: Id)
    | Reconnect
    | MeshPeersChanged
    | PrimaryFailover(peerId: Id, name: string, platform: string, caps: seq<string>)
    | SetFavorite(key: string, favorite: bool)
    | ClearHistory(includeFavorites: bool)
    | ResolvePending(key: string, allow: bool)
    | SasPairingStarted(peerId: Id)
    | SasLocalConfirmed(peerId: Id)
    | SasPeerConfirmed(peerId: Id)
    | SasPeerRejected(peerId: Id)
    | SasReset
    | PeerRevoked(peerId: Id)

  datatype LogLevel = Ok | Info | Warn

  datatype Action =
    | StartDiscovery
    | StopDiscovery
    | SendHandshake(peerId: Id)
    | DropPeer
    | OpenSession
    | CloseSession
    | SendItem(hash: Id, kind: Kind, payload: Bytes, sensitive: bool)
    | AckItem(hash: Id)
    | WriteClipboard(kind: Kind, payload: Bytes, sensitive: bool)
    | EmitState
    | EmitLog(severity: LogLevel)
    | BurstReplay
    | SendBattery(level: nat, charging: bool)
    | DuplicateDropped
    | ResyncApplySuppressed
    | PendingDropped(hashes: set<Id>)

  /** The two actions that move clipboard content. */
  predicate IsSync(a: Action) { a.SendItem? || a.WriteClipboard? }

  predicate IsClipboard(e: Event) { e.LocalClipboardChange? || e.FrameReceivedClipboard? }
}
