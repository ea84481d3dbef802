# FluxSync: verified model

FluxSync keeps the clipboards of a few trusted devices in step. This project models its pure core and the daemon's
clock-driven stores, and proves properties of whole runs.

Five parts, from the bottom up:

- **Clipboard state machine.** `AppSpec.Step` is one event as a function of the old state; `App.App` is the object with
  the fields of the original, whose `Handle` is proved to have exactly that effect. A run (`Runs`) starts from any saved
  history and policy and takes any inputs in any order: events, policy and retention changes, expiry, changes of the
  set of other linked peers. On runs: what is synced and when (`Clipboard`, `Parking`), the history list
  (`HistoryRuns`), peer swaps (`PeerSwap`), pairing words (`Sas`), sessions and derived fields (`Sessions`), what the
  daemon and its clients are told (`Notices`). `ItemLaws` and `PeerLaws` tell what becomes of an item and who the peer is
  in terms of the event, the settings and the past of the run alone.
- **Mesh.** `Mesh` is one node; `MeshNet` is a network of nodes with a multiset of messages under way, delivered in any
  order: no loops, no echoes, exact coverage, and a bound on the number of deliveries.
- **Redials and the handshake limiter.** `Backoff`, `RateLimit`, and the two against each other in `TimedPair`, in
  nanoseconds, where one token is the 6 s refill interval.
- **Anti-replay window.** `Replay` shows that the 64-bit bitmap stands for the set of accepted nonces; the word
  operations are in `Word64`. The scheme is that of section 3.4.3 of RFC 4303.
- **Stores and formats.** The dedup ring (`Dedup`), the vault (`HistoryStore`), trust on disk (`Trust`) and what a restart
  brings back of it (`Restart`), file framing
  (`FileFraming`), line-ending canonicalisation (`Classify`), the capped line read (`LineReader`), with the string, UTF-8
  and hex functions they need (`Text`, `Utf8`, `Hex`).

A content hash is a parameter `digest`. Where two different byte strings must not collide, the lemma says so of those two
strings (`NoCollision`). The session cipher is a pair of functions: one seals a plaintext under a nonce, the other returns the
plaintext of an authentic frame. How an id is computed from a key, and which keys are acceptable, are parameters (`Keys`).

Results that differ from what the source's comments say or suggest:

- `SanitizeTwiceDiffers`: making a file name safe is not idempotent, so a framed name is cut twice. `RoundTripExact` gives
  the condition: the name that is sent is kept iff it has no outer white space.
- `LongEnoughExact`: "the limiter can never be saturated by us" holds of redials after failed dials, and across sessions
  iff these last at least 26.25 s. The 15 s that count as stable reset the backoff too early
  (`StableSessionIsTooShort`), and no length below 26.25 s is enough: each ramp and session drain the bucket further.
- `SilentChanges`: a handshake that times out, or loses the network, changes the shown phase without an `EmitState`;
  `ChangesAreAnnounced` shows that every other change is announced.
- `UnpinExceedsTheCap`: the cap of 50 unpinned rows is not an invariant; `PlainStep` says exactly which input breaks it and
  `AtMostFifty` when it holds again.
- `RestartExact`: the pairing window lets in up to 256 peers, the registry is read back up to 64. A restart changes nobody's
  trust iff no more than 64 are trusted (all by acceptable keys); `RestartAnywhere` says so of every point of every run.
- `LosesNoMoreExact`: saving and loading equals one prune iff no entry inside the cap is older than one beyond it; for
  all caps, iff the list is in the order that the code assumes (`NewestFirstExact`).
- Unpairing, losing or revoking a peer keeps its history; only the next, different peer clears it, and not while other
  peers are linked or by failover. `PeerSwap.Crosses` is exactly that exception (`CrossesExact`), and
  `PeerSwap.SwapIsScoped` says what a swap with others linked drops.

## Model

| member | source | states |
|---|---|---|
| App.App.constructor | crates/fluxsync-core/src/app.rs:149-176 | a new app is idle, off, with empty queues, history, ring and seen-set |
| App.App.Handle | crates/fluxsync-core/src/app.rs:598-1103 | the whole effect of one event on every field, and the action list, is that of `Step`; the mesh fields are untouched |
| App.App.ObserveItem | crates/fluxsync-core/src/app.rs:673-801 | clock, ring and history after a copied or received item, and whether it is suppressed as an echo |
| App.App.SeePeer | crates/fluxsync-core/src/app.rs:625-658 | who the peer is afterwards, and what a swap drops, scoped by the other linked peers |
| App.App.ForgetPeer | crates/fluxsync-core/src/app.rs:852-897 | what a lost, revoked, unpaired or untrusted peer takes with it, and the hashes dropped for it |
| App.App.Prepare | crates/fluxsync-core/src/app.rs:802-987 | every other event's changes before the phase moves |
| App.App.MoveSas | crates/fluxsync-core/src/app.rs:893-946 | the pairing-words fields after one event |
| App.App.ApplyFirewall | crates/fluxsync-core/src/app.rs:298-351 | what is left of the actions, and that exactly an `Ask` item is parked |
| App.App.Filter | crates/fluxsync-core/src/app.rs:1007-1049 | the actions after firewall, dropped-items notice, catch-up rule and battery rewrite |
| App.App.Conclude | crates/fluxsync-core/src/app.rs:1000-1103 | phase, derived fields and the final action list |
| App.App.ParkPending | crates/fluxsync-core/src/app.rs:357-390 | both halves of a parked item are added, unless its hash is parked already |
| App.App.ResolvePending | crates/fluxsync-core/src/app.rs:395-417 | the effect is that of `Resolved`, which `Parking.ResolutionExact` describes |
| App.App.DropFor | crates/fluxsync-core/src/app.rs:438-466 | only the items of that peer go, and their hashes are returned |
| App.App.RestoreHistory | crates/fluxsync-core/src/app.rs:1168-1177 | the restored list is capped, and the ring is fed its newest rows, oldest of them first |
| App.App.ExpireHistory | crates/fluxsync-core/src/app.rs:252-263 | the rows left are the unexpired ones, and the result says whether any went |
| App.App.SetHistoryRetention | crates/fluxsync-core/src/app.rs:240-247 | only the four offered periods are accepted, and the list is expired at once |
| App.App.HandlePeer | crates/fluxsync-core/src/app.rs:516-521 | one peer's link moves by the table; nothing else does |
| App.App.BroadcastLocal | crates/fluxsync-core/src/app.rs:533-570 | a fresh id, marked as seen, and one send for every linked peer |
| App.App.IngestRemote | crates/fluxsync-core/src/app.rs:577-588 | an id is taken on the first time only, for everyone linked but its sender and origin |
| Fsm.LinkedIsASession | crates/fluxsync-core/src/fsm.rs:46-298 | over the whole table: a session opens exactly on entry to `Linked`, and leaving it closes or drops |
| Fsm.DiscoveringIsStarted | crates/fluxsync-core/src/fsm.rs:46-298 | every entry into `Discovering` starts discovery |
| Fsm.PhaseExact | crates/fluxsync-core/src/fsm.rs:46-298 | for each phase, exactly the phases and events it is entered or kept from |
| Fsm.SearchExact | crates/fluxsync-core/src/fsm.rs:46-298 | the search for peers starts and stops exactly on these phases and events |
| Fsm.ClosingExact | crates/fluxsync-core/src/fsm.rs:46-298 | a session is closed, a peer dropped, and a replay asked for exactly on these phases and events |
| Actions.ConcludedExact | crates/fluxsync-core/src/app.rs:1000-1049 | how often each action of the table survives the firewall and the catch-up rule |
| Clipboard.SyncExact | crates/fluxsync-core/src/app.rs:673-801 | in every phase and policy: written or sent once iff fresh, linked, passed and no catch-up; a received item is acked exactly once, with its own hash |
| Clipboard.RecordedExact | crates/fluxsync-core/src/app.rs:764-801 | a history row iff fresh, admitted and no secret (a local copy: iff fresh and no secret); parked iff fresh, held and not parked yet |
| Clipboard.RingOfRun | crates/fluxsync-core/src/app.rs:686-764 | the ring of any run holds the 50 latest distinct fresh hashes it was shown, saved rows included |
| ItemLaws.RepeatIsDropped | crates/fluxsync-core/src/app.rs:686-691 | an item whose key (spelled out for text, bytes and local copies) is the last fresh one of the run, or was fresh less than 5 s ago, or is a catch-up of one still held, changes only the clock and is only acknowledged |
| ItemLaws.FreshItemMoves | crates/fluxsync-core/src/app.rs:673-801 | any other item is sent or written once and as it came iff linked, admitted by the rules and no catch-up; a received one is acknowledged once |
| ItemLaws.MovedFirst | crates/fluxsync-core/src/fsm.rs:46-298 | an item is sent or written before it is acknowledged |
| ItemLaws.FreshItemIsReported | crates/fluxsync-core/src/app.rs:1018-1031 | it is never reported as a repeat, and a catch-up kept off the clipboard always is |
| ItemLaws.FreshItemIsRecorded | crates/fluxsync-core/src/app.rs:692-801 | the row it leaves, field by field, and when |
| ItemLaws.FreshItemIsParked | crates/fluxsync-core/src/app.rs:298-390 | an item that is neither admitted nor refused waits under its hash, tied to its sender; nothing else does |
| ItemLaws.ItemTouchesNoMore | crates/fluxsync-core/src/app.rs:673-801 | no other field changes with an item, in any run |
| Dedup.DedupRing.Observe | crates/fluxsync-core/src/dedup.rs:96-105 | new iff not held; nothing changes when held |
| Dedup.DedupRing.ObserveClipboard | crates/fluxsync-core/src/dedup.rs:113-136 | fresh iff no echo; a fresh repeat moves to the newest place |
| Dedup.RingIsLatestDistinct | crates/fluxsync-core/src/dedup.rs:96-136 | over every run the ring is the last `capacity` distinct hashes, ordered by their latest fresh observation |
| Dedup.EchoExact | crates/fluxsync-core/src/dedup.rs:107-129 | an echo iff it repeats the newest entry, or is held with a fresh time less than 5 s ago |
| Parking.AlwaysAgree | crates/fluxsync-core/src/app.rs:357-466 | in every run the shown list and the held payloads are in duplicate-free bijection, with equal kind, direction, sensitivity and peer |
| Parking.HeldWasParked | crates/fluxsync-core/src/app.rs:353-417 | every held payload is byte for byte what an earlier input parked under its key, unresolved since |
| Parking.SyncsAreAccountedFor | crates/fluxsync-core/src/app.rs:292-417 | in every run each sync is the current event's own passed item or the item parked under the key just approved, once |
| Parking.ReleasedOnce | crates/fluxsync-core/src/app.rs:392-417 | one parking leads to at most one release |
| Parking.ResolutionExact | crates/fluxsync-core/src/app.rs:392-417 | approval of a held item sends or writes it, exactly once; a denial or an unknown key does nothing; the key leaves both queues and all else stays in order |
| Parking.DecisionIsCarriedOut | crates/fluxsync-core/src/app.rs:353-417 | in every run an item that has waited since input `i` is what the approval at input `k` sends or writes, byte for byte |
| Parking.DropsExact | crates/fluxsync-core/src/app.rs:639-897 | every other event drops exactly all that waits or what came from the peer that is gone |
| Parking.RevokedLeaveNothing | crates/fluxsync-core/src/app.rs:967-987 | once a peer is revoked nothing it sent waits |
| PeerSwap.CrossesExact | crates/fluxsync-core/src/app.rs:639-654 | history outlives a change of the paired peer iff the swap comes while other peers are linked, or is a failover |
| PeerSwap.HistoryIsIsolated | crates/fluxsync-core/src/app.rs:625-658 | in every run without such a crossing, every row was restored at boot or made while no peer or the present one was paired |
| PeerSwap.PendingIsIsolated | crates/fluxsync-core/src/app.rs:625-658 | the same of every parked item |
| PeerSwap.SwapIsScoped | crates/fluxsync-core/src/app.rs:639-654 | a swap with other peers linked drops only the replaced peer's parked items; otherwise history, queue and vault go |
| PeerLaws.StrangerIsIgnored | crates/fluxsync-core/src/app.rs:626-630 | with a handshake or session with a named peer under way, sighting another id changes nothing at all |
| PeerLaws.SightingExact | crates/fluxsync-core/src/app.rs:625-658 | any other sighting names the peer, makes a real id the shown and the paired one, and wipes the history exactly on a takeover with no other peer linked |
| PeerLaws.HandshakeExact | crates/fluxsync-core/src/fsm.rs:46-298 | a handshake goes out once, to the sighted peer, exactly while discovering |
| PeerLaws.ShownPeerExact | crates/fluxsync-core/src/app.rs:622-987 | each field of the shown peer after any event |
| PeerLaws.PairedPeerExact | crates/fluxsync-core/src/app.rs:625-658 | the peer that a swap is judged against is the last one accepted or failed over to, and no event forgets it |
| PeerLaws.OwnFieldsExact | crates/fluxsync-core/src/app.rs:602-987 | the switch, the own battery and the trusted name after any event |
| PeerLaws.VaultWipedExact | crates/fluxsync-core/src/app.rs:639-966 | the saved history is wiped once more exactly after a clear, an untrusted peer and a takeover with no other peer linked; no event changes the settings |
| PeerLaws.EngagedWithOne | crates/fluxsync-core/src/app.rs:1106-1113 | over any stretch of a run that stays in a handshake or session with a named peer and does not fail over, the peer is the same |
| Sas.StepSas | crates/fluxsync-core/src/app.rs:802-946 | the two pairing fields change by these events only |
| Sas.PairingExact | crates/fluxsync-core/src/app.rs:898-946 | which confirmations and rejections count, and what calls the pairing off |
| Sas.SasExact | crates/fluxsync-core/src/app.rs:898-946 | in every run the phase says exactly which confirmations of the named peer stand since its pairing started; the peer is none iff the phase is idle |
| Sas.ConfirmedMeansBoth | crates/fluxsync-core/src/app.rs:912-936 | "confirmed" only after a local and a peer confirm of that peer since the latest start |
| Sas.OtherPeersAreIgnored | crates/fluxsync-core/src/app.rs:814-828 | another peer's confirm, reject or loss changes neither field |
| Sessions.LinkedIsUp | crates/fluxsync-core/src/fsm.rs:46-298 | in every run the phase is `Linked` iff the last session action opened one |
| Sessions.OpensAreSeparated | crates/fluxsync-core/src/fsm.rs:46-298 | between two opened sessions one is closed or the peer dropped |
| Sessions.SearchIsStarted | crates/fluxsync-core/src/app.rs:1000-1049 | entering `Discovering` starts discovery, after all filtering |
| Sessions.IdleMeansOff | crates/fluxsync-core/src/fsm.rs:46-298 | the next phase is `Idle` iff sync goes off, the peer is unpaired, or it was `Idle` and neither a start nor an untrusted peer came |
| Sessions.AlwaysDerived | crates/fluxsync-core/src/app.rs:1051-1071 | in every run the shown phase and status are the derived ones, and sync is never on in `Idle` |
| Notices.ChangesAreAnnounced | crates/fluxsync-core/src/app.rs:1063-1100 | every change of the snapshot comes with `EmitState`, except the two ways back from a handshake |
| Notices.NotifiedExact | crates/fluxsync-core/src/app.rs:1072-1100 | `EmitState` comes with every event but these: an echo, a stranger, a reconnect, a network change, a handshake that times out or was not under way |
| Notices.SessionComesFirst | crates/fluxsync-core/src/fsm.rs:46-298 | after all filtering, a session is opened or closed before anything else is done, and a restarted search is stopped first |
| Notices.SilentChanges | crates/fluxsync-core/src/fsm.rs:46-298 | in those two the shown phase changes and nobody is told |
| Notices.BatteryIsReal | crates/fluxsync-core/src/app.rs:1033-1049 | a battery report carries this device's own last reading, and none goes out before the first |
| Notices.BatteryIsSent | crates/fluxsync-core/src/app.rs:1033-1049 | and it goes out iff there is a reading, and a session opens or the reading comes while one is up |
| Notices.DropsAreAnnounced | crates/fluxsync-core/src/app.rs:445-466 | the notice of dropped items names exactly the hashes that left the queue with one peer, and comes only then |
| Clipboard.ClockMovesOn | crates/fluxsync-core/src/clock.rs:48-54 | every item moves the clock to the least value above its own and the sender's, of which at most 2^40 is believed |
| Clipboard.ClockIsBounded | crates/fluxsync-core/src/clock.rs:12-16 | in every run the clock stays within one for each input of the bound on peer values |
| History.Push | crates/fluxsync-core/src/app.rs:1115-1139 | the list after a push is `Pushed`, which `PushedExact` describes |
| History.CapKeepingFavorites | crates/fluxsync-core/src/app.rs:46-55 | the loop computes `Capped` |
| History.CappedExact | crates/fluxsync-core/src/app.rs:41-55 | the cap keeps every pinned row and the first 50 others, in order |
| HistoryRuns.PushedExact | crates/fluxsync-core/src/app.rs:1115-1139 | new row first with its match's pin, then the old rows minus that match, limited to all pinned and the first 50 others |
| HistoryRuns.TopRowExact | crates/fluxsync-core/src/app.rs:1115-1134 | the pushed row is first, pinned iff it or a row of the same hash, kind and preview was, and no such row is left below |
| HistoryRuns.OthersStay | crates/fluxsync-core/src/app.rs:1115-1139 | a row of another hash, kind or preview outlives the push if it is pinned or there was room |
| HistoryRuns.ExpiryExact | crates/fluxsync-core/src/app.rs:249-263 | expiry drops exactly the unpinned rows of known age beyond the period, and keeps the order |
| HistoryRuns.RetentionExact | crates/fluxsync-core/src/app.rs:237-247 | an hour, a day, a week or forever is set and applied at once; anything else changes nothing |
| HistoryRuns.CommandsExact | crates/fluxsync-core/src/app.rs:950-966 | a pin sets every row of its hash and no other; a clear leaves the pinned rows or none; an untrusted peer leaves none |
| HistoryRuns.HistoryExact | crates/fluxsync-core/src/app.rs:622-987 | every way in which any input changes the history list |
| HistoryRuns.AlwaysClean | crates/fluxsync-core/src/app.rs:1126-1134 | from a clean saved list, no run has two rows with equal hash, kind and preview, or a secret row |
| HistoryRuns.PinnedStep | crates/fluxsync-core/src/app.rs:950-966 | a pinned row stays pinned iff the input is no unpin of its hash, no clear with favorites, no untrusted peer and no swap wipe |
| HistoryRuns.PinnedStays | crates/fluxsync-core/src/app.rs:852-861 | the same over any stretch of any run |
| HistoryRuns.PlainStep | crates/fluxsync-core/src/app.rs:1136-1138 | 50 unpinned rows at most is kept by every input except an unpin that adds too many |
| HistoryRuns.AtMostFifty | crates/fluxsync-core/src/app.rs:1136-1138 | the bound holds from boot or from any recorded item until the next unpin |
| HistoryRuns.UnpinExceedsTheCap | crates/fluxsync-core/src/app.rs:950-954 | a run that ends with 51 unpinned rows |
| Policy.Normalize | crates/fluxsync-core/src/policy.rs:146-159 | the loop over the five rules computes `Normalized` |
| Policy.NormalizedVerdict | crates/fluxsync-core/src/policy.rs:143-194 | normalising lets through exactly what passed before and blocks what was held |
| Policy.SecretPasses | crates/fluxsync-core/src/policy.rs:60-70 | the rule for secrets only tightens |
| Policy.DecideExact | crates/fluxsync-core/src/policy.rs:161-194 | an item passes iff no rule speaks against it, is blocked iff one refuses it, and is held otherwise |
| Hex.Hex32RoundTrip | crates/fluxsync-core/src/app.rs:1188-1217 | a hash is read back from its hex form |
| Hex.Hex32Injective | crates/fluxsync-core/src/app.rs:1188-1195 | different hashes have different hex keys |
| Hex.Hex32DecodeExact | crates/fluxsync-core/src/app.rs:1201-1217 | exactly 64 hex digits decode, and encoding again only folds their case |
| Hex.Hex32Exact | crates/fluxsync-core/src/app.rs:1188-1195 | each byte is two lower-case digits, the high half first |
| Mesh.SeenSet.Observe | crates/fluxsync-core/src/dedup.rs:216-225 | new iff not among the latest ids; the oldest goes when full |
| MeshNet.AlwaysInv | crates/fluxsync-core/src/app.rs:533-588 | what every order of copies and deliveries keeps, eviction included: seen-sets are the tails of the logs, repeats are more than 256 apart, messages go over links to nodes that are neither source nor origin, and nothing is lost |
| MeshNet.AtMostOnce | crates/fluxsync-core/src/dedup.rs:202-225 | a node that took on at most 257 items took each on once |
| MeshNet.NeverBack | crates/fluxsync-core/src/app.rs:572-588 | no message goes to the origin or to the node its sender has the item from |
| MeshNet.Coverage | crates/fluxsync-core/src/app.rs:539-588 | with nothing under way, a node has an item iff the links lead to it from the origin |
| MeshNet.ExactlyOnce | crates/fluxsync-core/src/app.rs:539-588 | at quiescence, a node that took on at most 257 items took on each item the links bring it one time, and no other |
| MeshNet.FloodsAreFinite | crates/fluxsync-core/src/app.rs:572-588 | as long as no node took on more than 257 items, past and still possible deliveries together are at most one for every item and link |
| MeshNet.FreshFlood | crates/fluxsync-core/src/app.rs:539-588 | from a fresh network, deliveries and messages under way are together at most one for every item and link |
| MeshNet.FreshStaysSmall | crates/fluxsync-core/src/dedup.rs:172-194 | where the links bring no node more than 256 items, no node ever takes on more, in whatever order |
| MeshNet.MeasureMoved | crates/fluxsync-core/src/app.rs:577-588 | every delivery strictly lowers a termination measure, and a copy raises it by at most the number of links |
| RateLimit.HandshakeRateLimiter.CheckAt | crates/fluxsyncd/src/rate_limit.rs:104-123 | sweep, room for one more by dropping a least recently used entry, refill, one token |
| RateLimit.CheckedAvailable | crates/fluxsyncd/src/rate_limit.rs:66-123 | a source passes iff it has a token; no other source notices, except one whose bucket is dropped |
| RateLimit.CheckExact | crates/fluxsyncd/src/rate_limit.rs:60-123 | verdict, new bucket and every other entry after one check, in nanoseconds and tokens of 6 s |
| RateLimit.DropsAreForced | crates/fluxsyncd/src/rate_limit.rs:107-118 | an entry is dropped only from a table of 1024 live sources that does not know the new one |
| RateLimit.TableIsBounded | crates/fluxsyncd/src/rate_limit.rs:107-118 | in every run the table holds at most 1024 sources |
| RateLimit.RateIsBounded | crates/fluxsyncd/src/rate_limit.rs:24-42 | in any interval of length T of any run a source passes at most 5 + T/6 s times, and 5 more for every time its bucket is dropped |
| RateLimit.ForgettingIsInvisible | crates/fluxsyncd/src/rate_limit.rs:49-50 | while there is room, the limiter gives the verdicts of one that never forgets a source |
| Backoff.PeerBackoff.OnAttemptFailed | crates/fluxsyncd/src/backoff.rs:105-109 | the next dial is refused before the floor of the window and allowed after its top |
| Backoff.PeerBackoff.OnSessionEnded | crates/fluxsyncd/src/backoff.rs:131-136 | only a session of 15 s resets the backoff |
| Backoff.JitterRange | crates/fluxsyncd/src/backoff.rs:141-178 | every draw of every attempt lands in the window |
| Backoff.JitterIsOnto | crates/fluxsyncd/src/backoff.rs:159-178 | every millisecond of the window is drawn |
| Backoff.WindowExact | crates/fluxsyncd/src/backoff.rs:141-178 | a delay follows an attempt for some draw iff it is a whole millisecond of that attempt's window, given in numbers |
| Backoff.FailedExact | crates/fluxsyncd/src/backoff.rs:105-109 | a failure moves on to the next window and is ready again exactly when a delay of the window is over |
| TimedPair.RedialsAlwaysPass | crates/fluxsyncd/src/backoff.rs:51-64 | whatever the draws, failures, other sources, sweeps and drops, every redial that the backoff allows is accepted by the peer's limiter, across sessions of at least 26.25 s too |
| TimedPair.LongEnoughExact | crates/fluxsyncd/src/backoff.rs:40-64 | redials are accepted in all runs whose sessions last at least `len` iff `len` is at least 26.25 s |
| TimedPair.ShortSessionsDrain | crates/fluxsyncd/src/backoff.rs:131-136 | for every shorter `len`, a run whose sessions all last at least that long and that ends in a refused redial |
| TimedPair.StableSessionIsTooShort | crates/fluxsyncd/src/backoff.rs:40-45 | so the 15 s that count as stable are too short |
| Replay.ReplayWindow.Accept | crates/fluxsync-crypto/src/session.rs:181-203 | the new window is `Accepted`, which `AcceptTracks` describes |
| Replay.Session.Decrypt | crates/fluxsync-crypto/src/session.rs:84-119 | the frame of nonce `n` (eight little-endian bytes) and ciphertext `c` gives `cipher(n, c)` iff that is authentic, `n` is new and less than 64 behind; nothing changes otherwise, and shorter payloads give nothing |
| Replay.Session.Encrypt | crates/fluxsync-crypto/src/session.rs:63-76 | the frame is the next nonce in eight little-endian bytes and the sealed text; the nonce moves on iff it is sealed |
| Replay.FrameIsRead | crates/fluxsync-crypto/src/session.rs:94-101 | for every nonce below 2^64 and every ciphertext, the frame that carries them is read as them |
| Replay.EveryPayloadIsAFrame | crates/fluxsync-crypto/src/session.rs:94-101 | every payload of 24 bytes or more is the frame of one nonce and ciphertext |
| Replay.SendAndReceive | crates/fluxsync-crypto/src/session.rs:63-119 | what one end sends arrives at the other iff its nonce is new there and not too late |
| Replay.AcceptTracks | crates/fluxsync-crypto/src/session.rs:181-203 | the bitmap goes on standing for the set of accepted nonces, shifts past bit 63 included |
| Replay.FreshExact | crates/fluxsync-crypto/src/session.rs:168-179 | fresh iff never accepted and not too old to tell |
| Replay.DeliveredExact | crates/fluxsync-crypto/src/session.rs:84-119 | the same over any run of frames |
| Replay.NoReplay | crates/fluxsync-crypto/src/session.rs:157-203 | no nonce is delivered twice |
| Replay.ReorderedIsDelivered | crates/fluxsync-crypto/src/session.rs:157-179 | reordering inside the window costs no frame |
| HistoryStore.Prune | crates/fluxsyncd/src/history_store.rs:93-112 | the loop computes `Pruned` |
| HistoryStore.PrunedExact | crates/fluxsyncd/src/history_store.rs:87-112 | pruning keeps every favorite, the first `cap` fresh others, and the order |
| HistoryStore.PruneIsIdempotent | crates/fluxsyncd/src/history_store.rs:93-112 | pruning again changes nothing |
| HistoryStore.PruneTwice | crates/fluxsyncd/src/history_store.rs:119-154 | if what is inside the cap goes stale last, pruning with the cap and later without it is pruning once, later, with the cap |
| HistoryStore.SaveThenLoad | crates/fluxsyncd/src/history_store.rs:114-154 | a restart loads what one prune at load time would keep |
| HistoryStore.LoadedOutlasts | crates/fluxsyncd/src/history_store.rs:87-133 | loading keeps exactly the pinned entries and those no older than the retention in seconds; without a retention everything |
| HistoryStore.LosesNoMoreExact | crates/fluxsyncd/src/history_store.rs:87-154 | for one cap, that law holds at all times up to `last` iff no entry inside the cap is older than one beyond it (and can go stale by then) |
| HistoryStore.NewestFirstExact | crates/fluxsyncd/src/history_store.rs:87-91 | it holds for all caps and times iff the list is newest first, favorites aside, as the code assumes |
| HistoryStore.Vault.Load | crates/fluxsyncd/src/history_store.rs:119-133 | no file is no history, the wrong key is an error, otherwise exactly the entries that outlast the retention |
| Trust.TrustStore.TofuAccept | crates/fluxsyncd/src/handshake.rs:420-531 | each of the six outcomes holds iff its condition on the trusted set, the window, the time, the file and the writes, and only the last of them adds the peer, with its key |
| Trust.TrustStore.UpsertPersist | crates/fluxsyncd/src/driver/peers.rs:185-217 | a corrupt file is refused; otherwise one of three writes gets through or the file stays |
| Trust.TrustStore.SaveTrusted | crates/fluxsyncd/src/driver/peers.rs:101-165 | the file lists exactly the trusted peers, each with the address it had |
| Trust.TrustStore.ReaperTick | crates/fluxsyncd/src/handshake.rs:650-749 | expired pairs leave both maps and the file, or nothing changes |
| Trust.ReapExact | crates/fluxsyncd/src/handshake.rs:650-749 | a tick that writes revokes exactly the expired pairs; one that cannot restores both maps |
| Trust.AcceptExact | crates/fluxsyncd/src/handshake.rs:420-531 | a stranger gets in iff the window is open, there is room and a write gets through, under its own key and on trial for 90 s; any other handshake changes nothing |
| Trust.OnlyByAccept | crates/fluxsyncd/src/handshake.rs:420-531 | in every run a peer becomes trusted only so, with the key of that handshake |
| Trust.KeyStays | crates/fluxsyncd/src/handshake.rs:420-439 | as long as it is trusted, a peer keeps the key it came with |
| Trust.OthersStayPending | crates/fluxsyncd/src/handshake.rs:492-531 | making room costs nobody but the one pair that would expire first |
| Trust.ReapKeepsRows | crates/fluxsyncd/src/driver/peers.rs:101-165 | a tick leaves only rows that were in the file, last addresses included |
| Trust.TofuAgrees | crates/fluxsyncd/src/handshake.rs:460-491 | accepting keeps memory and disk in agreement, whatever the writes do |
| Trust.AlwaysAgrees | crates/fluxsyncd/src/handshake.rs:420-749 | in every run memory and disk trust the same peers, with at most 64 pending and 256 trusted |
| Restart.LoadTrustedPeers | crates/fluxsyncd/src/driver/peers.rs:27-88 | the loop computes `Loaded`: unreadable and unacceptable rows are skipped, the rest cut at 64 |
| Restart.TrustedAtBoot | crates/fluxsyncd/src/driver/mod.rs:279-293 | the trusted map at boot is `Trusting` of what was loaded, which `RestartExact` describes |
| Restart.ReadableExact | crates/fluxsyncd/src/driver/peers.rs:36-69 | a file that agrees with memory yields each trusted peer of acceptable key once |
| Restart.RestartExact | crates/fluxsyncd/src/driver/peers.rs:70-88 | a restart brings back nobody new, no more than 64, and everybody iff there are no more and all keys are acceptable |
| Restart.RestartAnywhere | crates/fluxsyncd/src/handshake.rs:86-109 | the same at any point of any run, whatever writes fail |
| FileFraming.Encode | crates/fluxsync-proto/src/file.rs:13-22 | the buffer is header, safe name and bytes |
| FileFraming.Sanitize | crates/fluxsync-proto/src/file.rs:36-56 | the loop computes `SafeName` |
| FileFraming.FrameExact | crates/fluxsync-proto/src/file.rs:13-22 | the frame byte by byte: two length bytes, the high one first, the name, the file |
| FileFraming.DirectoriesAreDropped | crates/fluxsync-proto/src/file.rs:36-41 | only what follows the last slash or backslash counts |
| FileFraming.ReservedAreMasked | crates/fluxsync-proto/src/file.rs:41-49 | a plain name keeps every character but the reserved ones, which become underscores |
| FileFraming.CutIsLongest | crates/fluxsync-proto/src/file.rs:50-56 | a long name keeps as many whole characters as fit into 255 bytes |
| FileFraming.SafeNameIsSafe | crates/fluxsync-proto/src/file.rs:32-56 | every saved name is non-empty, at most 255 bytes, without separators, control or reserved characters and without a leading dot |
| FileFraming.DecodeIsFrame | crates/fluxsync-proto/src/file.rs:26-30 | only frames decode, and only to safe names |
| FileFraming.RoundTrip | crates/fluxsync-proto/src/file.rs:13-30 | a framed file decodes to the name made safe twice and the same bytes |
| FileFraming.RoundTripExact | crates/fluxsync-proto/src/file.rs:13-56 | the name is the one that was sent iff that has no outer white space |
| FileFraming.SanitizeTwiceDiffers | crates/fluxsync-proto/src/file.rs:49-49 | a name on which making it safe is not idempotent |
| Classify.CanonIdempotent | crates/fluxsync-core/src/classify.rs:130-135 | the canonical form has no CR and no outer white space, and is its own canonical form |
| Classify.CanonIgnoresLineEndings | crates/fluxsync-core/src/classify.rs:123-135 | LF, CRLF and CR renderings of a text have one canonical form |
| Classify.TextKeys | crates/fluxsync-core/src/app.rs:744-752 | two texts share a dedup key iff their canonical forms are equal |
| Classify.InvalidTextKeys | crates/fluxsync-core/src/app.rs:734-752 | bytes that are no UTF-8 share their key only with the same bytes |
| Classify.BinaryKeys | crates/fluxsync-core/src/app.rs:744-746 | images and files share a key only with the same bytes |
| Utf8.CharExact | crates/fluxsync-core/src/app.rs:747-750 | the bytes of each character are those of the table in section 3 of RFC 3629 |
| Classify.KeyIgnoresLineEndings | crates/fluxsync-core/src/app.rs:730-752 | the same text with other line endings is the same item |
| LineReader.BufferedReader.ReadLineCapped | crates/fluxctl/src/main.rs:877-907 | succeeds iff the first line fits, returning and consuming exactly it, however the stream is cut into chunks |
| LineReader.BufferedReader.ReadLines | crates/fluxsyncd/src/driver/ipc_server.rs:115-124 | reading line after line yields the lines of the stream, all of them or all before the first that is too long, however the stream is cut |
| LineReader.LinesSplit | crates/fluxctl/src/main.rs:883-904 | the lines of a stream put together are the stream, and each ends at its line feed |
| LineReader.LinesUnique | crates/fluxctl/src/main.rs:888-904 | there is no other way to cut a stream into lines |

## Left out

- Sockets, mDNS, the key store of the operating system, battery polling and the user interfaces: input and output.
- The Noise handshake, the AEAD, BLAKE3, JSON and CBOR: parameters, or values that are read back as written.
- Session installation and teardown around a trust decision: each accept and each reaper tick is one atomic step, and the
  two clock readings of an accept are one.
- The order in which hash maps are walked: sets and maps of the model have none, so the mesh's target lists are sets,
  the rows of the registry come in any order, and the victim of an eviction is any entry of the least time.
- The wording of log entries; an `EmitLog` carries only its severity.
- `App.App.Handle`: device name, metrics, latency and the delivered-to map of the state are not modelled, and hashes of
  dropped items form a set.
- Counters that would take 2^64 steps to overflow (`local_seq`, `vault_wipe_gen`) are natural numbers.
- `LineReader.BufferedReader.ReadLineCapped`: the lossy UTF-8 decoding of the returned bytes is not modelled.
- `Replay.Session.Encrypt`: sealing is a parameter that may refuse, as the cipher library does for the last nonce of all.
- `Restart.LoadTrustedPeers`: the parsing of last known addresses is not modelled.
- `RateLimit.HandshakeRateLimiter.CheckAt`: exact integers instead of floating-point tokens.
- `MeshNet.AlwaysInv`: links do not change during a run, and messages are delayed and reordered but not lost.
- Secret detection and kind classification: regular expressions.
- The commands that confirm, reject and revoke pairings, and the outbox: not part of this model.
