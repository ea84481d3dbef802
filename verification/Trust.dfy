/** Whom this device trusts, in memory and on disk: accepting a first-seen peer, and revoking the unconfirmed ones. */
module Trust {
  import opened Basics
  import Hex

  const MS: nat := 1_000_000
  const PAIRING_WINDOW: nat := 90_000 * MS
  const MAX_PENDING_PAIRS: nat := 64
  const MAX_TOFU_TRUSTED_PEERS: nat := 256
  const PEERS_PERSIST_ATTEMPTS: nat := 3
  const TOFU_PLACEHOLDER_NAME: string := "New Peer"

  datatype TrustedPeer = TrustedPeer(staticPub: Id, name: string)

  datatype PendingPair = PendingPair(staticPub: Id, name: string, sasWords: seq<string>, from: string, expiresAt: nat)

  datatype StoredPeer = StoredPeer(peerIdHex: string, staticPubHex: string, name: string, lastAddr: Option<string>)

  /** The registry file; no file and an empty one both read as nobody. */
  datatype Disk = Corrupt | Peers(stored: seq<StoredPeer>)

  datatype Store = Store(trusted: map<Id, TrustedPeer>, pending: map<Id, PendingPair>, disk: Disk)

  /** A completed handshake of a peer we answer. */
  datatype Request = Request(peerId: Id, staticPub: Id, from: string, sasWords: seq<string>, windowUntil: Option<nat>, now: nat)

  datatype Outcome = Known | KeyMismatch | WindowClosed | AtCap | NotPersisted | NewlyTrusted

  // ── The registry file ───────────────────────────────────────────────

  function WithoutPeer(stored: seq<StoredPeer>, key: string): seq<StoredPeer> {
    if stored == [] then []
    else (if stored[0].peerIdHex == key then [] else [stored[0]]) + WithoutPeer(stored[1..], key)
  }

  /** A re-paired peer gets a new entry in place of the old one. */
  function Upserted(stored: seq<StoredPeer>, entry: StoredPeer): seq<StoredPeer> {
    WithoutPeer(stored, entry.peerIdHex) + [entry]
  }

  /** Some attempt of a save gets through. */
  predicate GetsThrough(writes: seq<bool>) { true in writes[..Min(|writes|, PEERS_PERSIST_ATTEMPTS)] }

  function EntryOf(id: Id, peer: TrustedPeer, lastAddr: Option<string>): StoredPeer {
    StoredPeer(Hex.Hex32(id), Hex.Hex32(peer.staticPub), peer.name, lastAddr)
  }

  predicate HasRow(stored: seq<StoredPeer>, key: string) { exists r <- stored :: r.peerIdHex == key }

  /** The address that the file has for a peer. */
  function AddrIn(disk: Disk, key: string): Option<string> {
    match disk
    case Corrupt => None
    case Peers(stored) => LastAddr(stored, key)
  }

  function LastAddr(stored: seq<StoredPeer>, key: string): Option<string> {
    if stored == [] then None
    else if HasRow(stored[1..], key) then LastAddr(stored[1..], key)
    else if stored[0].peerIdHex == key then stored[0].lastAddr else None
  }

  ghost predicate DistinctRows(stored: seq<StoredPeer>) {
    forall i, j :: 0 <= i < j < |stored| ==> stored[i].peerIdHex != stored[j].peerIdHex
  }

  /** The row stands for a trusted peer, with its key and name. */
  predicate IsRowOf(row: StoredPeer, trusted: map<Id, TrustedPeer>) {
    var id := Hex.Hex32Decode(row.peerIdHex);
    && id.Some? && id.value in trusted
    && row.peerIdHex == Hex.Hex32(id.value)
    && row.staticPubHex == Hex.Hex32(trusted[id.value].staticPub) && row.name == trusted[id.value].name
  }

  /** The rows are the trusted peers, each once, in any order. */
  ghost predicate Lists(stored: seq<StoredPeer>, trusted: map<Id, TrustedPeer>) {
    && DistinctRows(stored)
    && (forall row <- stored :: IsRowOf(row, trusted))
    && forall id :: id in trusted ==> HasRow(stored, Hex.Hex32(id))
  }

  /** Memory and disk trust the same peers, with the same keys and names. */
  ghost predicate Agrees(s: Store) { s.disk.Peers? && Lists(s.disk.stored, s.trusted) }

  /** The user opened the pairing window, and it is not over. */
  predicate WindowIsOpen(r: Request) { r.windowUntil.Some? && r.now < r.windowUntil.value }

  /** One of the first three writes succeeds. */
  predicate OneOfThree(writes: seq<bool>) { exists i :: 0 <= i < 3 && i < |writes| && writes[i] }

  lemma OneOfThreeExact(writes: seq<bool>)
    ensures OneOfThree(writes) <==> GetsThrough(writes)
  {
    var first := writes[..Min(|writes|, PEERS_PERSIST_ATTEMPTS)];
    if i :| 0 <= i < 3 && i < |writes| && writes[i] { assert first[i]; }
  }

  // ── The two operations, as relations ────────────────────────────────

  function Unexpired(pending: map<Id, PendingPair>, now: nat): map<Id, PendingPair> {
    map id | id in pending && pending[id].expiresAt > now :: pending[id]
  }

  function Expired(pending: map<Id, PendingPair>, now: nat): set<Id> {
    set id | id in pending && pending[id].expiresAt <= now
  }

  ghost predicate ExpiresFirst(pending: map<Id, PendingPair>, id: Id) {
    id in pending && forall k :: k in pending ==> pending[id].expiresAt <= pending[k].expiresAt
  }

  function NewPair(r: Request): PendingPair {
    PendingPair(r.staticPub, TOFU_PLACEHOLDER_NAME, r.sasWords, r.from, r.now + PAIRING_WINDOW)
  }

  /** The pending pairs with one more; a full table loses the pair that expires first. */
  ghost predicate AddsPending(before: map<Id, PendingPair>, r: Request, after: map<Id, PendingPair>) {
    var alive := Unexpired(before, r.now);
    if |alive| >= MAX_PENDING_PAIRS
    then exists victim: Id :: ExpiresFirst(alive, victim) && after == (alive - {victim})[r.peerId := NewPair(r)]
    else after == alive[r.peerId := NewPair(r)]
  }

  function OutcomeOf(s: Store, r: Request, persist: bool, writes: seq<bool>): Outcome {
    if r.peerId in s.trusted then (if s.trusted[r.peerId].staticPub == r.staticPub then Known else KeyMismatch)
    else if r.windowUntil.None? || r.now >= r.windowUntil.value then WindowClosed
    else if |s.trusted| >= MAX_TOFU_TRUSTED_PEERS then AtCap
    else if persist && (s.disk.Corrupt? || !GetsThrough(writes)) then NotPersisted
    else NewlyTrusted
  }

  function TrustedByTofu(r: Request): TrustedPeer { TrustedPeer(r.staticPub, TOFU_PLACEHOLDER_NAME) }

  /** A first-seen peer is trusted inside the pairing window, once the disk has it; nothing changes otherwise. */
  ghost predicate IsTofu(s: Store, r: Request, persist: bool, writes: seq<bool>, t: Store) {
    if !OutcomeOf(s, r, persist, writes).NewlyTrusted? then t == s
    else
      && t.trusted == s.trusted[r.peerId := TrustedByTofu(r)]
      && t.disk == (if persist then Peers(Upserted(s.disk.stored, EntryOf(r.peerId, TrustedByTofu(r), Some(r.from)))) else s.disk)
      && AddsPending(s.pending, r, t.pending)
  }

  /** One tick: the expired pairs go from both maps and the file is rewritten, or nothing changes at all. */
  ghost predicate IsReap(s: Store, now: nat, persist: bool, writes: seq<bool>, t: Store) {
    var expired := Expired(s.pending, now);
    if expired == {} || (persist && !GetsThrough(writes)) then t == s
    else
      && t.trusted == s.trusted - expired && t.pending == s.pending - expired
      && if !persist then t.disk == s.disk
         else t.disk.Peers? && Lists(t.disk.stored, t.trusted)
              && forall row <- t.disk.stored :: row.lastAddr == AddrIn(s.disk, row.peerIdHex)
  }

  // ── The operations ──────────────────────────────────────────────────

  class TrustStore {
    var trusted: map<Id, TrustedPeer>
    var pending: map<Id, PendingPair>
    var disk: Disk

    function View(): Store reads this { Store(trusted, pending, disk) }

    constructor ()
      ensures View() == Store(map[], map[], Peers([]))
    {
      trusted, pending, disk := map[], map[], Peers([]);
    }

    /** Up to three writes; each replaces the file whole or leaves it alone. */
    method SaveWithRetry(stored: seq<StoredPeer>, writes: seq<bool>) returns (ok: bool)
      modifies this`disk
      ensures ok == GetsThrough(writes)
      ensures disk == if ok then Peers(stored) else old(disk)
    {
      for attempt := 0 to PEERS_PERSIST_ATTEMPTS
        invariant disk == old(disk)
        invariant true !in writes[..Min(|writes|, attempt)]
      {
        if attempt < |writes| && writes[attempt] {
          assert writes[..Min(|writes|, PEERS_PERSIST_ATTEMPTS)][attempt];
          disk := Peers(stored);
          return true;
        }
      }
      return false;
    }

    method UpsertPersist(entry: StoredPeer, writes: seq<bool>) returns (ok: bool)
      modifies this`disk
      ensures ok == (old(disk).Peers? && GetsThrough(writes))
      ensures disk == if ok then Peers(Upserted(old(disk).stored, entry)) else old(disk)
    {
      match disk {
        case Corrupt => return false;
        case Peers(stored) =>
          ok := SaveWithRetry(Upserted(stored, entry), writes);
      }
    }

    /** The rows for every trusted peer, with the addresses that the file already has. */
    method Rows() returns (stored: seq<StoredPeer>)
      ensures Lists(stored, trusted)
      ensures forall row <- stored :: row.lastAddr == AddrIn(disk, row.peerIdHex)
    {
      hide Hex.Hex32, Lists, AddrIn;
      stored := [];
      NobodyListed();
      var left := trusted.Keys;
      ghost var done: map<Id, TrustedPeer> := map[];
      while left != {}
        invariant left <= trusted.Keys && done.Keys == trusted.Keys - left
        invariant forall id :: id in done ==> done[id] == trusted[id]
        invariant Lists(stored, done)
        invariant forall row <- stored :: row.lastAddr == AddrIn(disk, row.peerIdHex)
        decreases |left|
      {
        var id :| id in left;
        ListsOneMore(stored, done, id, trusted[id], AddrIn(disk, Hex.Hex32(id)));
        stored := stored + [EntryOf(id, trusted[id], AddrIn(disk, Hex.Hex32(id)))];
        done := done[id := trusted[id]];
        left := left - {id};
      }
      assert done == trusted;
    }

    /** Rewrites the file from memory. */
    method SaveTrusted(writes: seq<bool>) returns (ok: bool)
      modifies this`disk
      ensures ok == GetsThrough(writes)
      ensures !ok ==> disk == old(disk)
      ensures ok ==> disk.Peers? && Lists(disk.stored, trusted)
                     && forall row <- disk.stored :: row.lastAddr == AddrIn(old(disk), row.peerIdHex)
    {
      hide Lists, AddrIn, GetsThrough;
      var stored := Rows();
      ok := SaveWithRetry(stored, writes);
    }

    method TofuAccept(r: Request, persist: bool, writes: seq<bool>) returns (outcome: Outcome)
      modifies this
      ensures outcome.Known? <==> r.peerId in old(trusted) && old(trusted)[r.peerId].staticPub == r.staticPub
      ensures outcome.KeyMismatch? <==> r.peerId in old(trusted) && old(trusted)[r.peerId].staticPub != r.staticPub
      ensures outcome.WindowClosed? <==> r.peerId !in old(trusted) && !WindowIsOpen(r)
      ensures outcome.AtCap? <==> r.peerId !in old(trusted) && WindowIsOpen(r) && |old(trusted)| >= 256
      ensures outcome.NotPersisted? <==>
                && r.peerId !in old(trusted) && WindowIsOpen(r) && |old(trusted)| < 256
                && persist && (old(disk).Corrupt? || !OneOfThree(writes))
      ensures outcome.NewlyTrusted? <==>
                && r.peerId !in old(trusted) && WindowIsOpen(r) && |old(trusted)| < 256
                && (persist ==> old(disk).Peers? && OneOfThree(writes))
      ensures trusted == if outcome.NewlyTrusted?
                         then old(trusted)[r.peerId := TrustedPeer(r.staticPub, "New Peer")] else old(trusted)
      ensures IsTofu(old(View()), r, persist, writes, View())
    {
      OneOfThreeExact(writes);
      if r.peerId in trusted {
        if trusted[r.peerId].staticPub != r.staticPub {
          return KeyMismatch;
        }
        return Known;
      }
      if r.windowUntil.None? || r.now >= r.windowUntil.value {
        return WindowClosed;
      }
      if |trusted| >= MAX_TOFU_TRUSTED_PEERS {
        return AtCap;
      }
      ghost var was := trusted;
      var peer := TrustedPeer(r.staticPub, TOFU_PLACEHOLDER_NAME);
      trusted := trusted[r.peerId := peer];
      if persist {
        var saved := UpsertPersist(EntryOf(r.peerId, peer, Some(r.from)), writes);
        if !saved {
          trusted := trusted - {r.peerId};
          assert trusted == was;
          return NotPersisted;
        }
      }
      AddPending(r);
      return NewlyTrusted;
    }

    method AddPending(r: Request)
      modifies this`pending
      ensures AddsPending(old(pending), r, pending)
    {
      pending := map id | id in pending && pending[id].expiresAt > r.now :: pending[id];
      if |pending| >= MAX_PENDING_PAIRS {
        var victim := SoonestToExpire();
        pending := pending - {victim};
      }
      pending := pending[r.peerId := NewPair(r)];
    }

    method SoonestToExpire() returns (victim: Id)
      requires pending != map[]
      ensures ExpiresFirst(pending, victim)
    {
      assert pending.Keys != {};
      var left := pending.Keys;
      victim :| victim in left;
      while left != {}
        invariant left <= pending.Keys && victim in pending
        invariant forall k :: k in pending && k !in left ==> pending[victim].expiresAt <= pending[k].expiresAt
        decreases |left|
      {
        var k :| k in left;
        if pending[k].expiresAt < pending[victim].expiresAt {
          victim := k;
        }
        left := left - {k};
      }
    }

    /** Takes the expired pairs out of both maps, and hands out what it took. */
    method TakeExpired(now: nat) returns (pairs: map<Id, PendingPair>, peers: map<Id, TrustedPeer>)
      modifies this`pending, this`trusted
      ensures var expired := Expired(old(pending), now);
              && pairs == (map id | id in old(pending) && id in expired :: old(pending)[id])
              && peers == (map id | id in old(trusted) && id in expired :: old(trusted)[id])
              && pending == old(pending) - expired && trusted == old(trusted) - expired
    {
      var expired := set id | id in pending && pending[id].expiresAt <= now;
      pairs := map id | id in pending && id in expired :: pending[id];
      pending := pending - expired;
      peers := map id | id in trusted && id in expired :: trusted[id];
      trusted := trusted - expired;
    }

    method ReaperTick(now: nat, persist: bool, writes: seq<bool>)
      modifies this
      ensures IsReap(old(View()), now, persist, writes, View())
    {
      hide Lists, AddrIn, GetsThrough, Expired;
      ghost var pendingBefore, trustedBefore, expired := pending, trusted, Expired(pending, now);
      var pairs, peers := TakeExpired(now);
      PutBack(pendingBefore, expired, pairs);
      PutBack(trustedBefore, expired, peers);
      ExpiredIsPending(pendingBefore, now, pairs);
      if pairs == map[] {
        return;
      }
      if persist {
        var saved := SaveTrusted(writes);
        if !saved {
          trusted := trusted + peers;
          pending := pending + (pairs - pending.Keys);
        }
      }
    }
  }

  lemma ExpiredIsPending(pending: map<Id, PendingPair>, now: nat, pairs: map<Id, PendingPair>)
    requires pairs == map id | id in pending && id in Expired(pending, now) :: pending[id]
    ensures pairs == map[] <==> Expired(pending, now) == {}
    ensures Expired(pending, now) == {} ==> pending - {} == pending
  {
    assert pairs.Keys == Expired(pending, now);
  }

  /** What was taken out goes back to where it was. */
  lemma PutBack<V>(all: map<Id, V>, keys: set<Id>, out: map<Id, V>)
    requires out == map id | id in all && id in keys :: all[id]
    ensures (all - keys) + out == all && (all - keys) + (out - (all - keys).Keys) == all
  {
  }

  lemma NobodyListed()
    ensures Lists([], map[])
  {
  }

  // ── What they keep ──────────────────────────────────────────────────

  lemma ListsOneMore(stored: seq<StoredPeer>, trusted: map<Id, TrustedPeer>, id: Id, peer: TrustedPeer, lastAddr: Option<string>)
    requires Lists(stored, trusted) && id !in trusted
    ensures Lists(stored + [EntryOf(id, peer, lastAddr)], trusted[id := peer])
  {
    hide Hex.Hex32, Hex.Hex32Decode;
    var entry := EntryOf(id, peer, lastAddr);
    var longer, more := stored + [entry], trusted[id := peer];
    NotListed(stored, trusted, id);
    Hex.Hex32RoundTrip(id);
    assert longer[|stored|] == entry;
    forall row <- longer ensures IsRowOf(row, more) {
      if row in stored { StillRowOf(row, trusted, id, peer); }
    }
    forall k | k in more ensures HasRow(longer, Hex.Hex32(k)) {
      if k == id {
        assert entry in longer;
      } else {
        var row :| row in stored && row.peerIdHex == Hex.Hex32(k);
        assert row in longer;
      }
    }
  }

  lemma StillRowOf(row: StoredPeer, trusted: map<Id, TrustedPeer>, id: Id, peer: TrustedPeer)
    requires IsRowOf(row, trusted) && id !in trusted
    ensures IsRowOf(row, trusted[id := peer])
  {
    hide Hex.Hex32, Hex.Hex32Decode;
  }

  /** Hex names tell peers apart, so a peer that is not trusted has no row. */
  lemma NotListed(stored: seq<StoredPeer>, trusted: map<Id, TrustedPeer>, id: Id)
    requires Lists(stored, trusted) && id !in trusted
    ensures forall i :: 0 <= i < |stored| ==> stored[i].peerIdHex != Hex.Hex32(id)
  {
    hide Hex.Hex32, Hex.Hex32Decode;
    Hex.Hex32RoundTrip(id);
    forall i | 0 <= i < |stored| ensures stored[i].peerIdHex != Hex.Hex32(id) {
      assert IsRowOf(stored[i], trusted);
    }
  }

  lemma {:induction false} WithoutAbsent(stored: seq<StoredPeer>, key: string)
    requires forall i :: 0 <= i < |stored| ==> stored[i].peerIdHex != key
    ensures WithoutPeer(stored, key) == stored
  {
    if stored != [] { WithoutAbsent(stored[1..], key); }
  }

  /** With persistence on, accepting keeps memory and disk in agreement, whatever the writes do. */
  lemma TofuAgrees(s: Store, r: Request, writes: seq<bool>, t: Store)
    requires Agrees(s) && IsTofu(s, r, true, writes, t)
    ensures Agrees(t)
  {
    if OutcomeOf(s, r, true, writes).NewlyTrusted? {
      NotListed(s.disk.stored, s.trusted, r.peerId);
      WithoutAbsent(s.disk.stored, Hex.Hex32(r.peerId));
      ListsOneMore(s.disk.stored, s.trusted, r.peerId, TrustedByTofu(r), Some(r.from));
    }
  }

  /** So does a tick of the reaper; it even repairs a disagreement, or a corrupt file, when it writes. */
  lemma ReapAgrees(s: Store, now: nat, writes: seq<bool>, t: Store)
    requires IsReap(s, now, true, writes, t)
    ensures Agrees(s) ==> Agrees(t)
    ensures Expired(s.pending, now) != {} && GetsThrough(writes) ==> Agrees(t)
  {
  }

  lemma PendingIsBounded(before: map<Id, PendingPair>, r: Request, after: map<Id, PendingPair>)
    requires |before| <= MAX_PENDING_PAIRS && AddsPending(before, r, after)
    ensures |after| <= MAX_PENDING_PAIRS && r.peerId in after && after[r.peerId] == NewPair(r)
  {
    hide NewPair, ExpiresFirst, Unexpired;
    var alive := Unexpired(before, r.now);
    UnexpiredFits(before, r.now);
    if |alive| >= MAX_PENDING_PAIRS {
      var victim: Id :| ExpiresFirst(alive, victim) && after == (alive - {victim})[r.peerId := NewPair(r)];
      FirstIsThere(alive, victim);
      OneFewer(alive, victim);
      OneMorePair(alive - {victim}, r.peerId, NewPair(r));
    } else {
      OneMorePair(alive, r.peerId, NewPair(r));
    }
  }

  lemma UnexpiredFits(pending: map<Id, PendingPair>, now: nat)
    ensures |Unexpired(pending, now)| <= |pending|
  {
    FewerKeys(pending, Unexpired(pending, now));
  }

  lemma FirstIsThere(pending: map<Id, PendingPair>, id: Id)
    requires ExpiresFirst(pending, id)
    ensures id in pending
  {
  }

  lemma OneFewer(pending: map<Id, PendingPair>, id: Id)
    requires id in pending
    ensures |pending - {id}| == |pending| - 1
  {
    assert (pending - {id}).Keys == pending.Keys - {id};
    assert |pending.Keys - {id}| == |pending.Keys| - 1;
  }

  lemma OneMorePair(pending: map<Id, PendingPair>, id: Id, pair: PendingPair)
    ensures |pending[id := pair]| <= |pending| + 1
  {
    assert pending[id := pair].Keys == pending.Keys + {id};
  }

  // ── Runs ────────────────────────────────────────────────────────────

  datatype Step = Accept(request: Request, writes: seq<bool>) | Tick(now: nat, writes: seq<bool>)

  ghost predicate IsStep(s: Store, step: Step, t: Store) {
    match step
    case Accept(r, writes) => IsTofu(s, r, true, writes, t)
    case Tick(now, writes) => IsReap(s, now, true, writes, t)
  }

  /** Each state follows from the one before it by one step. */
  ghost predicate IsRun(states: seq<Store>, steps: seq<Step>) {
    |states| == |steps| + 1 && forall i :: 0 <= i < |steps| ==> IsStep(states[i], steps[i], states[i + 1])
  }

  ghost predicate Inv(s: Store) {
    Agrees(s) && |s.pending| <= 64 && |s.trusted| <= 256
  }

  lemma StepKeepsInv(s: Store, step: Step, t: Store)
    requires Inv(s) && IsStep(s, step, t)
    ensures Inv(t)
  {
    hide Agrees, IsTofu, IsReap;
    match step
    case Accept(r, writes) =>
      TofuAgrees(s, r, writes, t);
      TofuFits(s, r, writes, t);
    case Tick(now, writes) =>
      ReapAgrees(s, now, writes, t);
      ReapFits(s, now, writes, t);
  }

  lemma TofuFits(s: Store, r: Request, writes: seq<bool>, t: Store)
    requires |s.pending| <= MAX_PENDING_PAIRS && |s.trusted| <= MAX_TOFU_TRUSTED_PEERS && IsTofu(s, r, true, writes, t)
    ensures |t.pending| <= MAX_PENDING_PAIRS && |t.trusted| <= MAX_TOFU_TRUSTED_PEERS
  {
    hide AddsPending, Upserted, GetsThrough;
    if OutcomeOf(s, r, true, writes).NewlyTrusted? {
      PendingIsBounded(s.pending, r, t.pending);
      assert t.trusted.Keys == s.trusted.Keys + {r.peerId};
    }
  }

  lemma ReapFits(s: Store, now: nat, writes: seq<bool>, t: Store)
    requires IsReap(s, now, true, writes, t)
    ensures |t.pending| <= |s.pending| && |t.trusted| <= |s.trusted|
  {
    hide Lists, Expired, GetsThrough;
    if t != s {
      FewerKeys(s.pending, t.pending);
      FewerKeys(s.trusted, t.trusted);
    }
  }

  /** Whatever writes fail, in every run memory and disk trust the same peers and both tables stay within their caps. */
  lemma {:induction false} AlwaysAgrees(states: seq<Store>, steps: seq<Step>, i: nat)
    requires IsRun(states, steps) && Inv(states[0]) && i < |states|
    ensures Inv(states[i])
  {
    hide Inv, IsStep;
    if i > 0 {
      AlwaysAgrees(states, steps, i - 1);
      assert IsStep(states[i - 1], steps[i - 1], states[i]);
      StepKeepsInv(states[i - 1], steps[i - 1], states[i]);
    }
  }

  /** A tick that writes leaves no expired pair pending and no such peer trusted, and revokes nobody else; one that
      cannot write leaves everything to the next tick. */
  lemma ReapExact(s: Store, now: nat, writes: seq<bool>, t: Store)
    requires IsReap(s, now, true, writes, t)
    ensures OneOfThree(writes) ==>
              && (forall id :: id in t.pending <==> id in s.pending && s.pending[id].expiresAt > now)
              && (forall id :: id in t.pending ==> t.pending[id] == s.pending[id])
              && (forall id :: id in t.trusted <==> id in s.trusted && !(id in s.pending && s.pending[id].expiresAt <= now))
              && (forall id :: id in t.trusted ==> t.trusted[id] == s.trusted[id])
    ensures !OneOfThree(writes) ==> t == s
  {
    hide Lists, GetsThrough, OneOfThree;
    OneOfThreeExact(writes);
    assert forall id :: id in Expired(s.pending, now) <==> id in s.pending && s.pending[id].expiresAt <= now;
  }

  // ── Who gets in ─────────────────────────────────────────────────────

  /** The one kind of handshake that makes a peer trusted: a stranger's, with the pairing window open, room in the trusted
      set, and a registry that can be read and written. */
  predicate GetsIn(s: Store, r: Request, writes: seq<bool>) {
    && r.peerId !in s.trusted && WindowIsOpen(r) && |s.trusted| < 256
    && s.disk.Peers? && OneOfThree(writes)
  }

  /** Such a stranger gets in, under its own key and on trial for 90 seconds; any other handshake changes nothing. */
  lemma AcceptExact(s: Store, r: Request, writes: seq<bool>, t: Store)
    requires IsTofu(s, r, true, writes, t)
    ensures !GetsIn(s, r, writes) ==> t == s
    ensures GetsIn(s, r, writes) ==>
              && t.trusted == s.trusted[r.peerId := TrustedPeer(r.staticPub, "New Peer")]
              && r.peerId in t.pending
              && t.pending[r.peerId] == PendingPair(r.staticPub, "New Peer", r.sasWords, r.from, r.now + 90_000 * 1_000_000)
              && t.disk.Peers? && HasRow(t.disk.stored, Hex.Hex32(r.peerId))
  {
    hide Hex.Hex32, GetsThrough, OneOfThree, Unexpired, ExpiresFirst, WithoutPeer;
    OneOfThreeExact(writes);
    if GetsIn(s, r, writes) {
      var entry := EntryOf(r.peerId, TrustedByTofu(r), Some(r.from));
      assert t.disk.stored[|t.disk.stored| - 1] == entry && entry in t.disk.stored;
    }
  }

  /** Making room costs nobody but, in a full table, one pair that would have expired first; expired pairs go as well. */
  lemma OthersStayPending(s: Store, r: Request, writes: seq<bool>, t: Store, id: Id)
    requires IsTofu(s, r, true, writes, t) && id in s.pending && s.pending[id].expiresAt > r.now && id != r.peerId
    ensures id in t.pending ==> t.pending[id] == s.pending[id]
    ensures id !in t.pending ==>
              && |Unexpired(s.pending, r.now)| >= 64
              && forall k :: k in s.pending && s.pending[k].expiresAt > r.now ==>
                   s.pending[id].expiresAt <= s.pending[k].expiresAt && (k != id && k != r.peerId ==> k in t.pending)
  {
    hide Lists, GetsThrough, Upserted;
    var alive := Unexpired(s.pending, r.now);
    assert id in alive && alive[id] == s.pending[id];
    if id !in t.pending {
      var victim: Id :| ExpiresFirst(alive, victim) && t.pending == (alive - {victim})[r.peerId := NewPair(r)];
      assert id == victim;
      forall k | k in s.pending && s.pending[k].expiresAt > r.now
        ensures s.pending[id].expiresAt <= s.pending[k].expiresAt && (k != id && k != r.peerId ==> k in t.pending)
      {
        assert k in alive && alive[k] == s.pending[k];
      }
    }
  }

  /** In every run a peer becomes trusted only by a handshake that gets in, with the key of that handshake. */
  lemma OnlyByAccept(states: seq<Store>, steps: seq<Step>, i: nat, id: Id)
    requires IsRun(states, steps) && i < |steps| && id !in states[i].trusted && id in states[i + 1].trusted
    ensures steps[i].Accept? && steps[i].request.peerId == id && GetsIn(states[i], steps[i].request, steps[i].writes)
    ensures states[i + 1].trusted[id].staticPub == steps[i].request.staticPub
  {
    hide IsTofu, IsReap, GetsIn, OneOfThree;
    match steps[i]
    case Accept(r, writes) => AcceptExact(states[i], r, writes, states[i + 1]);
    case Tick(now, writes) => ReapExact(states[i], now, writes, states[i + 1]);
  }

  /** As long as it is trusted, a peer keeps the key it came with. */
  lemma {:induction false} KeyStays(states: seq<Store>, steps: seq<Step>, i: nat, j: nat, id: Id)
    requires IsRun(states, steps) && i <= j < |states| && forall m :: i <= m <= j ==> id in states[m].trusted
    ensures states[j].trusted[id] == states[i].trusted[id]
    decreases j
  {
    hide IsTofu, IsReap, GetsIn, OneOfThree;
    if i < j {
      KeyStays(states, steps, i, j - 1, id);
      assert IsStep(states[j - 1], steps[j - 1], states[j]);
      match steps[j - 1]
      case Accept(r, writes) =>
        AcceptExact(states[j - 1], r, writes, states[j]);
        if GetsIn(states[j - 1], r, writes) { StrangersOnly(states[j - 1], r, writes); }
      case Tick(now, writes) => ReapExact(states[j - 1], now, writes, states[j]);
    }
  }

  lemma StrangersOnly(s: Store, r: Request, writes: seq<bool>)
    requires GetsIn(s, r, writes)
    ensures r.peerId !in s.trusted
  {
  }

  /** A tick rewrites the file from rows that were there, last addresses included. */
  lemma ReapKeepsRows(s: Store, now: nat, writes: seq<bool>, t: Store)
    requires Agrees(s) && IsReap(s, now, true, writes, t)
    ensures t.disk.Peers? && forall row <- t.disk.stored :: row in s.disk.stored
  {
    hide Hex.Hex32, Hex.Hex32Decode, GetsThrough;
    if t != s {
      forall row <- t.disk.stored ensures row in s.disk.stored { RowWasThere(s, now, t, row); }
    }
  }

  lemma RowWasThere(s: Store, now: nat, t: Store, row: StoredPeer)
    requires Agrees(s) && t.disk.Peers? && row in t.disk.stored && IsRowOf(row, t.trusted)
    requires t.trusted == s.trusted - Expired(s.pending, now) && row.lastAddr == AddrIn(s.disk, row.peerIdHex)
    ensures row in s.disk.stored
  {
    hide Hex.Hex32, Hex.Hex32Decode, LastAddr, Expired;
    var stored, id := s.disk.stored, Hex.Hex32Decode(row.peerIdHex).value;
    assert id in s.trusted && HasRow(stored, Hex.Hex32(id));
    var was :| was in stored && was.peerIdHex == row.peerIdHex;
    assert IsRowOf(was, s.trusted);
    LastAddrExact(stored, was);
  }

  lemma {:induction false} LastAddrExact(stored: seq<StoredPeer>, row: StoredPeer)
    requires DistinctRows(stored) && row in stored
    ensures LastAddr(stored, row.peerIdHex) == row.lastAddr
  {
    var rest := stored[1..];
    assert stored == [stored[0]] + rest;
    forall i | 0 <= i < |rest| ensures rest[i].peerIdHex != stored[0].peerIdHex { assert rest[i] == stored[i + 1]; }
    if row in rest { LastAddrExact(rest, row); }
  }
}
