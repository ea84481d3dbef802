/** The firewall's parking lot: what is held, what is released, and that nothing else ever moves clipboard content. */
module Parking {
  import opened Basics
  import opened Events
  import opened AppSpec
  import opened Actions
  import opened Clipboard
  import opened Frames
  import opened Runs
  import Fsm
  import Hex
  import History
  import Policy
  import Text

  // ── The shown list and the held payloads agree ──────────────────────

  ghost predicate DistinctKeys(pending: seq<PendingItem>) {
    forall i, j :: 0 <= i < j < |pending| ==> pending[i].hash != pending[j].hash
  }

  predicate HasKey(pending: seq<PendingItem>, key: string) { exists i :: 0 <= i < |pending| && pending[i].hash == key }

  /** The row shows the item it stands for: same kind, direction, sensitivity and peer. */
  predicate Mirrors(row: PendingItem, p: PendingPayload) {
    && row.kind == p.kind && row.sensitive == p.sensitive && row.direction == p.direction
    && row.peerId == if p.peerId.Some? then Some(Hex.Hex32(p.peerId.value)) else None
  }

  /** The rows and the payloads are in bijection, with the same kind, direction, sensitivity and peer. */
  ghost predicate Agree(pending: seq<PendingItem>, payloads: map<string, PendingPayload>) {
    && DistinctKeys(pending)
    && (forall i :: 0 <= i < |pending| ==>
          pending[i].hash in payloads && Mirrors(pending[i], payloads[pending[i].hash]))
    && (forall k :: k in payloads ==> HasKey(pending, k) && k == Hex.Hex32(payloads[k].hash))
  }

  lemma {:induction false} WithoutKeysMembers(pending: seq<PendingItem>, keys: set<string>, p: PendingItem)
    ensures p in WithoutKeys(pending, keys) <==> p in pending && p.hash !in keys
  {
    if pending != [] {
      assert pending == [pending[0]] + pending[1..];
      WithoutKeysMembers(pending[1..], keys, p);
    }
  }

  lemma {:induction false} WithoutKeysDistinct(pending: seq<PendingItem>, keys: set<string>)
    requires DistinctKeys(pending)
    ensures DistinctKeys(WithoutKeys(pending, keys))
  {
    if pending != [] {
      var first, rest := pending[0], WithoutKeys(pending[1..], keys);
      WithoutKeysDistinct(pending[1..], keys);
      forall i | 0 <= i < |rest| ensures rest[i].hash != first.hash {
        WithoutKeysMembers(pending[1..], keys, rest[i]);
        var j :| 0 <= j < |pending[1..]| && pending[1..][j] == rest[i];
        assert pending[j + 1] == rest[i];
      }
    }
  }

  lemma WithoutKeysExact(pending: seq<PendingItem>, keys: set<string>)
    requires DistinctKeys(pending)
    ensures var r := WithoutKeys(pending, keys);
            && DistinctKeys(r)
            && (forall i :: 0 <= i < |r| ==> r[i] in pending && r[i].hash !in keys)
    ensures forall p :: p in pending && p.hash !in keys ==> p in WithoutKeys(pending, keys)
  {
    hide WithoutKeys, DistinctKeys;
    WithoutKeysDistinct(pending, keys);
    forall p ensures p in WithoutKeys(pending, keys) <==> p in pending && p.hash !in keys {
      WithoutKeysMembers(pending, keys, p);
    }
  }

  lemma AgreeWithout(pending: seq<PendingItem>, payloads: map<string, PendingPayload>, keys: set<string>)
    requires Agree(pending, payloads)
    ensures Agree(WithoutKeys(pending, keys), payloads - keys)
  {
    WithoutKeysExact(pending, keys);
    var r := WithoutKeys(pending, keys);
    forall i | 0 <= i < |r|
      ensures r[i].hash in payloads - keys && Mirrors(r[i], payloads[r[i].hash])
    {
      var j :| 0 <= j < |pending| && pending[j] == r[i];
    }
    forall k | k in payloads - keys ensures HasKey(r, k) {
      var j :| 0 <= j < |pending| && pending[j].hash == k;
      assert pending[j] in r;
    }
  }

  lemma HasKeyAppend(pending: seq<PendingItem>, item: PendingItem, key: string)
    requires HasKey(pending, key) || item.hash == key
    ensures HasKey(pending + [item], key)
  {
    var longer := pending + [item];
    if HasKey(pending, key) {
      var i :| 0 <= i < |pending| && pending[i].hash == key;
      assert longer[i].hash == key;
    } else {
      assert longer[|pending|].hash == key;
    }
  }

  lemma AgreeAppend(pending: seq<PendingItem>, payloads: map<string, PendingPayload>, p: PendingPayload, preview: string)
    requires Agree(pending, payloads) && Hex.Hex32(p.hash) !in payloads
    ensures var key := Hex.Hex32(p.hash); Agree(pending + [Shown(key, p, preview)], payloads[key := p])
  {
    hide Hex.Hex32, HasKey;
    var key := Hex.Hex32(p.hash);
    forall k | k in payloads[key := p] ensures HasKey(pending + [Shown(key, p, preview)], k) {
      HasKeyAppend(pending, Shown(key, p, preview), k);
    }
  }

  lemma AgreeParked(s: AppState, p: PendingPayload, preview: string)
    requires Agree(s.st.pending, s.pendingPayloads)
    ensures var t := Parked(s, p, preview); Agree(t.st.pending, t.pendingPayloads)
  {
    hide Agree, Hex.Hex32, Shown;
    if Hex.Hex32(p.hash) !in s.pendingPayloads { AgreeAppend(s.st.pending, s.pendingPayloads, p, Text.Trim(preview)); }
  }

  lemma AgreeSwap(s: AppState, peer: Id)
    requires Agree(s.st.pending, s.pendingPayloads)
    ensures var t := SwapApplied(s, peer); Agree(t.st.pending, t.pendingPayloads)
  {
    AgreeWithout(s.st.pending, s.pendingPayloads, PeerKeys(s.pendingPayloads, s.lastPairedPeerId));
  }

  lemma AgreeSighted(s: AppState, peer: Id, name: string)
    requires Agree(s.st.pending, s.pendingPayloads)
    ensures var t := PeerSighted(s, peer, name); Agree(t.st.pending, t.pendingPayloads)
  {
    hide SwapApplied, Agree;
    AgreeSwap(s.(st := s.st.(peer := s.st.peer.(name := name))), peer);
  }

  lemma DescribedKeepsPending(s: AppState, e: Event)
    ensures var t := Described(s, e); t.pending == s.st.pending && t.history == s.st.history
  {
  }

  lemma AgreePrepared(digest: Digest, s: AppState, e: Event, w: Wall)
    requires Agree(s.st.pending, s.pendingPayloads)
    ensures var t := Prepared(digest, s, e, w); Agree(t.st.pending, t.pendingPayloads)
  {
    hide Agree, Copied, PeerSighted, WithoutKeys, Described;
    DescribedKeepsPending(s, e);
    AgreeEmpty();
    if IsClipboard(e) { CopiedFrame(digest, s, e, w); }
    if e.PeerSeen? { AgreeSighted(s, e.peerId, e.name); }
    if e.PeerRevoked? { AgreeWithout(s.st.pending, s.pendingPayloads, PeerKeys(s.pendingPayloads, e.peerId)); }
    if e.GhostTimeout? { AgreeWithout(s.st.pending, s.pendingPayloads, PeerKeys(s.pendingPayloads, s.st.peer.id)); }
  }

  lemma AgreeEmpty()
    ensures Agree([], map[])
  {
  }

  lemma AgreeConcluded(s: AppState, e: Event, dropped: set<Id>)
    requires Agree(s.st.pending, s.pendingPayloads)
    ensures var t := Concluded(s, e, dropped).0; Agree(t.st.pending, t.pendingPayloads)
  {
    hide Agree, Parked;
    if IsClipboard(e) { AgreeParked(s, PayloadOf(e), e.preview); }
  }

  lemma AgreeStep(digest: Digest, s: AppState, e: Event, w: Wall)
    requires Agree(s.st.pending, s.pendingPayloads)
    ensures var t := Step(digest, s, e, w).0; Agree(t.st.pending, t.pendingPayloads)
  {
    hide Agree, Prepared, Concluded, IsDuplicate, Dropped;
    if e.ResolvePending? {
      AgreeWithout(s.st.pending, s.pendingPayloads, {e.key});
    } else {
      AgreePrepared(digest, s, e, w);
      AgreeConcluded(Prepared(digest, s, e, w), e, Dropped(s, e));
    }
  }

  /** In every run the shown pending list and the held payloads are in duplicate-free bijection. */
  lemma {:induction false} AlwaysAgree(b: Boot, run: seq<Input>)
    ensures Agree(After(b, run).st.pending, After(b, run).pendingPayloads)
  {
    hide Agree, Step;
    if run != [] {
      var before, i := run[..|run| - 1], run[|run| - 1];
      AlwaysAgree(b, before);
      if i.Handle? { AgreeStep(b.digest, After(b, before), i.event, i.wall); }
    } else {
      AgreeEmpty();
    }
  }

  // ── Where every emitted item comes from ─────────────────────────────

  /** The event parks its item now. */
  predicate Parks(digest: Digest, s: AppState, e: Event, w: Wall) {
    && IsClipboard(e) && !IsDuplicate(digest, s, e, w) && Verdict(s, e).Defer?
    && Hex.Hex32(e.hash) !in s.pendingPayloads
  }

  /** A payload is held after an event only if it was held before and not just resolved, or is parked by this event. */
  lemma HeldStep(digest: Digest, s: AppState, e: Event, w: Wall, key: string)
    requires key in Step(digest, s, e, w).0.pendingPayloads
    ensures var p := Step(digest, s, e, w).0.pendingPayloads[key];
            || (key in s.pendingPayloads && s.pendingPayloads[key] == p && !(e.ResolvePending? && e.key == key))
            || (Parks(digest, s, e, w) && key == Hex.Hex32(e.hash) && p == PayloadOf(e))
  {
    hide Step, Parks, Hex.Hex32;
    if IsClipboard(e) {
      ItemHolds(digest, s, e, w, key);
    } else {
      OtherHolds(digest, s, e, w, key);
    }
  }

  lemma ItemHolds(digest: Digest, s: AppState, e: Event, w: Wall, key: string)
    requires IsClipboard(e) && key in Step(digest, s, e, w).0.pendingPayloads
    ensures var p := Step(digest, s, e, w).0.pendingPayloads[key];
            || (key in s.pendingPayloads && s.pendingPayloads[key] == p)
            || (Parks(digest, s, e, w) && key == Hex.Hex32(e.hash) && p == PayloadOf(e))
  {
    hide Step, IsDuplicate, Hex.Hex32, Verdict, Shown, Text.Trim, PayloadOf;
    RecordedExact(digest, s, e, w);
  }

  lemma OtherHolds(digest: Digest, s: AppState, e: Event, w: Wall, key: string)
    requires !IsClipboard(e) && key in Step(digest, s, e, w).0.pendingPayloads
    ensures key in s.pendingPayloads && s.pendingPayloads[key] == Step(digest, s, e, w).0.pendingPayloads[key]
    ensures !(e.ResolvePending? && e.key == key)
  {
    hide Prepared, Concluded, Dropped, WithoutKeys;
    if !e.ResolvePending? {
      PreparedHolds(digest, s, e, w);
      ConcludedFrame(Prepared(digest, s, e, w), e, Dropped(s, e));
    }
  }

  /** Preparation never adds a held payload. */
  lemma PreparedHolds(digest: Digest, s: AppState, e: Event, w: Wall)
    requires !IsClipboard(e)
    ensures var t := Prepared(digest, s, e, w).pendingPayloads;
            forall k :: k in t ==> k in s.pendingPayloads && t[k] == s.pendingPayloads[k]
  {
    hide Described, WithoutKeys;
  }

  /** The input parks `p` under `key`. */
  predicate ParksAs(digest: Digest, s: AppState, x: Input, key: string, p: PendingPayload) {
    && x.Handle? && Parks(digest, s, x.event, x.wall)
    && key == Hex.Hex32(x.event.hash) && p == PayloadOf(x.event)
  }

  /** The `i`-th input parked `p` under `key`. */
  ghost predicate ParkedAt(b: Boot, run: seq<Input>, i: nat, key: string, p: PendingPayload) {
    i < |run| && ParksAs(b.digest, After(b, run[..i]), run[i], key, p)
  }

  predicate Resolves(i: Input, key: string) { i.Handle? && i.event.ResolvePending? && i.event.key == key }

  /** Parked by the `i`-th input, and not resolved before the `n`-th. */
  ghost predicate HeldUntil(b: Boot, run: seq<Input>, n: nat, i: nat, key: string, p: PendingPayload) {
    && i < n <= |run| && ParkedAt(b, run, i, key, p)
    && forall m :: i < m < n ==> !Resolves(run[m], key)
  }

  lemma HeldByPrefix(b: Boot, run: seq<Input>, n: nat, i: nat, key: string, p: PendingPayload)
    requires n < |run| && HeldUntil(b, run[..n], n, i, key, p)
    ensures HeldUntil(b, run, n, i, key, p)
  {
    assert run[..n][..i] == run[..i];
    forall m | i < m < n ensures !Resolves(run[m], key) { assert run[..n][m] == run[m]; }
  }

  /** One more input either parks the held payload now, or the payload was held before it and is not resolved by it. */
  lemma HeldNext(digest: Digest, s: AppState, x: Input, key: string)
    requires key in Next(digest, s, x).0.pendingPayloads
    ensures var p := Next(digest, s, x).0.pendingPayloads[key];
            || ParksAs(digest, s, x, key, p)
            || (key in s.pendingPayloads && s.pendingPayloads[key] == p && !Resolves(x, key))
  {
    hide Step, Parks;
    if x.Handle? { HeldStep(digest, s, x.event, x.wall, key); }
  }

  /** Every held payload is, byte for byte, what some earlier input parked under that key. */
  lemma {:induction false} HeldWasParked(b: Boot, run: seq<Input>, key: string)
    requires key in After(b, run).pendingPayloads
    ensures exists i :: HeldUntil(b, run, |run|, i, key, After(b, run).pendingPayloads[key])
  {
    hide Next, ParksAs;
    if run != [] {
      var n := |run| - 1;
      var x, s, p := run[n], After(b, run[..n]), After(b, run).pendingPayloads[key];
      HeldNext(b.digest, s, x, key);
      if ParksAs(b.digest, s, x, key, p) {
        ParkedNow(b, run, key, p);
      } else {
        HeldWasParked(b, run[..n], key);
        var i :| HeldUntil(b, run[..n], n, i, key, p);
        HeldByPrefix(b, run, n, i, key, p);
        assert HeldUntil(b, run, |run|, i, key, p);
      }
    } else {
      RestoredHoldsNothing(b);
    }
  }

  lemma RestoredHoldsNothing(b: Boot)
    ensures After(b, []).pendingPayloads == map[]
  {
  }

  lemma ParkedNow(b: Boot, run: seq<Input>, key: string, p: PendingPayload)
    requires run != [] && ParkedAt(b, run, |run| - 1, key, p)
    ensures HeldUntil(b, run, |run|, |run| - 1, key, p)
  {
  }

  /** What one event may sync: its own item when the firewall passes it, or the item it approves. */
  lemma StepSyncs(digest: Digest, s: AppState, e: Event, w: Wall, a: Action)
    requires IsSync(a) && a in Step(digest, s, e, w).1
    ensures Count(Step(digest, s, e, w).1, a) == 1
    ensures || (IsClipboard(e) && IsApplied(digest, s, e, w) && a == SyncAction(PayloadOf(e)))
            || (e.ResolvePending? && e.allow && e.key in s.pendingPayloads && a == SyncAction(s.pendingPayloads[e.key]))
  {
    hide Prepared, Concluded, IsDuplicate, Dropped, IsPeerMismatch, IsApplied;
    InMeansCount(Step(digest, s, e, w).1, a);
    if IsClipboard(e) {
      SyncExact(digest, s, e, w, a);
    } else if e.ResolvePending? {
      AppendCount([Step(digest, s, e, w).1[0]], [EmitState], a);
    } else if !(e.PeerSeen? && IsPeerMismatch(s, e.peerId)) {
      OtherEventsSyncNothing(Prepared(digest, s, e, w), e, Dropped(s, e), a);
    }
  }

  lemma OtherEventsSyncNothing(s: AppState, e: Event, dropped: set<Id>, a: Action)
    requires !IsClipboard(e) && IsSync(a)
    ensures a !in Concluded(s, e, dropped).1
  {
    hide Concluded, Count;
    ConcludedExact(s, e, dropped, a);
    InMeansCount(Concluded(s, e, dropped).1, a);
    InMeansCount(Fsm.Transition(s.phase, e).1, a);
  }

  /** The `k`-th input syncs its own item, which the firewall passes. */
  ghost predicate SyncsOwn(b: Boot, run: seq<Input>, k: nat, a: Action)
    requires k < |run|
  {
    && run[k].Handle? && IsClipboard(run[k].event)
    && Verdict(After(b, run[..k]), run[k].event).Pass?
    && a == SyncAction(PayloadOf(run[k].event))
  }

  /** The `k`-th input approves an item that the `i`-th parked and nothing resolved in between. */
  ghost predicate Releases(b: Boot, run: seq<Input>, k: nat, i: nat, a: Action)
    requires k < |run|
  {
    && run[k].Handle? && run[k].event.ResolvePending? && run[k].event.allow
    && exists p :: HeldUntil(b, run, k, i, run[k].event.key, p) && a == SyncAction(p)
  }

  /** Conservation: in every run, every sync the machine emits is the current event's own item with verdict `Pass`, or
      the very item parked under the key just approved; and it is emitted once. */
  lemma SyncsAreAccountedFor(b: Boot, run: seq<Input>, k: nat, a: Action)
    requires k < |run| && IsSync(a) && a in Emitted(b, run)[k]
    ensures Count(Emitted(b, run)[k], a) == 1
    ensures SyncsOwn(b, run, k, a) || exists i: nat :: i < k && Releases(b, run, k, i, a)
  {
    EmittedAt(b, run, k);
    var s, x := After(b, run[..k]), run[k];
    StepSyncs(b.digest, s, x.event, x.wall, a);
    if x.event.ResolvePending? {
      HeldWasParked(b, run[..k], x.event.key);
      var i :| HeldUntil(b, run[..k], k, i, x.event.key, s.pendingPayloads[x.event.key]);
      HeldByPrefix(b, run, k, i, x.event.key, s.pendingPayloads[x.event.key]);
      assert Releases(b, run, k, i, a);
    }
  }

  /** A parked item is released at most once. */
  lemma ReleasedOnce(b: Boot, run: seq<Input>, i: nat, k1: nat, a1: Action, k2: nat, a2: Action)
    requires k1 < |run| && k2 < |run| && Releases(b, run, k1, i, a1) && Releases(b, run, k2, i, a2)
    ensures k1 == k2
  {
    ReleasedFirst(b, run, i, k1, a1, k2, a2);
    ReleasedFirst(b, run, i, k2, a2, k1, a1);
  }

  lemma ReleasedFirst(b: Boot, run: seq<Input>, i: nat, k1: nat, a1: Action, k2: nat, a2: Action)
    requires k1 < |run| && k2 < |run| && Releases(b, run, k1, i, a1) && Releases(b, run, k2, i, a2)
    ensures k2 <= k1
  {
    var p1 :| HeldUntil(b, run, k1, i, run[k1].event.key, p1);
    var p2 :| HeldUntil(b, run, k2, i, run[k2].event.key, p2);
    assert Resolves(run[k1], run[k2].event.key);
  }

  // ── What the user's decision does ───────────────────────────────────

  /** What is due to a held item: to be sent as it was copied, or written as it was received. */
  function Due(p: PendingPayload): Action {
    if p.direction.Outbound? then SendItem(p.hash, p.kind, p.payload, p.sensitive)
    else WriteClipboard(p.kind, p.payload, p.sensitive)
  }

  lemma {:induction false} WithoutKeysIsSubsequence(pending: seq<PendingItem>, keys: set<string>)
    ensures IsSubsequence(WithoutKeys(pending, keys), pending)
  {
    if pending != [] {
      var rest := WithoutKeys(pending[1..], keys);
      WithoutKeysIsSubsequence(pending[1..], keys);
      if pending[0].hash in keys {
        SkipFirst(rest, pending);
        assert WithoutKeys(pending, keys) == rest;
      } else {
        assert WithoutKeys(pending, keys)[1..] == rest;
      }
    }
  }

  /** Approval of a held item does what is due to it, once; a denial, or an unknown key, does nothing. Either way the key
      leaves both queues, and every other item keeps its place. */
  lemma ResolutionExact(digest: Digest, s: AppState, key: string, allow: bool, w: Wall)
    ensures var (t, actions) := Step(digest, s, ResolvePending(key, allow), w);
            && actions == (if allow && key in s.pendingPayloads then [Due(s.pendingPayloads[key]), EmitState] else [EmitState])
            && t == s.(pendingPayloads := t.pendingPayloads, st := s.st.(pending := t.st.pending))
            && (forall k :: k in t.pendingPayloads <==> k in s.pendingPayloads && k != key)
            && (forall k :: k in t.pendingPayloads ==> t.pendingPayloads[k] == s.pendingPayloads[k])
            && IsSubsequence(t.st.pending, s.st.pending)
            && forall row :: row in t.st.pending <==> row in s.st.pending && row.hash != key
  {
    hide WithoutKeys;
    WithoutKeysIsSubsequence(s.st.pending, {key});
    forall row ensures row in WithoutKeys(s.st.pending, {key}) <==> row in s.st.pending && row.hash != key {
      WithoutKeysMembers(s.st.pending, {key}, row);
    }
  }

  /** Parked by the `i`-th input, and there ever since. */
  ghost predicate HeldThrough(b: Boot, run: seq<Input>, i: nat, k: nat, key: string) {
    && i < k <= |run|
    && key !in After(b, run[..i]).pendingPayloads
    && forall m :: i < m <= k ==> key in After(b, run[..m]).pendingPayloads
  }

  lemma HeldNow(b: Boot, run: seq<Input>, m: nat, key: string)
    requires m < |run| && key in After(b, run[..m + 1]).pendingPayloads
    ensures var s, p := After(b, run[..m]), After(b, run[..m + 1]).pendingPayloads[key];
            if key in s.pendingPayloads then s.pendingPayloads[key] == p else ParksAs(b.digest, s, run[m], key, p)
  {
    hide Next;
    assert run[..m + 1][..m] == run[..m];
    HeldNext(b.digest, After(b, run[..m]), run[m], key);
    if key in After(b, run[..m]).pendingPayloads { ParksNewOnly(b.digest, After(b, run[..m]), run[m], key); }
  }

  lemma ParksNewOnly(digest: Digest, s: AppState, x: Input, key: string)
    requires key in s.pendingPayloads
    ensures forall p :: !ParksAs(digest, s, x, key, p)
  {
    hide IsDuplicate, Verdict, PayloadOf;
  }

  /** The item that a clipboard event brings. */
  predicate Brings(e: Event, p: PendingPayload) {
    match e
    case LocalClipboardChange(hash, kind, payload, _, sensitive, _) =>
      p == PendingPayload(Policy.Outbound, kind, payload, sensitive, hash, None)
    case FrameReceivedClipboard(hash, kind, payload, _, sensitive, _, _, peerId) =>
      p == PendingPayload(Policy.Inbound, kind, payload, sensitive, hash, Some(peerId))
    case _ => false
  }

  /** While it waits, an item stays what it was when it came. */
  lemma {:induction false} HeldAsItCame(b: Boot, run: seq<Input>, i: nat, k: nat, key: string)
    requires HeldThrough(b, run, i, k, key)
    ensures run[i].Handle? && Brings(run[i].event, After(b, run[..k]).pendingPayloads[key])
    ensures key == Hex.Hex32(After(b, run[..k]).pendingPayloads[key].hash)
    decreases k
  {
    hide After, ParksAs, Hex.Hex32;
    HeldNow(b, run, k - 1, key);
    if k == i + 1 {
      ParksItsItem(b.digest, After(b, run[..i]), run[i], key, After(b, run[..k]).pendingPayloads[key]);
    } else {
      HeldAsItCame(b, run, i, k - 1, key);
    }
  }

  lemma ParksItsItem(digest: Digest, s: AppState, x: Input, key: string, p: PendingPayload)
    requires ParksAs(digest, s, x, key, p)
    ensures x.Handle? && Brings(x.event, p) && key == Hex.Hex32(p.hash)
  {
    hide IsDuplicate, Verdict, Hex.Hex32;
  }

  /** An item that has waited since input `i` is dealt with by the decision at input `k`: an approval sends or writes the
      very item of input `i`, exactly once, a denial does not, and after either it waits no more. */
  lemma DecisionIsCarriedOut(b: Boot, run: seq<Input>, i: nat, k: nat, key: string, allow: bool)
    requires HeldThrough(b, run, i, k, key) && k < |run| && IsEvent(run[k], ResolvePending(key, allow))
    ensures run[i].Handle? && key !in After(b, run[..k + 1]).pendingPayloads
    ensures match run[i].event
            case LocalClipboardChange(hash, kind, payload, _, sensitive, _) =>
              Emitted(b, run)[k] == (if allow then [SendItem(hash, kind, payload, sensitive)] else []) + [EmitState]
            case FrameReceivedClipboard(_, kind, payload, _, sensitive, _, _, _) =>
              Emitted(b, run)[k] == (if allow then [WriteClipboard(kind, payload, sensitive)] else []) + [EmitState]
            case _ => false
  {
    hide After, Step, Hex.Hex32, Emitted;
    EmittedAt(b, run, k);
    HeldAsItCame(b, run, i, k, key);
    ResolutionExact(b.digest, After(b, run[..k]), key, allow, run[k].wall);
  }

  // ── Which items an event drops ──────────────────────────────────────

  /** The event drops everything that waits: the last relationship is over. */
  predicate DropsAll(s: AppState, e: Event) {
    || e.ManualUnpair? || e.UntrustedPeerSeen?
    || (e.PeerSeen? && TakesOver(s, e.peerId) && s.otherLinkedPeers == {})
  }

  /** The sighted peer is accepted, and is another than the one paired before. */
  predicate TakesOver(s: AppState, peer: Id) {
    && peer != ZERO_ID && s.lastPairedPeerId != ZERO_ID && peer != s.lastPairedPeerId
    && !((s.phase.Handshaking? || s.phase.Linked?) && s.st.peer.name != [] && s.st.peer.id != peer)
  }

  /** The event drops what came from this peer. */
  predicate DropsFrom(s: AppState, e: Event, peer: Id) {
    || (e.PeerRevoked? && peer == e.peerId)
    || (e.GhostTimeout? && !s.phase.Linked? && peer == s.st.peer.id)
    || (e.PeerSeen? && TakesOver(s, e.peerId) && s.otherLinkedPeers != {} && peer == s.lastPairedPeerId)
  }

  /** No event but an item or a decision adds a held item, and the others drop exactly these: all of them, or those that
      came from the peer that is gone. A local copy waits on. */
  lemma DropsExact(digest: Digest, s: AppState, e: Event, w: Wall, key: string)
    requires !IsClipboard(e) && !e.ResolvePending?
    ensures var t := Step(digest, s, e, w).0;
            && (key in t.pendingPayloads <==>
                && key in s.pendingPayloads && !DropsAll(s, e)
                && (s.pendingPayloads[key].peerId.Some? ==> !DropsFrom(s, e, s.pendingPayloads[key].peerId.value)))
            && (key in t.pendingPayloads ==> t.pendingPayloads[key] == s.pendingPayloads[key])
  {
    hide Step, DropsAll, DropsFrom;
    if e.PeerSeen? { SightingDrops(digest, s, e, w, key); } else { OthersDrop(digest, s, e, w, key); }
  }

  lemma SightingDrops(digest: Digest, s: AppState, e: Event, w: Wall, key: string)
    requires e.PeerSeen?
    ensures var t := Step(digest, s, e, w).0;
            && (key in t.pendingPayloads <==>
                && key in s.pendingPayloads && !DropsAll(s, e)
                && (s.pendingPayloads[key].peerId.Some? ==> !DropsFrom(s, e, s.pendingPayloads[key].peerId.value)))
            && (key in t.pendingPayloads ==> t.pendingPayloads[key] == s.pendingPayloads[key])
  {
    hide Concluded, Dropped, WithoutKeys;
    ConcludedFrame(Prepared(digest, s, e, w), e, Dropped(s, e));
  }

  lemma OthersDrop(digest: Digest, s: AppState, e: Event, w: Wall, key: string)
    requires !IsClipboard(e) && !e.ResolvePending? && !e.PeerSeen?
    ensures var t := Step(digest, s, e, w).0;
            && (key in t.pendingPayloads <==>
                && key in s.pendingPayloads && !DropsAll(s, e)
                && (s.pendingPayloads[key].peerId.Some? ==> !DropsFrom(s, e, s.pendingPayloads[key].peerId.value)))
            && (key in t.pendingPayloads ==> t.pendingPayloads[key] == s.pendingPayloads[key])
  {
    hide Concluded, Dropped, Prepared, DropPendingFor;
    ConcludedFrame(Prepared(digest, s, e, w), e, Dropped(s, e));
    PreparedDrops(digest, s, e, w);
    DropPayloads(s, s.st.peer.id, key);
    if e.PeerRevoked? { DropPayloads(s, e.peerId, key); }
  }

  lemma PreparedDrops(digest: Digest, s: AppState, e: Event, w: Wall)
    requires !IsClipboard(e) && !e.ResolvePending? && !e.PeerSeen?
    ensures Prepared(digest, s, e, w).pendingPayloads ==
            if DropsAll(s, e) then map[]
            else if e.PeerRevoked? then DropPendingFor(s, e.peerId).pendingPayloads
            else if e.GhostTimeout? && !s.phase.Linked? then DropPendingFor(s, s.st.peer.id).pendingPayloads
            else s.pendingPayloads
  {
    hide WithoutKeys, Described, History.Repinned, History.Favorites;
  }

  /** Dropping for one peer takes its items and no other. */
  lemma DropPayloads(s: AppState, peer: Id, key: string)
    ensures var t := DropPendingFor(s, peer).pendingPayloads;
            && (key in t <==> key in s.pendingPayloads && s.pendingPayloads[key].peerId != Some(peer))
            && (key in t ==> t[key] == s.pendingPayloads[key])
  {
    hide WithoutKeys;
  }

  /** Once a peer is revoked nothing that it sent waits any more. */
  lemma RevokedLeaveNothing(b: Boot, run: seq<Input>, k: nat, peer: Id, key: string)
    requires k < |run| && IsEvent(run[k], PeerRevoked(peer))
    ensures var held := After(b, run[..k + 1]).pendingPayloads; key in held ==> held[key].peerId != Some(peer)
  {
    hide After, Step, DropsAll;
    EmittedAt(b, run, k);
    DropsExact(b.digest, After(b, run[..k]), run[k].event, run[k].wall, key);
  }
}
