/** Who the shown and the paired peer are after any event, told field by field, and over whole runs. */
module PeerLaws {
  import opened Basics
  import opened Events
  import opened AppSpec
  import opened Actions
  import opened Frames
  import opened Fsm
  import opened Runs
  import History
  import Parking

  // ── Sighting a peer ─────────────────────────────────────────────────

  /** A handshake or a session with a named peer is under way, and this is another one. */
  predicate IsStranger(s: AppState, peer: Id) {
    (s.phase.Handshaking? || s.phase.Linked?) && s.st.peer.name != [] && peer != s.st.peer.id
  }

  /** A stranger is ignored altogether. */
  lemma StrangerIsIgnored(digest: Digest, s: AppState, id: Id, name: string, w: Wall)
    requires IsStranger(s, id)
    ensures Step(digest, s, PeerSeen(id, name), w) == (s, [])
  {
  }

  /** Anybody else is taken for the peer: by name, and unless the id is the placeholder, as the shown and the paired one.
      Taking over from another paired peer wipes the history, unless further peers are linked. */
  lemma SightingExact(digest: Digest, s: AppState, id: Id, name: string, w: Wall)
    requires !IsStranger(s, id)
    ensures var t := Step(digest, s, PeerSeen(id, name), w).0;
            var wiped := id != ZERO_ID && s.lastPairedPeerId != ZERO_ID && id != s.lastPairedPeerId && s.otherLinkedPeers == {};
            && t.st.peer == s.st.peer.(name := name, id := if id == ZERO_ID then s.st.peer.id else id)
            && t.lastPairedPeerId == (if id == ZERO_ID then s.lastPairedPeerId else id)
            && t.st.history == (if wiped then [] else s.st.history)
            && t.st.vaultWipeGen == s.st.vaultWipeGen + (if wiped then 1 else 0)
            && t.phase == if s.phase.Discovering? then Handshaking else s.phase
  {
    hide Concluded, Dropped, WithoutKeys;
    var e := PeerSeen(id, name);
    SightedPhase(s.phase, e);
    ConcludedFrame(Prepared(digest, s, e, w), e, Dropped(s, e));
  }

  lemma SightedPhase(phase: Phase, e: Event)
    requires e.PeerSeen?
    ensures Transition(phase, e).0 == if phase.Discovering? then Handshaking else phase
    ensures forall p :: Count(Transition(phase, e).1, SendHandshake(p)) == if phase.Discovering? && p == e.peerId then 1 else 0
  {
  }

  /** A handshake goes out exactly when a peer is sighted while discovering, once, and to that peer. */
  lemma HandshakeExact(digest: Digest, s: AppState, e: Event, w: Wall, peer: Id)
    ensures Count(Step(digest, s, e, w).1, SendHandshake(peer)) ==
            if s.phase.Discovering? && e.PeerSeen? && e.peerId == peer then 1 else 0
  {
    hide Concluded, Prepared, Dropped, IsDuplicate, Transition, Count;
    var a := SendHandshake(peer);
    QuietOfHandshakes(s, e, a);
    OnlySighting(s.phase, e, peer);
    if !e.ResolvePending? && !(e.PeerSeen? && IsPeerMismatch(s, e.peerId)) {
      PreparedFrame(digest, s, e, w);
      ConcludedExact(Prepared(digest, s, e, w), e, Dropped(s, e), a);
      if e.PeerSeen? { SightedPhase(s.phase, e); }
    }
  }

  lemma OnlySighting(phase: Phase, e: Event, peer: Id)
    ensures !e.PeerSeen? ==> Count(Transition(phase, e).1, SendHandshake(peer)) == 0
  {
    hide Transition, Count;
    HandshakeSent(phase, e, peer);
    InMeansCount(Transition(phase, e).1, SendHandshake(peer));
  }

  lemma QuietOfHandshakes(s: AppState, e: Event, a: Action)
    requires a.SendHandshake?
    ensures Count([], a) == 0 && Count([DuplicateDropped], a) == 0
    ensures forall hash :: Count([DuplicateDropped] + [AckItem(hash)], a) == 0
    ensures e.ResolvePending? ==> Count(Resolved(s, e.key, e.allow).1, a) == 0
    ensures [DuplicateDropped] + [] == [DuplicateDropped]
  {
    hide WithoutKeys;
  }

  // ── The shown peer, field by field ──────────────────────────────────

  /** The device forgets the peer it shows. */
  predicate Forgets(s: AppState, e: Event) {
    || e.UntrustedPeerSeen? || e.ManualUnpair? || (e.GhostTimeout? && !s.phase.Linked?)
    || (e.PeerRevoked? && e.peerId != ZERO_ID && e.peerId == s.st.peer.id)
  }

  /** The event names a peer that is accepted as the shown one. */
  predicate Names(s: AppState, e: Event) { (e.PeerSeen? && !IsStranger(s, e.peerId)) || e.PrimaryFailover? }

  /** What each field of the shown peer is after an event. */
  lemma ShownPeerExact(digest: Digest, s: AppState, e: Event, w: Wall)
    ensures var peer, was := Step(digest, s, e, w).0.st.peer, s.st.peer;
            && peer.name == (if Forgets(s, e) then [] else if Names(s, e) then e.name else was.name)
            && peer.id == (if Forgets(s, e) then ZERO_ID else if Names(s, e) && e.peerId != ZERO_ID then e.peerId else was.id)
            && peer.platform == (if Forgets(s, e) then [] else if e.PeerPlatform? || e.PrimaryFailover? then e.platform else was.platform)
            && peer.caps == (if Forgets(s, e) then [] else if e.PeerCaps? || e.PrimaryFailover? then e.caps else was.caps)
            && peer.battery == (if Forgets(s, e) || e.PeerLost? || e.PrimaryFailover? then Battery(255, false)
                                else if e.BatteryChangedPeer? then Battery(e.level, e.charging) else was.battery)
  {
    hide Step;
    if e.PeerSeen? {
      if IsStranger(s, e.peerId) { StrangerIsIgnored(digest, s, e.peerId, e.name, w); }
      else { SightingExact(digest, s, e.peerId, e.name, w); }
    } else {
      ShownAfterOthers(digest, s, e, w);
    }
  }

  lemma ShownAfterOthers(digest: Digest, s: AppState, e: Event, w: Wall)
    requires !e.PeerSeen?
    ensures Step(digest, s, e, w).0.st.peer == PeerAfter(s, e)
  {
    hide PeerAfter, Concluded, Dropped, IsDuplicate, WithoutKeys, Prepared;
    ResolvedPeer(s, e);
    if !e.ResolvePending? {
      PreparedPeer(digest, s, e, w);
      ConcludedFrame(Prepared(digest, s, e, w), e, Dropped(s, e));
    }
  }

  lemma ResolvedPeer(s: AppState, e: Event)
    ensures e.ResolvePending? ==> PeerAfter(s, e) == s.st.peer
  {
  }

  lemma PreparedPeer(digest: Digest, s: AppState, e: Event, w: Wall)
    requires !e.PeerSeen?
    ensures Prepared(digest, s, e, w).st.peer == PeerAfter(s, e)
  {
    hide PeerAfter, Copied, WithoutKeys, History.Repinned, History.Favorites;
    if IsClipboard(e) {
      CopiedFrame(digest, s, e, w);
      ItemsKeepPeer(s, e);
    }
  }

  lemma ItemsKeepPeer(s: AppState, e: Event)
    requires IsClipboard(e)
    ensures PeerAfter(s, e) == s.st.peer
  {
  }

  /** The peer that a later one is compared with: the last one accepted or promoted, and forgotten by no event. */
  lemma PairedPeerExact(digest: Digest, s: AppState, e: Event, w: Wall)
    ensures Step(digest, s, e, w).0.lastPairedPeerId ==
            if Names(s, e) && e.peerId != ZERO_ID then e.peerId else s.lastPairedPeerId
  {
    hide Step;
    if e.PeerSeen? {
      if IsStranger(s, e.peerId) { StrangerIsIgnored(digest, s, e.peerId, e.name, w); }
      else { SightingExact(digest, s, e.peerId, e.name, w); }
    } else {
      PairedAfterOthers(digest, s, e, w);
    }
  }

  lemma PairedAfterOthers(digest: Digest, s: AppState, e: Event, w: Wall)
    requires !e.PeerSeen?
    ensures Step(digest, s, e, w).0.lastPairedPeerId ==
            if e.PrimaryFailover? && e.peerId != ZERO_ID then e.peerId else s.lastPairedPeerId
  {
    hide Concluded, Dropped, IsDuplicate, WithoutKeys, Described, History.Repinned, History.Favorites, Copied;
    if IsClipboard(e) { CopiedFrame(digest, s, e, w); }
    if !e.ResolvePending? { ConcludedFrame(Prepared(digest, s, e, w), e, Dropped(s, e)); }
  }

  /** The switch, this device's battery and the name of the trusted peer after an event. */
  lemma OwnFieldsExact(digest: Digest, s: AppState, e: Event, w: Wall)
    ensures var st, was := Step(digest, s, e, w).0.st, s.st;
            && st.on == (e.ToggleOn? || (was.on && !e.ToggleOff? && !e.ManualUnpair?))
            && st.battery == (if e.BatteryChangedSelf? then Battery(e.level, e.charging) else was.battery)
            && st.trustedPeerName ==
               (if e.SetTrustedPeer? then Some(e.name)
                else if e.ManualUnpair? || (e.PeerRevoked? && e.peerId != ZERO_ID && e.peerId == was.peer.id) then None
                else was.trustedPeerName)
  {
    hide Prepared, Concluded, Dropped, IsDuplicate, IsPeerMismatch, WithoutKeys, SasAfter, PeerAfter;
    if !e.ResolvePending? && !(e.PeerSeen? && IsPeerMismatch(s, e.peerId)) {
      PreparedFrame(digest, s, e, w);
      ConcludedFrame(Prepared(digest, s, e, w), e, Dropped(s, e));
    }
  }

  /** The saved history is to be wiped once more after a clear, an untrusted peer, and a takeover with no other peer linked;
      after nothing else. The settings are changed by no event. */
  lemma VaultWipedExact(digest: Digest, s: AppState, e: Event, w: Wall)
    ensures var t := Step(digest, s, e, w).0;
            && t.st.vaultWipeGen == s.st.vaultWipeGen +
               (if || e.ClearHistory? || e.UntrustedPeerSeen?
                   || (e.PeerSeen? && !IsStranger(s, e.peerId) && s.otherLinkedPeers == {}
                       && e.peerId != ZERO_ID && s.lastPairedPeerId != ZERO_ID && e.peerId != s.lastPairedPeerId)
                then 1 else 0)
            && t.firewall == s.firewall && t.otherLinkedPeers == s.otherLinkedPeers
            && t.st.historyRetentionSecs == s.st.historyRetentionSecs
  {
    hide Prepared, Concluded, Dropped, IsDuplicate, WithoutKeys;
    if !e.ResolvePending? && !(e.PeerSeen? && IsPeerMismatch(s, e.peerId)) {
      PreparedWipes(digest, s, e, w);
      ConcludedFrame(Prepared(digest, s, e, w), e, Dropped(s, e));
    }
  }

  lemma PreparedWipes(digest: Digest, s: AppState, e: Event, w: Wall)
    requires !(e.PeerSeen? && IsPeerMismatch(s, e.peerId))
    ensures var t := Prepared(digest, s, e, w);
            && t.st.vaultWipeGen == s.st.vaultWipeGen +
               (if || e.ClearHistory? || e.UntrustedPeerSeen?
                   || (e.PeerSeen? && s.otherLinkedPeers == {}
                       && e.peerId != ZERO_ID && s.lastPairedPeerId != ZERO_ID && e.peerId != s.lastPairedPeerId)
                then 1 else 0)
            && t.firewall == s.firewall && t.otherLinkedPeers == s.otherLinkedPeers
            && t.st.historyRetentionSecs == s.st.historyRetentionSecs
  {
    hide WithoutKeys, Described, History.Repinned, History.Favorites, Copied, IsPeerMismatch;
    DescribedKeeps(s, e);
    if IsClipboard(e) { CopiedFrame(digest, s, e, w); }
  }

  lemma DescribedKeeps(s: AppState, e: Event)
    ensures Described(s, e).vaultWipeGen == s.st.vaultWipeGen && Described(s, e).historyRetentionSecs == s.st.historyRetentionSecs
  {
  }

  // ── Over a run ──────────────────────────────────────────────────────

  /** A handshake or a session with a named peer is under way. */
  predicate IsEngaged(s: AppState) { (s.phase.Handshaking? || s.phase.Linked?) && s.st.peer.name != [] }

  /** From the `n`-th input on, the device is engaged with a named peer throughout, and nothing fails over. */
  ghost predicate StaysEngaged(b: Boot, run: seq<Input>, n: nat) {
    && n <= |run|
    && (forall m :: n <= m <= |run| ==> IsEngaged(After(b, run[..m])))
    && forall m :: n <= m < |run| ==> !(run[m].Handle? && run[m].event.PrimaryFailover?)
  }

  lemma EngagedStep(digest: Digest, s: AppState, x: Input)
    requires IsEngaged(s) && IsEngaged(Next(digest, s, x).0) && !(x.Handle? && x.event.PrimaryFailover?)
    ensures Next(digest, s, x).0.st.peer.id == s.st.peer.id
  {
    hide Step, Forgets;
    if x.Handle? { ShownPeerExact(digest, s, x.event, x.wall); }
  }

  /** Whoever else is sighted meanwhile, the peer of a handshake or a session is the same until it is over. */
  lemma {:induction false} EngagedWithOne(b: Boot, run: seq<Input>, n: nat)
    requires StaysEngaged(b, run, n)
    ensures After(b, run).st.peer.id == After(b, run[..n]).st.peer.id
  {
    hide Next, IsEngaged;
    if n == |run| {
      assert run[..n] == run;
    } else {
      var before := run[..|run| - 1];
      assert before[..n] == run[..n] && run[..|run|] == run;
      forall m | n <= m <= |before| ensures IsEngaged(After(b, before[..m])) { assert before[..m] == run[..m]; }
      EngagedWithOne(b, before, n);
      assert IsEngaged(After(b, run[..|run| - 1])) && IsEngaged(After(b, run[..|run|]));
      EngagedStep(b.digest, After(b, before), run[|run| - 1]);
    }
  }
}
