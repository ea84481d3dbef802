/** Mutual confirmation of the pairing words, over every run. */
module Sas {
  import opened Basics
  import opened Events
  import opened AppSpec
  import opened Runs
  import opened Frames

  lemma PreparedSas(digest: Digest, s: AppState, e: Event, w: Wall)
    ensures Prepared(digest, s, e, w).st.sas == SasAfter(s.st.sas, s.phase.Linked?, e)
  {
    hide Prepared, SasAfter;
    PreparedFrame(digest, s, e, w);
  }

  lemma SasUntouched(s: AppState, e: Event)
    ensures e.ResolvePending? || e.PeerSeen? || IsClipboard(e) ==> SasAfter(s.st.sas, s.phase.Linked?, e) == s.st.sas
  {
  }

  lemma StepSas(digest: Digest, s: AppState, e: Event, w: Wall)
    ensures Step(digest, s, e, w).0.st.sas == SasAfter(s.st.sas, s.phase.Linked?, e)
  {
    hide Prepared, Concluded, SasAfter, Dropped, IsDuplicate;
    SasUntouched(s, e);
    PreparedSas(digest, s, e, w);
    ConcludedFrame(Prepared(digest, s, e, w), e, Dropped(s, e));
  }

  /** Another peer's confirm, reject or loss never touches a pairing in progress. */
  lemma OtherPeersAreIgnored(digest: Digest, s: AppState, e: Event, w: Wall)
    requires e.SasLocalConfirmed? || e.SasPeerConfirmed? || e.SasPeerRejected? || e.PeerLost?
    requires s.st.sas.peer != Some(e.peerId)
    ensures Step(digest, s, e, w).0.st.sas == s.st.sas
  {
    StepSas(digest, s, e, w);
  }

  /** The event is about the pairing in progress. */
  predicate IsOurs(p: Pairing, peerId: Id) { p.peer == Some(peerId) }

  /** The event calls the pairing off. */
  predicate CallsOff(p: Pairing, linked: bool, e: Event) {
    || e.SasReset? || e.UntrustedPeerSeen? || e.ManualUnpair? || (e.GhostTimeout? && !linked)
    || (e.PeerLost? && IsOurs(p, e.peerId) && (p.phase.Showing? || p.phase.PeerConfirmed? || p.phase.LocalConfirmed?))
  }

  predicate Confirms(p: Pairing, e: Event) { (e.SasLocalConfirmed? || e.SasPeerConfirmed?) && IsOurs(p, e.peerId) }

  predicate Rejects(p: Pairing, e: Event) { e.SasPeerRejected? && IsOurs(p, e.peerId) }

  /** The pairing after an event, told by what the user is shown. A lost link keeps a verdict, and a confirmation that was
      complete survives a repeated one. */
  lemma PairingExact(digest: Digest, s: AppState, e: Event, w: Wall)
    ensures var p, q := s.st.sas, Step(digest, s, e, w).0.st.sas;
            var off, linked := CallsOff(p, s.phase.Linked?, e), s.phase.Linked?;
            && q.peer == (if e.SasPairingStarted? then Some(e.peerId) else if off then None else p.peer)
            && (q.phase.SasIdle? <==> off || (p.phase.SasIdle? && !e.SasPairingStarted? && !Confirms(p, e) && !Rejects(p, e)))
            && (q.phase.Showing? <==> e.SasPairingStarted? || (p.phase.Showing? && !off && !Confirms(p, e) && !Rejects(p, e)))
            && (q.phase.PeerRejected? <==>
                Rejects(p, e) || (p.phase.PeerRejected? && !off && !e.SasPairingStarted? && !Confirms(p, e)))
            && (q.phase.Confirmed? <==>
                || (p.phase.Confirmed? && !off && !e.SasPairingStarted? && !Rejects(p, e))
                || (p.phase.PeerConfirmed? && e.SasLocalConfirmed? && IsOurs(p, e.peerId))
                || (p.phase.LocalConfirmed? && e.SasPeerConfirmed? && IsOurs(p, e.peerId)))
            && (q.phase.LocalConfirmed? <==>
                || (e.SasLocalConfirmed? && IsOurs(p, e.peerId) && !p.phase.PeerConfirmed? && !p.phase.Confirmed?)
                || (p.phase.LocalConfirmed? && !off && !e.SasPairingStarted? && !Confirms(p, e) && !Rejects(p, e)))
  {
    hide Step;
    StepSas(digest, s, e, w);
  }

  // ── Over a run ──────────────────────────────────────────────────────

  /** The `k`-th input started the pairing with `peer`, and no pairing started since. */
  ghost predicate IsLatestStart(run: seq<Input>, k: nat, peer: Id) {
    && k < |run| && IsEvent(run[k], SasPairingStarted(peer))
    && forall m :: k < m < |run| && run[m].Handle? ==> !run[m].event.SasPairingStarted?
  }

  /** Since input `k`, event `e` happened and `peer` has not rejected the pairing after it. */
  ghost predicate Stands(run: seq<Input>, k: nat, e: Event, peer: Id) {
    exists j :: k < j < |run| && IsEvent(run[j], e) &&
      forall m :: j < m < |run| ==> !IsEvent(run[m], SasPeerRejected(peer))
  }

  /** The SAS fields say exactly which confirmations stand since the pairing they name started. */
  ghost predicate Describes(p: Pairing, run: seq<Input>) {
    && (p.peer.None? <==> p.phase.SasIdle?)
    && (p.peer.Some? ==> exists k :: DescribesFrom(p.phase, p.peer.value, run, k))
  }

  ghost predicate DescribesFrom(phase: SasPhase, peer: Id, run: seq<Input>, k: nat) {
    && IsLatestStart(run, k, peer)
    && (phase.LocalConfirmed? || phase.Confirmed? <==> Stands(run, k, SasLocalConfirmed(peer), peer))
    && (phase.PeerConfirmed? || phase.Confirmed? <==> Stands(run, k, SasPeerConfirmed(peer), peer))
  }

  lemma StandsStep(before: seq<Input>, i: Input, k: nat, e: Event, peer: Id)
    requires k < |before|
    ensures Stands(before + [i], k, e, peer) <==>
            IsEvent(i, e) || (Stands(before, k, e, peer) && !IsEvent(i, SasPeerRejected(peer)))
  {
    if IsEvent(i, e) {
      assert IsEvent((before + [i])[|before|], e);
    } else if Stands(before + [i], k, e, peer) {
      StandsBefore(before, i, k, e, peer);
    } else if Stands(before, k, e, peer) {
      StandsAfter(before, i, k, e, peer);
    }
  }

  lemma StandsBefore(before: seq<Input>, i: Input, k: nat, e: Event, peer: Id)
    requires Stands(before + [i], k, e, peer) && !IsEvent(i, e)
    ensures Stands(before, k, e, peer) && !IsEvent(i, SasPeerRejected(peer))
  {
    var run := before + [i];
    assert run[|before|] == i;
    var j :| k < j < |run| && IsEvent(run[j], e) && forall m :: j < m < |run| ==> !IsEvent(run[m], SasPeerRejected(peer));
    assert IsEvent(before[j], e);
    forall m | j < m < |before| ensures !IsEvent(before[m], SasPeerRejected(peer)) { assert run[m] == before[m]; }
  }

  lemma StandsAfter(before: seq<Input>, i: Input, k: nat, e: Event, peer: Id)
    requires Stands(before, k, e, peer)
    ensures Stands(before + [i], k, e, peer) || IsEvent(i, SasPeerRejected(peer))
  {
    var run := before + [i];
    var j :| k < j < |before| && IsEvent(before[j], e) &&
      forall m :: j < m < |before| ==> !IsEvent(before[m], SasPeerRejected(peer));
    assert IsEvent(run[j], e);
  }

  lemma KeepsStart(before: seq<Input>, i: Input, k: nat, peer: Id)
    requires IsLatestStart(before, k, peer)
    requires i.Handle? ==> !i.event.SasPairingStarted?
    ensures IsLatestStart(before + [i], k, peer)
  {
  }

  lemma StartIsBefore(run: seq<Input>, k: nat, peer: Id)
    requires IsLatestStart(run, k, peer)
    ensures k < |run|
  {
  }

  /** A pairing that has just started has no confirmation yet. */
  lemma StartDescribes(before: seq<Input>, i: Input)
    requires i.Handle? && i.event.SasPairingStarted?
    ensures DescribesFrom(Showing, i.event.peerId, before + [i], |before|)
  {
  }

  lemma DescribesStep(p: Pairing, linked: bool, before: seq<Input>, i: Input)
    requires Describes(p, before)
    ensures Describes(if i.Handle? then SasAfter(p, linked, i.event) else p, before + [i])
  {
    hide Stands, IsLatestStart;
    var q := if i.Handle? then SasAfter(p, linked, i.event) else p;
    var run := before + [i];
    if i.Handle? && i.event.SasPairingStarted? {
      StartDescribes(before, i);
      assert DescribesFrom(q.phase, q.peer.value, run, |before|);
    } else if q.peer.Some? {
      var peer := p.peer.value;
      var k :| DescribesFrom(p.phase, peer, before, k);
      KeepsStart(before, i, k, peer);
      StartIsBefore(before, k, peer);
      StandsStep(before, i, k, SasLocalConfirmed(peer), peer);
      StandsStep(before, i, k, SasPeerConfirmed(peer), peer);
      assert DescribesFrom(q.phase, peer, run, k);
    }
  }

  lemma NextSas(digest: Digest, s: AppState, i: Input)
    ensures Next(digest, s, i).0.st.sas == if i.Handle? then SasAfter(s.st.sas, s.phase.Linked?, i.event) else s.st.sas
  {
    if i.Handle? { StepSas(digest, s, i.event, i.wall); }
  }

  /** In every run the SAS fields are exact; in particular "confirmed" means both sides confirmed this very pairing. */
  lemma {:induction false} SasExact(b: Boot, run: seq<Input>)
    ensures Describes(After(b, run).st.sas, run)
  {
    if run != [] {
      var before, i := run[..|run| - 1], run[|run| - 1];
      SasExact(b, before);
      NextSas(b.digest, After(b, before), i);
      DescribesStep(After(b, before).st.sas, After(b, before).phase.Linked?, before, i);
      assert run == before + [i];
    }
  }

  /** "Confirmed" only after a local and a peer confirm of the named peer since the latest pairing started. */
  lemma ConfirmedMeansBoth(b: Boot, run: seq<Input>) returns (k: nat, local: nat, remote: nat)
    requires After(b, run).st.sas.phase.Confirmed?
    ensures After(b, run).st.sas.peer.Some?
    ensures var peer := After(b, run).st.sas.peer.value;
            && IsLatestStart(run, k, peer)
            && k < local < |run| && IsEvent(run[local], SasLocalConfirmed(peer))
            && k < remote < |run| && IsEvent(run[remote], SasPeerConfirmed(peer))
  {
    SasExact(b, run);
    var sas := After(b, run).st.sas;
    var peer := sas.peer.value;
    k :| DescribesFrom(sas.phase, peer, run, k);
    assert Stands(run, k, SasLocalConfirmed(peer), peer) && Stands(run, k, SasPeerConfirmed(peer), peer);
    local :| k < local < |run| && IsEvent(run[local], SasLocalConfirmed(peer));
    remote :| k < remote < |run| && IsEvent(run[remote], SasPeerConfirmed(peer));
  }
}
