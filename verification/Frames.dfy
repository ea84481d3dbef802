/** What each stage of one event leaves alone. */
module Frames {
  import opened Basics
  import opened Events
  import opened AppSpec
  import Fsm
  import History

  /** A clipboard event touches only the clock, the dedup ring and the history before the phase moves. */
  lemma CopiedFrame(digest: Digest, s: AppState, e: Event, w: Wall)
    requires IsClipboard(e)
    ensures var t := Copied(digest, s, e, w);
            t == s.(clock := t.clock, ring := t.ring, st := s.st.(history := t.st.history))
  {
  }

  lemma SwapFrame(s: AppState, peer: Id)
    ensures var t := SwapApplied(s, peer);
            t == s.(pendingPayloads := t.pendingPayloads,
                    st := s.st.(history := t.st.history, pending := t.st.pending, vaultWipeGen := t.st.vaultWipeGen))
  {
  }

  /** Sighting a peer touches only who the peer is, the history and the parked items. */
  lemma PeerSightedFrame(s: AppState, peer: Id, name: string)
    ensures var t := PeerSighted(s, peer, name);
            t == s.(lastPairedPeerId := t.lastPairedPeerId, pendingPayloads := t.pendingPayloads,
                    st := s.st.(peer := s.st.peer.(name := name, id := t.st.peer.id), history := t.st.history,
                                pending := t.st.pending, vaultWipeGen := t.st.vaultWipeGen))
  {
    SwapFrame(s.(st := s.st.(peer := s.st.peer.(name := name))), peer);
  }

  lemma DescribedSame(s: AppState, e: Event)
    requires IsClipboard(e) || e.PeerSeen?
    ensures Described(s, e) == s.st
  {
  }

  /** Before the phase moves, only the descriptive fields, the queues, the pairing, the clock and the ring change. */
  lemma PreparedFrame(digest: Digest, s: AppState, e: Event, w: Wall)
    ensures var t := Prepared(digest, s, e, w);
            t == s.(clock := t.clock, ring := t.ring, lastPairedPeerId := t.lastPairedPeerId,
                    pendingPayloads := t.pendingPayloads,
                    st := Described(s, e).(peer := t.st.peer, history := t.st.history, pending := t.st.pending,
                                           vaultWipeGen := t.st.vaultWipeGen))
  {
    hide Described, Copied, PeerSighted, WithoutKeys, History.Repinned, History.Favorites;
    if IsClipboard(e) {
      DescribedSame(s, e);
      CopiedFrame(digest, s, e, w);
    }
    if e.PeerSeen? {
      DescribedSame(s, e);
      PeerSightedFrame(s, e.peerId, e.name);
    }
  }

  /** After preparation only the phase, the derived fields and the parked items change. */
  lemma ConcludedFrame(s: AppState, e: Event, dropped: set<Id>)
    ensures var t := Concluded(s, e, dropped).0;
            var next := Fsm.Transition(s.phase, e).0;
            t == s.(phase := next, pendingPayloads := t.pendingPayloads,
                    st := s.st.(phase := Fsm.PhaseName(next), status := StatusFor(s.st), pending := t.st.pending))
    ensures var t := Concluded(s, e, dropped).0;
            !IsClipboard(e) ==> t.pendingPayloads == s.pendingPayloads && t.st.pending == s.st.pending
  {
  }
}
