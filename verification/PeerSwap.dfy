/** Peer-swap isolation: unless a swap crosses, nothing recorded under one paired peer reaches the next. */
module PeerSwap {
  import opened Basics
  import opened Events
  import opened History
  import opened AppSpec
  import opened Frames
  import opened HistoryRuns
  import opened Parking
  import opened Runs
  import Clipboard

  /** The two ways in which the code keeps history across a change of the paired peer: a swap while other peers are
      linked, and a failover to another peer. */
  predicate Crosses(s: AppState, x: Input) {
    && x.Handle?
    && match x.event
       case PeerSeen(peerId, _) => !IsPeerMismatch(s, peerId) && IsSwap(s, peerId) && s.otherLinkedPeers != {}
       case PrimaryFailover(peerId, _, _, _) => IsSwap(s, peerId)
       case _ => false
  }

  ghost predicate NeverCrosses(b: Boot, run: seq<Input>) {
    forall i :: 0 <= i < |run| ==> !Crosses(After(b, run[..i]), run[i])
  }

  /** The paired peer changes from one to another. */
  predicate IsReplaced(s: AppState, t: AppState) {
    s.lastPairedPeerId != ZERO_ID && t.lastPairedPeerId != s.lastPairedPeerId
  }

  /** What one input may do to the paired peer: name the first one, or replace one, which wipes unless it crosses. */
  lemma PairingStep(digest: Digest, s: AppState, x: Input)
    ensures var t := Next(digest, s, x).0;
            if Crosses(s, x) then IsReplaced(s, t) && t.st.history == s.st.history
            else IsReplaced(s, t) ==> t.st.history == [] && t.st.pending == [] && t.pendingPayloads == map[]
  {
    hide Step;
    if x.Handle? { PairingEvent(digest, s, x.event, x.wall); }
  }

  lemma PairingEvent(digest: Digest, s: AppState, e: Event, w: Wall)
    ensures var t := Step(digest, s, e, w).0;
            if Crosses(s, Handle(e, w)) then IsReplaced(s, t) && t.st.history == s.st.history
            else IsReplaced(s, t) ==> t.st.history == [] && t.st.pending == [] && t.pendingPayloads == map[]
  {
    hide Prepared, Concluded, Dropped, IsDuplicate, IsPeerMismatch, Described;
    if !e.ResolvePending? && !(e.PeerSeen? && IsPeerMismatch(s, e.peerId)) {
      PairingPrepared(digest, s, e, w);
      ConcludedFrame(Prepared(digest, s, e, w), e, Dropped(s, e));
    }
  }

  lemma PairingPrepared(digest: Digest, s: AppState, e: Event, w: Wall)
    requires !e.ResolvePending? && !(e.PeerSeen? && IsPeerMismatch(s, e.peerId))
    ensures var t := Prepared(digest, s, e, w);
            && (if Crosses(s, Handle(e, w)) then IsReplaced(s, t) && t.st.history == s.st.history
                else IsReplaced(s, t) ==>
                  t.st.history == [] && t.st.pending == [] && t.pendingPayloads == map[] && e.PeerSeen?)
  {
    hide Copied, Described, WithoutKeys, Repinned, Favorites;
    if IsClipboard(e) { CopiedFrame(digest, s, e, w); }
    if e.PrimaryFailover? { DescribedKeepsPending(s, e); }
  }

  /** History outlives a change of the paired peer exactly when the input crosses. */
  lemma CrossesExact(digest: Digest, s: AppState, x: Input)
    requires s.st.history != []
    ensures var t := Next(digest, s, x).0; IsReplaced(s, t) && t.st.history != [] <==> Crosses(s, x)
  {
    hide Next, Crosses;
    PairingStep(digest, s, x);
  }

  /** The input made this row, up to the pin. */
  predicate MakesRow(digest: Digest, s: AppState, x: Input, row: HistoryItem) {
    && x.Handle? && Records(digest, s, x.event, x.wall)
    && IsClipboard(x.event) && SameButPin(RowOf(x.event, x.wall), row)
  }

  /** Every row after an input was there before, up to its pin, or is made by the input. */
  lemma RowStep(digest: Digest, s: AppState, x: Input, row: HistoryItem)
    requires row in Next(digest, s, x).0.st.history
    ensures MakesRow(digest, s, x, row) || exists was <- s.st.history :: SameButPin(was, row)
  {
    hide Next, Pushed, Repinned, Unexpired, Favorites, IsDuplicate, RowOf, WipesOnSwap;
    HistoryExact(digest, s, x);
    var h := s.st.history;
    FavoritesExact(h);
    match x
    case Handle(e, w) =>
      if Records(digest, s, e, w) { PushedRows(h, RowOf(e, w)); }
      else if e.SetFavorite? { RepinnedRows(h, e.key, e.favorite, row); }
    case SetRetention(secs, now) => UnexpiredExact(h, now, secs);
    case Expire(now) => UnexpiredExact(h, now, s.st.historyRetentionSecs);
    case _ =>
  }

  lemma RepinnedRows(h: seq<HistoryItem>, key: string, favorite: bool, row: HistoryItem)
    requires row in Repinned(h, key, favorite)
    ensures exists was <- h :: SameButPin(was, row)
  {
    var i :| 0 <= i < |h| && Repinned(h, key, favorite)[i] == row;
    assert h[i] in h && SameButPin(h[i], row);
  }

  /** A swap with other peers linked forgets only what waits on the replaced peer; otherwise it forgets everything. */
  lemma SwapIsScoped(digest: Digest, s: AppState, e: Event, w: Wall)
    requires e.PeerSeen? && !IsPeerMismatch(s, e.peerId) && IsSwap(s, e.peerId)
    ensures var t := Step(digest, s, e, w).0;
            && t.st.history == (if s.otherLinkedPeers == {} then [] else s.st.history)
            && t.st.vaultWipeGen == s.st.vaultWipeGen + (if s.otherLinkedPeers == {} then 1 else 0)
            && forall k :: k in t.pendingPayloads <==>
                 k in s.pendingPayloads && s.otherLinkedPeers != {} && s.pendingPayloads[k].peerId != Some(s.lastPairedPeerId)
  {
    hide Concluded, Dropped, WithoutKeys, IsPeerMismatch;
    ConcludedFrame(Prepared(digest, s, e, w), e, Dropped(s, e));
  }

  // ── Runs ────────────────────────────────────────────────────────────

  /** When the `i`-th input came, no peer was paired yet, or the same one as at the end of the run. */
  predicate SamePairing(b: Boot, run: seq<Input>, i: nat)
    requires i <= |run|
  {
    var paired := After(b, run[..i]).lastPairedPeerId;
    paired == ZERO_ID || paired == After(b, run).lastPairedPeerId
  }

  /** The row was in the saved history. */
  predicate WasSaved(b: Boot, row: HistoryItem) { exists was <- b.saved :: SameButPin(was, row) }

  /** The `i`-th input made the row, under the pairing that still stands. */
  predicate MadeAt(b: Boot, run: seq<Input>, i: nat, row: HistoryItem) {
    i < |run| && MakesRow(b.digest, After(b, run[..i]), run[i], row) && SamePairing(b, run, i)
  }

  /** A run that never crosses is one input after a shorter one. */
  lemma NeverCrossesLast(b: Boot, run: seq<Input>)
    requires NeverCrosses(b, run) && run != []
    ensures NeverCrosses(b, run[..|run| - 1]) && !Crosses(After(b, run[..|run| - 1]), run[|run| - 1])
  {
    hide Crosses, After;
    var before := run[..|run| - 1];
    forall i | 0 <= i < |before| ensures !Crosses(After(b, before[..i]), before[i]) {
      assert before[..i] == run[..i] && before[i] == run[i];
    }
  }

  lemma RestoredRows(b: Boot)
    ensures forall row <- After(b, []).st.history :: row in b.saved
  {
    CappedIsSubsequence(b.saved, 0);
    SubsequenceSubset(Capped(b.saved, 0), b.saved);
  }

  /** One more input keeps the pairing of every earlier one, as long as something recorded is left. */
  lemma SamePairingStep(b: Boot, run: seq<Input>, i: nat)
    requires NeverCrosses(b, run) && i < |run| && SamePairing(b, run[..|run| - 1], i)
    requires After(b, run).st.history != [] || After(b, run).pendingPayloads != map[]
    ensures SamePairing(b, run, i)
  {
    hide Next, Crosses;
    var before := run[..|run| - 1];
    assert before[..i] == run[..i];
    NeverCrossesLast(b, run);
    PairingStep(b.digest, After(b, before), run[|run| - 1]);
  }

  /** The newest input runs under the pairing that stands after it, unless it wipes everything. */
  lemma SamePairingNow(b: Boot, run: seq<Input>)
    requires NeverCrosses(b, run) && run != []
    requires After(b, run).st.history != [] || After(b, run).pendingPayloads != map[]
    ensures SamePairing(b, run, |run| - 1)
  {
    hide Next, Crosses;
    var before := run[..|run| - 1];
    NeverCrossesLast(b, run);
    PairingStep(b.digest, After(b, before), run[|run| - 1]);
  }

  lemma MadeAtStep(b: Boot, run: seq<Input>, i: nat, was: HistoryItem, row: HistoryItem)
    requires NeverCrosses(b, run) && run != [] && MadeAt(b, run[..|run| - 1], i, was) && SameButPin(was, row)
    requires row in After(b, run).st.history
    ensures MadeAt(b, run, i, row)
  {
    hide Next, Records, RowOf;
    var before := run[..|run| - 1];
    assert before[..i] == run[..i] && before[i] == run[i];
    SamePairingStep(b, run, i);
  }

  /** Every history row was restored at boot, or was made while no peer or the present one was paired: across any mix
      of unpair, revoke, timeout and re-pair, no row recorded under one peer outlives the pairing with another. */
  lemma {:induction false} HistoryIsIsolated(b: Boot, run: seq<Input>, row: HistoryItem)
    requires NeverCrosses(b, run) && row in After(b, run).st.history
    ensures WasSaved(b, row) || exists i: nat :: MadeAt(b, run, i, row)
  {
    hide Next, Records, RowOf, MadeAt, MakesRow, SamePairing, WasSaved, NeverCrosses;
    if run == [] {
      RestoredRows(b);
      SavedRow(b, row, row);
    } else {
      var before, x := run[..|run| - 1], run[|run| - 1];
      RowStep(b.digest, After(b, before), x, row);
      if MakesRow(b.digest, After(b, before), x, row) {
        SamePairingNow(b, run);
        MadeNow(b, run, row);
      } else {
        var was :| was in After(b, before).st.history && SameButPin(was, row);
        NeverCrossesLast(b, run);
        HistoryIsIsolated(b, before, was);
        if WasSaved(b, was) {
          SavedStays(b, was, row);
        } else {
          var i: nat :| MadeAt(b, before, i, was);
          MadeAtStep(b, run, i, was, row);
        }
      }
    }
  }

  lemma SavedRow(b: Boot, was: HistoryItem, row: HistoryItem)
    requires was in b.saved && SameButPin(was, row)
    ensures WasSaved(b, row)
  {
  }

  lemma SavedStays(b: Boot, was: HistoryItem, row: HistoryItem)
    requires WasSaved(b, was) && SameButPin(was, row)
    ensures WasSaved(b, row)
  {
    var first :| first in b.saved && SameButPin(first, was);
    assert SameButPin(first, row);
  }

  lemma MadeNow(b: Boot, run: seq<Input>, row: HistoryItem)
    requires run != [] && MakesRow(b.digest, After(b, run[..|run| - 1]), run[|run| - 1], row)
    requires SamePairing(b, run, |run| - 1)
    ensures MadeAt(b, run, |run| - 1, row)
  {
  }

  /** Every held item was parked while no peer or the present one was paired. */
  lemma {:induction false} PendingIsIsolated(b: Boot, run: seq<Input>, key: string)
    requires NeverCrosses(b, run) && key in After(b, run).pendingPayloads
    ensures exists i: nat :: ParkedUnder(b, run, i, key, After(b, run).pendingPayloads[key])
  {
    hide Next, ParkedUnder, SamePairing, ParksAs, Resolves, NeverCrosses;
    if run == [] {
      RestoredHoldsNothing(b);
    } else {
      var before, x, p := run[..|run| - 1], run[|run| - 1], After(b, run).pendingPayloads[key];
      HeldNext(b.digest, After(b, before), x, key);
      if ParksAs(b.digest, After(b, before), x, key, p) {
        SamePairingNow(b, run);
        ParkedUnderNow(b, run, key, p);
      } else {
        NeverCrossesLast(b, run);
        PendingIsIsolated(b, before, key);
        var i: nat :| ParkedUnder(b, before, i, key, p);
        ParkedUnderStep(b, run, i, key, p);
      }
    }
  }

  /** Parked by the `i`-th input and not resolved since, under the pairing that still stands. */
  ghost predicate ParkedUnder(b: Boot, run: seq<Input>, i: nat, key: string, p: PendingPayload) {
    HeldUntil(b, run, |run|, i, key, p) && SamePairing(b, run, i)
  }

  lemma ParkedUnderNow(b: Boot, run: seq<Input>, key: string, p: PendingPayload)
    requires run != [] && ParksAs(b.digest, After(b, run[..|run| - 1]), run[|run| - 1], key, p)
    requires SamePairing(b, run, |run| - 1)
    ensures ParkedUnder(b, run, |run| - 1, key, p)
  {
    hide Next, ParksAs;
    ParkedNow(b, run, key, p);
  }

  lemma ParkedUnderStep(b: Boot, run: seq<Input>, i: nat, key: string, p: PendingPayload)
    requires NeverCrosses(b, run) && run != [] && ParkedUnder(b, run[..|run| - 1], i, key, p)
    requires !Resolves(run[|run| - 1], key) && key in After(b, run).pendingPayloads
    ensures ParkedUnder(b, run, i, key, p)
  {
    hide Next, Crosses, NeverCrosses, SamePairing, HeldUntil;
    HeldByPrefix(b, run, |run| - 1, i, key, p);
    HeldOneMore(b, run, i, key, p);
    SamePairingStep(b, run, i);
  }

  lemma HeldOneMore(b: Boot, run: seq<Input>, i: nat, key: string, p: PendingPayload)
    requires run != [] && HeldUntil(b, run, |run| - 1, i, key, p) && !Resolves(run[|run| - 1], key)
    ensures HeldUntil(b, run, |run|, i, key, p) && i < |run| - 1
  {
    hide ParkedAt, Resolves;
  }
}
