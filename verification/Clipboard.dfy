/** Exactly what a copied or received item does: acknowledged, applied or sent, recorded, parked. */
module Clipboard {
  import opened Basics
  import opened Events
  import opened AppSpec
  import opened Actions
  import opened Frames
  import opened Fsm
  import opened Runs
  import Dedup
  import Hex
  import History
  import Text

  /** The item is let through to where it was going. */
  predicate IsApplied(digest: Digest, s: AppState, e: Event, w: Wall)
    requires IsClipboard(e)
  {
    && !IsDuplicate(digest, s, e, w) && s.phase.Linked? && Verdict(s, e).Pass?
    && !(e.FrameReceivedClipboard? && e.resync)
  }

  /** How often the transition table lists each sync and each acknowledgement for a clipboard event. */
  lemma TableClipboard(phase: Phase, e: Event, a: Action)
    requires IsClipboard(e) && (IsSync(a) || a.AckItem?)
    ensures Count(Transition(phase, e).1, a) ==
            if a.AckItem? then (if e.FrameReceivedClipboard? && a.hash == e.hash then 1 else 0)
            else if phase.Linked? && a == SyncAction(PayloadOf(e)) then 1 else 0
  {
    hide Count;
    CountNothing(a);
    if e.LocalClipboardChange? {
      CountOne(SyncAction(PayloadOf(e)), a);
    } else {
      var ack := [AckItem(e.hash)];
      CountOne(AckItem(e.hash), a);
      CountOne(SyncAction(PayloadOf(e)), a);
      CountOther([EmitState, EmitLog(Ok)], a);
      CountOther([EmitLog(Warn)], a);
      AppendCount(ack, [EmitState, EmitLog(Ok)], a);
      AppendCount([SyncAction(PayloadOf(e))], ack + [EmitState, EmitLog(Ok)], a);
      AppendCount(ack, [EmitLog(Warn)], a);
      assert Transition(phase, e).1 ==
             if phase.Linked? then [SyncAction(PayloadOf(e))] + (ack + [EmitState, EmitLog(Ok)]) else ack + [EmitLog(Warn)];
    }
  }

  lemma CountNothing(a: Action)
    ensures Count([], a) == 0
  {
  }

  lemma CountOne(x: Action, a: Action)
    ensures Count([x], a) == if x == a then 1 else 0
  {
  }

  lemma CountOther(actions: seq<Action>, a: Action)
    requires a !in actions
    ensures Count(actions, a) == 0
  {
  }

  lemma CopiedKeepsVerdict(digest: Digest, s: AppState, e: Event, w: Wall)
    requires IsClipboard(e)
    ensures var t := Prepared(digest, s, e, w);
            t == Copied(digest, s, e, w) && t.phase == s.phase && Verdict(t, e) == Verdict(s, e)
  {
    hide Copied;
    CopiedFrame(digest, s, e, w);
  }

  /** In every phase and under every policy, an item is applied or sent iff it is fresh, linked, admitted and no
      catch-up delivery, once and as it came; a received one is acknowledged exactly once, with its own hash. */
  lemma SyncExact(digest: Digest, s: AppState, e: Event, w: Wall, a: Action)
    requires IsClipboard(e) && (IsSync(a) || a.AckItem?)
    ensures Count(Step(digest, s, e, w).1, a) ==
            if a.AckItem? then (if e.FrameReceivedClipboard? && a.hash == e.hash then 1 else 0)
            else if IsApplied(digest, s, e, w) && a == SyncAction(PayloadOf(e)) then 1 else 0
  {
    hide Prepared, Concluded, IsDuplicate, Dropped, Copied;
    CopiedKeepsVerdict(digest, s, e, w);
    var s1, dropped := Prepared(digest, s, e, w), Dropped(s, e);
    if !IsDuplicate(digest, s, e, w) {
      ConcludedExact(s1, e, dropped, a);
      TableClipboard(s.phase, e, a);
    }
  }

  /** A received item becomes a history row iff it is fresh, admitted and no secret; a local copy iff fresh and no
      secret. It is parked iff it is fresh and held, and its key is not parked already. Nothing else changes there. */
  lemma RecordedExact(digest: Digest, s: AppState, e: Event, w: Wall)
    requires IsClipboard(e)
    ensures var t := Step(digest, s, e, w).0;
            var isNew := !IsDuplicate(digest, s, e, w);
            && t.phase == s.phase && t.lastPairedPeerId == s.lastPairedPeerId
            && t.st.history == (if isNew && IsRecorded(s, e) then History.Pushed(s.st.history, RowOf(e, w)) else s.st.history)
            && (if isNew && Verdict(s, e).Defer? && Hex.Hex32(e.hash) !in s.pendingPayloads
                then t.pendingPayloads == s.pendingPayloads[Hex.Hex32(e.hash) := PayloadOf(e)]
                     && t.st.pending == s.st.pending + [Shown(Hex.Hex32(e.hash), PayloadOf(e), Text.Trim(e.preview))]
                else t.pendingPayloads == s.pendingPayloads && t.st.pending == s.st.pending)
  {
    CopiedKeepsVerdict(digest, s, e, w);
    CopiedHistory(digest, s, e, w);
    ConcludedParks(Copied(digest, s, e, w), e, Dropped(s, e));
  }

  lemma CopiedHistory(digest: Digest, s: AppState, e: Event, w: Wall)
    requires IsClipboard(e)
    ensures var t := Copied(digest, s, e, w);
            && t.st.history == (if !IsDuplicate(digest, s, e, w) && IsRecorded(s, e)
                                then History.Pushed(s.st.history, RowOf(e, w)) else s.st.history)
            && t == s.(clock := t.clock, ring := t.ring, st := s.st.(history := t.st.history))
  {
    hide IsDuplicate, RowOf, History.Pushed;
  }

  lemma ConcludedParks(s: AppState, e: Event, dropped: set<Id>)
    requires IsClipboard(e)
    ensures var t := Concluded(s, e, dropped).0;
            && t.phase == s.phase && t.st.history == s.st.history && t.lastPairedPeerId == s.lastPairedPeerId
            && (if Verdict(s, e).Defer? && Hex.Hex32(e.hash) !in s.pendingPayloads
                then t.pendingPayloads == s.pendingPayloads[Hex.Hex32(e.hash) := PayloadOf(e)]
                     && t.st.pending == s.st.pending + [Shown(Hex.Hex32(e.hash), PayloadOf(e), Text.Trim(e.preview))]
                else t.pendingPayloads == s.pendingPayloads && t.st.pending == s.st.pending)
  {
    hide Transition, Filtered, WithoutResyncWrite, WithOwnBattery, WithEmit, AlwaysEmits, Shown, Hex.Hex32, Verdict, Text.Trim;
    ClipboardKeepsPhase(s.phase, e);
    ConcludedFrame(s, e, dropped);
  }

  lemma ClipboardKeepsPhase(phase: Phase, e: Event)
    ensures IsClipboard(e) ==> Transition(phase, e).0 == phase
  {
  }

  // ── The dedup ring of a run ─────────────────────────────────────────

  /** What one input shows the dedup ring. A catch-up delivery of held content shows it nothing. */
  function Exposed(digest: Digest, s: AppState, i: Input): seq<Dedup.Observation> {
    if i.Handle? && IsClipboard(i.event)
       && !(i.event.FrameReceivedClipboard? && i.event.resync && Dedup.Contains(s.ring, KeyOf(digest, i.event)))
    then [Dedup.Copy(KeyOf(digest, i.event), i.wall.millis)] else []
  }

  function Seeds(rows: seq<History.HistoryItem>): seq<Dedup.Observation> {
    if rows == [] then []
    else
      Seeds(rows[1..]) +
      match Hex.Hex32Decode(rows[0].hash)
      case None => []
      case Some(hash) => [Dedup.Seed(hash)]
  }

  /** Everything the ring was shown: the newest saved rows at boot, oldest first, then every copy. */
  function AllShown(b: Boot, run: seq<Input>): seq<Dedup.Observation> {
    if run == [] then
      var kept := History.Capped(b.saved, 0);
      Seeds(FirstN(kept, 50))
    else
      var before := run[..|run| - 1];
      AllShown(b, before) + Exposed(b.digest, After(b, before), run[|run| - 1])
  }

  lemma AfterOneMore(capacity: nat, run: seq<Dedup.Observation>, o: Dedup.Observation)
    ensures Dedup.AfterRun(capacity, run + [o]) == Dedup.Step(Dedup.AfterRun(capacity, run), o)
  {
    assert (run + [o])[..|run|] == run;
  }

  lemma {:induction false} SeededIsRun(rows: seq<History.HistoryItem>, capacity: nat)
    ensures Seeded(Dedup.Ring(capacity, []), rows) == Dedup.AfterRun(capacity, Seeds(rows))
  {
    if rows != [] {
      SeededIsRun(rows[1..], capacity);
      match Hex.Hex32Decode(rows[0].hash)
      case None => assert Seeds(rows) == Seeds(rows[1..]);
      case Some(hash) => AfterOneMore(capacity, Seeds(rows[1..]), Dedup.Seed(hash));
    }
  }

  /** Only a copy moves the ring, and exactly as one observation. */
  lemma NextRing(digest: Digest, s: AppState, i: Input)
    ensures var shown := Exposed(digest, s, i);
            Next(digest, s, i).0.ring == if shown == [] then s.ring else Dedup.Step(s.ring, shown[0])
  {
    if i.Handle? { StepRing(digest, s, i.event, i.wall); }
  }

  lemma StepRing(digest: Digest, s: AppState, e: Event, w: Wall)
    ensures Step(digest, s, e, w).0.ring ==
            if IsClipboard(e) && !IsDuplicate(digest, s, e, w)
            then Dedup.ClipboardObserved(s.ring, KeyOf(digest, e), w.millis) else s.ring
  {
    hide Prepared, Concluded, IsDuplicate, KeyOf, Dedup.ClipboardObserved, Dropped;
    PreparedRing(digest, s, e, w);
    ConcludedFrame(Prepared(digest, s, e, w), e, Dropped(s, e));
  }

  lemma PreparedRing(digest: Digest, s: AppState, e: Event, w: Wall)
    ensures Prepared(digest, s, e, w).ring ==
            if IsClipboard(e) && !IsDuplicate(digest, s, e, w)
            then Dedup.ClipboardObserved(s.ring, KeyOf(digest, e), w.millis) else s.ring
    ensures Prepared(digest, s, e, w).clock == if IsClipboard(e) then ClockObserve(s.clock, e.lamport) else s.clock
  {
    hide IsDuplicate, KeyOf, Dedup.ClipboardObserved, RowOf, History.Pushed, ClockObserve, WithoutKeys, Described, PeerSighted;
    if e.PeerSeen? { PeerSightedFrame(s, e.peerId, e.name); }
  }

  /** The ring of every run is the ring that was shown those items, so it holds the 50 latest distinct fresh hashes. */
  lemma {:induction false} RingOfRun(b: Boot, run: seq<Input>)
    ensures After(b, run).ring == Dedup.AfterRun(50, AllShown(b, run))
    ensures After(b, run).ring.entries == LastN(Dedup.LatestDistinct(Dedup.FreshLog(50, AllShown(b, run))), 50)
  {
    if run == [] {
      var kept := History.Capped(b.saved, 0);
      SeededIsRun(FirstN(kept, 50), 50);
    } else {
      var before, i := run[..|run| - 1], run[|run| - 1];
      var s := After(b, before);
      var shown := Exposed(b.digest, s, i);
      RingOfRun(b, before);
      NextRing(b.digest, s, i);
      if shown == [] {
        assert AllShown(b, before) + [] == AllShown(b, before);
      } else {
        AfterOneMore(50, AllShown(b, before), shown[0]);
      }
    }
    Dedup.RingIsLatestDistinct(50, AllShown(b, run));
  }

  // ── The logical clock ───────────────────────────────────────────────

  lemma StepClock(digest: Digest, s: AppState, e: Event, w: Wall)
    ensures Step(digest, s, e, w).0.clock == if IsClipboard(e) then ClockObserve(s.clock, e.lamport) else s.clock
  {
    hide Prepared, Concluded, IsDuplicate, Dropped, ClockObserve;
    PreparedRing(digest, s, e, w);
    ConcludedFrame(Prepared(digest, s, e, w), e, Dropped(s, e));
  }

  /** Every copied or received item moves the clock to the next value above its own and the sender's, of which no more
      than 2^40 is believed. */
  lemma ClockMovesOn(digest: Digest, s: AppState, e: Event, w: Wall)
    requires IsClipboard(e) && s.clock < U64_MAX
    ensures var clock := Step(digest, s, e, w).0.clock;
            && clock > s.clock && clock > Min(e.lamport, 0x100_0000_0000)
            && (clock == s.clock + 1 || clock == Min(e.lamport, 0x100_0000_0000) + 1)
  {
    StepClock(digest, s, e, w);
  }

  /** However large the values that peers send, the clock never runs ahead of the bound by more than one for each input. */
  lemma {:induction false} ClockIsBounded(b: Boot, run: seq<Input>)
    ensures After(b, run).clock <= 0x100_0000_0000 + |run|
  {
    hide Step;
    if run != [] {
      var before, i := run[..|run| - 1], run[|run| - 1];
      ClockIsBounded(b, before);
      if i.Handle? { StepClock(b.digest, After(b, before), i.event, i.wall); }
    }
  }
}
