/** What becomes of a copied or received item in any run, told by the item, the settings and what was seen before. */
module ItemLaws {
  import opened Basics
  import opened Events
  import opened AppSpec
  import opened Actions
  import opened Runs
  import opened Sessions
  import Classify
  import Clipboard
  import Dedup
  import Frames
  import Fsm
  import Hex
  import History
  import Notices
  import Policy
  import Text
  import Utf8

  /** A local copy goes by the daemon's own hash of it. A received item never goes by the hash that the sender claims: text
      goes by its canonical form, anything else by its bytes. */
  ghost predicate IsKey(digest: Digest, e: Event, key: Id)
    requires IsClipboard(e)
  {
    if e.LocalClipboardChange? then key == e.hash
    else if e.kind.Image? || e.kind.File? || Utf8.Decode(e.payload.raw).None? then key == digest(e.payload.raw)
    else key == digest(Utf8.Encode(Classify.CanonText(Utf8.Decode(e.payload.raw).value)))
  }

  /** Every fresh sighting before this one, saved rows included. */
  function Sighted(b: Boot, run: seq<Input>): seq<Dedup.Entry> { Dedup.FreshLog(50, Clipboard.AllShown(b, run)) }

  predicate IsCatchUp(e: Event) { e.FrameReceivedClipboard? && e.resync }

  /** The key is that of the last fresh item, or one of the last 50 distinct ones had it less than five seconds ago. For a
      catch-up delivery any of these will do. */
  ghost predicate Repeats(log: seq<Dedup.Entry>, key: Id, catchUp: bool, now: nat) {
    || (log != [] && log[|log| - 1].hash == key)
    || exists e <- LastN(Dedup.LatestDistinct(log), 50) ::
         e.hash == key && (catchUp || (e.seenAt.Some? && now < e.seenAt.value + 5000))
  }

  ghost predicate IsRepeat(b: Boot, run: seq<Input>, e: Event, w: Wall)
    requires IsClipboard(e)
  {
    forall key :: IsKey(b.digest, e, key) ==> Repeats(Sighted(b, run), key, IsCatchUp(e), w.millis)
  }

  lemma KeyExact(digest: Digest, e: Event, key: Id)
    requires IsClipboard(e)
    ensures IsKey(digest, e, key) <==> key == KeyOf(digest, e)
  {
  }

  lemma RepeatsExact(b: Boot, run: seq<Input>, key: Id, catchUp: bool, now: nat)
    ensures var ring := After(b, run).ring;
            Repeats(Sighted(b, run), key, catchUp, now) <==>
            Dedup.IsEcho(ring, key, now) || (catchUp && Dedup.Contains(ring, key))
  {
    hide After, Dedup.FreshLog, Dedup.LatestDistinct, Dedup.AfterRun, Clipboard.AllShown, Dedup.IsEcho;
    var shown, log := Clipboard.AllShown(b, run), Sighted(b, run);
    Clipboard.RingOfRun(b, run);
    Dedup.EchoExact(50, shown, key, now);
    if log != [] {
      Dedup.LatestDistinctNewest(log);
      var latest := Dedup.LatestDistinct(log);
      assert LastN(latest, 50)[|LastN(latest, 50)| - 1] == latest[|latest| - 1];
    }
  }

  lemma RepeatExact(b: Boot, run: seq<Input>, e: Event, w: Wall)
    requires IsClipboard(e)
    ensures IsRepeat(b, run, e, w) <==> IsDuplicate(b.digest, After(b, run), e, w)
  {
    hide IsKey, Repeats, After, KeyOf, Dedup.IsEcho, Dedup.Contains;
    var key := KeyOf(b.digest, e);
    forall k ensures IsKey(b.digest, e, k) <==> k == key { KeyExact(b.digest, e, k); }
    RepeatsExact(b, run, key, IsCatchUp(e), w.millis);
  }

  // ── A repeat ────────────────────────────────────────────────────────

  /** A repeat changes nothing but the clock, and is only acknowledged. */
  lemma RepeatIsDropped(b: Boot, run: seq<Input>, e: Event, w: Wall)
    requires IsClipboard(e) && IsRepeat(b, run, e, w)
    ensures var (t, actions) := Step(b.digest, After(b, run), e, w);
            && t == After(b, run).(clock := t.clock)
            && actions == [DuplicateDropped] + if e.FrameReceivedClipboard? then [AckItem(e.hash)] else []
  {
    hide IsRepeat, IsDuplicate, After, Concluded;
    RepeatExact(b, run, e, w);
  }

  // ── Anything else ───────────────────────────────────────────────────

  lemma VerdictExact(s: AppState, e: Event)
    requires IsClipboard(e)
    ensures Verdict(s, e).Pass? <==> Policy.Admits(s.firewall, e.kind, e.sensitive)
    ensures Verdict(s, e).Block? <==> Policy.Refuses(s.firewall, e.kind, e.sensitive)
  {
    hide Policy.Decide, Policy.Admits, Policy.Refuses;
    Policy.DecideExact(s.firewall, e.kind, e.sensitive, DirectionOf(e));
  }

  /** While linked, an admitted item is sent or written, once and as it came, unless it is a catch-up delivery; no other
      item moves, and a received one is acknowledged once. */
  lemma FreshItemMoves(b: Boot, run: seq<Input>, e: Event, w: Wall, a: Action)
    requires IsClipboard(e) && !IsRepeat(b, run, e, w)
    requires a.SendItem? || a.WriteClipboard? || a.AckItem?
    ensures var s := After(b, run);
            var moves := s.phase.Linked? && Policy.Admits(s.firewall, e.kind, e.sensitive);
            Count(Step(b.digest, s, e, w).1, a) ==
            if || (e.LocalClipboardChange? && moves && a == SendItem(e.hash, e.kind, e.payload, e.sensitive))
               || (e.FrameReceivedClipboard? && moves && !e.resync && a == WriteClipboard(e.kind, e.payload, e.sensitive))
               || (e.FrameReceivedClipboard? && a == AckItem(e.hash))
            then 1 else 0
  {
    hide IsRepeat, IsDuplicate, After, Step, Verdict, Count, Policy.Admits;
    RepeatExact(b, run, e, w);
    VerdictExact(After(b, run), e);
    Clipboard.SyncExact(b.digest, After(b, run), e, w, a);
  }

  /** An item that moves does so before it is acknowledged or announced. */
  lemma MovedFirst(b: Boot, run: seq<Input>, e: Event, w: Wall)
    requires IsClipboard(e) && !IsRepeat(b, run, e, w) && !IsCatchUp(e)
    requires After(b, run).phase.Linked? && Policy.Admits(After(b, run).firewall, e.kind, e.sensitive)
    ensures var actions := Step(b.digest, After(b, run), e, w).1;
            && actions != []
            && actions[0] == if e.LocalClipboardChange? then SendItem(e.hash, e.kind, e.payload, e.sensitive)
                             else WriteClipboard(e.kind, e.payload, e.sensitive)
  {
    hide IsRepeat, IsDuplicate, After, Concluded, Copied, Verdict, Policy.Admits;
    var s := After(b, run);
    RepeatExact(b, run, e, w);
    VerdictExact(s, e);
    Clipboard.CopiedKeepsVerdict(b.digest, s, e, w);
    SyncIsFirst(s.phase, e);
    Notices.HeadStays(Copied(b.digest, s, e, w), e, {});
  }

  lemma SyncIsFirst(phase: Fsm.Phase, e: Event)
    requires IsClipboard(e) && phase.Linked?
    ensures var table := Fsm.Transition(phase, e).1;
            table != [] && table[0] == if e.LocalClipboardChange? then SendItem(e.hash, e.kind, e.payload, e.sensitive)
                                       else WriteClipboard(e.kind, e.payload, e.sensitive)
  {
  }

  /** It is never reported as a repeat, and the daemon is told of a catch-up delivery that was kept off the clipboard. */
  lemma FreshItemIsReported(b: Boot, run: seq<Input>, e: Event, w: Wall)
    requires IsClipboard(e) && !IsRepeat(b, run, e, w)
    ensures var s := After(b, run);
            var actions := Step(b.digest, s, e, w).1;
            && DuplicateDropped !in actions
            && (ResyncApplySuppressed in actions <==>
                IsCatchUp(e) && s.phase.Linked? && Policy.Admits(s.firewall, e.kind, e.sensitive))
  {
    hide IsRepeat, IsDuplicate, After, Verdict, Policy.Admits, Concluded, Copied, Count;
    var s := After(b, run);
    RepeatExact(b, run, e, w);
    VerdictExact(s, e);
    Clipboard.CopiedKeepsVerdict(b.digest, s, e, w);
    ReportsExact(Copied(b.digest, s, e, w), e, {});
  }

  lemma ReportsExact(s: AppState, e: Event, dropped: set<Id>)
    requires IsClipboard(e) && dropped == {}
    ensures var actions := Concluded(s, e, dropped).1;
            && DuplicateDropped !in actions
            && (ResyncApplySuppressed in actions <==> IsCatchUp(e) && s.phase.Linked? && Verdict(s, e).Pass?)
  {
    hide Concluded, Fsm.Transition, Count, Verdict, Filtered, Stripped;
    ConcludedExact(s, e, dropped, DuplicateDropped);
    InMeansCount(Concluded(s, e, dropped).1, DuplicateDropped);
    InMeansCount(Fsm.Transition(s.phase, e).1, DuplicateDropped);
    TableReports(s.phase, e);
    SuppressedExact(s, e);
  }

  lemma TableReports(phase: Fsm.Phase, e: Event)
    requires IsClipboard(e)
    ensures DuplicateDropped !in Fsm.Transition(phase, e).1 && ResyncApplySuppressed !in Fsm.Transition(phase, e).1
    ensures e.FrameReceivedClipboard? ==>
              ((exists a <- Fsm.Transition(phase, e).1 :: a.WriteClipboard?) <==> phase.Linked?)
  {
    if e.FrameReceivedClipboard? && phase.Linked? {
      assert Fsm.Transition(phase, e).1[0].WriteClipboard?;
    }
  }

  lemma StrippedHasNone(dir: Policy.Direction, actions: seq<Action>, a: Action)
    ensures a in Stripped(dir, actions) <==> a in actions && !IsSyncOf(dir, a)
  {
    hide Stripped, Count;
    StrippedCount(dir, actions, a);
    InMeansCount(actions, a);
    InMeansCount(Stripped(dir, actions), a);
  }

  lemma FilteredReports(s: AppState, e: Event)
    requires e.FrameReceivedClipboard?
    ensures var filtered := Filtered(s, e, Fsm.Transition(s.phase, e).1);
            && ResyncApplySuppressed !in filtered
            && ((exists a <- filtered :: a.WriteClipboard?) <==> s.phase.Linked? && Verdict(s, e).Pass?)
  {
    hide Fsm.Transition, Verdict, Stripped;
    var table := Fsm.Transition(s.phase, e).1;
    TableReports(s.phase, e);
    forall a ensures a in Stripped(Policy.Inbound, table) <==> a in table && !IsSyncOf(Policy.Inbound, a) {
      StrippedHasNone(Policy.Inbound, table, a);
    }
  }

  lemma SuppressedExact(s: AppState, e: Event)
    requires IsClipboard(e)
    ensures ResyncApplySuppressed in Concluded(s, e, {}).1 <==> IsCatchUp(e) && s.phase.Linked? && Verdict(s, e).Pass?
  {
    hide Fsm.Transition, Verdict, Stripped, Filtered, WithOwnBattery, WithEmit, AlwaysEmits, Count;
    var table := Fsm.Transition(s.phase, e).1;
    var filtered := Filtered(s, e, table);
    var kept := WithoutResyncWrite(e, filtered + []);
    assert filtered + [] == filtered;
    if e.FrameReceivedClipboard? { FilteredReports(s, e); }
    LocalReports(s, e);
    StrippedHasNone(Policy.Inbound, filtered, ResyncApplySuppressed);
    SurvivesToTheEnd(s, e, kept);
  }

  lemma LocalReports(s: AppState, e: Event)
    requires IsClipboard(e)
    ensures e.LocalClipboardChange? ==> ResyncApplySuppressed !in Filtered(s, e, Fsm.Transition(s.phase, e).1)
    ensures Fsm.Transition(s.phase, e).0 == s.phase
  {
    hide Verdict, Stripped;
    StrippedHasNone(Policy.Outbound, Fsm.Transition(s.phase, e).1, ResyncApplySuppressed);
  }

  lemma SurvivesToTheEnd(s: AppState, e: Event, kept: seq<Action>)
    requires kept == WithoutResyncWrite(e, Filtered(s, e, Fsm.Transition(s.phase, e).1) + [])
    ensures ResyncApplySuppressed in Concluded(s, e, {}).1 <==> ResyncApplySuppressed in kept
  {
    hide Fsm.Transition, Filtered, WithoutResyncWrite, WithOwnBattery, WithEmit, AlwaysEmits, Count;
    var a, own := ResyncApplySuppressed, WithOwnBattery(kept, s.st.battery);
    var once := WithEmit(StatusFor(s.st) != s.st.status, own);
    Frames.ConcludedFrame(s, e, {});
    OwnBatteryCount(kept, s.st.battery, a);
    EmitCount(StatusFor(s.st) != s.st.status, own, a);
    EmitCount(AlwaysEmits(e), once, a);
    InMeansCount(kept, a);
    InMeansCount(WithEmit(AlwaysEmits(e), once), a);
    EndOfActions(s, e);
  }

  lemma EndOfActions(s: AppState, e: Event)
    ensures var kept := WithoutResyncWrite(e, Filtered(s, e, Fsm.Transition(s.phase, e).1) + []);
            Concluded(s, e, {}).1 ==
            WithEmit(AlwaysEmits(e), WithEmit(StatusFor(s.st) != s.st.status, WithOwnBattery(kept, s.st.battery)))
  {
    hide Fsm.Transition, Filtered, WithoutResyncWrite, WithOwnBattery, WithEmit, AlwaysEmits;
    Frames.ConcludedFrame(s, e, {});
  }

  /** The row that an item leaves. */
  function RowFor(e: Event, w: Wall): History.HistoryItem
    requires IsClipboard(e)
  {
    History.HistoryItem(
      e.kind, Text.Trim(e.preview), w.hhmm, if e.LocalClipboardChange? then History.Local else History.Remote,
      e.sensitive, e.lamport, Hex.Hex32(e.hash), false, IsCatchUp(e),
      if e.LocalClipboardChange? then None else Some(Hex.Hex32(e.peerId)), w.millis)
  }

  /** A local copy that is no secret becomes the first row; a received one only when it is admitted as well. */
  lemma FreshItemIsRecorded(b: Boot, run: seq<Input>, e: Event, w: Wall)
    requires IsClipboard(e) && !IsRepeat(b, run, e, w)
    ensures var s := After(b, run);
            var recorded := !e.sensitive && (e.LocalClipboardChange? || Policy.Admits(s.firewall, e.kind, e.sensitive));
            Step(b.digest, s, e, w).0.st.history ==
            if recorded then History.Pushed(s.st.history, RowFor(e, w)) else s.st.history
  {
    hide IsRepeat, IsDuplicate, After, Step, Verdict, Policy.Admits, History.Pushed;
    RepeatExact(b, run, e, w);
    VerdictExact(After(b, run), e);
    Clipboard.RecordedExact(b.digest, After(b, run), e, w);
  }

  /** An item that is neither admitted nor refused waits for the user, under its hash and tied to its sender; one that
      waits already is left alone. */
  lemma FreshItemIsParked(b: Boot, run: seq<Input>, e: Event, w: Wall)
    requires IsClipboard(e) && !IsRepeat(b, run, e, w)
    ensures var s := After(b, run);
            var t := Step(b.digest, s, e, w).0;
            var key, dir := Hex.Hex32(e.hash), if e.LocalClipboardChange? then Policy.Outbound else Policy.Inbound;
            if !Policy.Admits(s.firewall, e.kind, e.sensitive) && !Policy.Refuses(s.firewall, e.kind, e.sensitive)
               && key !in s.pendingPayloads
            then
              && t.pendingPayloads == s.pendingPayloads[
                   key := PendingPayload(dir, e.kind, e.payload, e.sensitive, e.hash,
                                         if e.LocalClipboardChange? then None else Some(e.peerId))]
              && t.st.pending == s.st.pending + [
                   PendingItem(key, e.kind, Text.Trim(e.preview), e.sensitive, dir,
                               if e.LocalClipboardChange? then None else Some(Hex.Hex32(e.peerId)))]
            else t.pendingPayloads == s.pendingPayloads && t.st.pending == s.st.pending
  {
    hide IsRepeat, IsDuplicate, After, Step, Verdict, Policy.Admits, Policy.Refuses, Hex.Hex32, Text.Trim;
    RepeatExact(b, run, e, w);
    VerdictExact(After(b, run), e);
    Clipboard.RecordedExact(b.digest, After(b, run), e, w);
  }

  /** Nothing but the clock, the ring, the history and the parking lot changes. */
  lemma ItemTouchesNoMore(b: Boot, run: seq<Input>, e: Event, w: Wall)
    requires IsClipboard(e)
    ensures var s, t := After(b, run), Step(b.digest, After(b, run), e, w).0;
            t == s.(clock := t.clock, ring := t.ring, pendingPayloads := t.pendingPayloads,
                    st := s.st.(history := t.st.history, pending := t.st.pending))
  {
    hide After, Prepared, Concluded, IsDuplicate, Dropped, Fsm.Transition, Copied;
    var s := After(b, run);
    AlwaysDerived(b, run);
    Clipboard.CopiedKeepsVerdict(b.digest, s, e, w);
    Frames.CopiedFrame(b.digest, s, e, w);
    Clipboard.ClipboardKeepsPhase(s.phase, e);
    Frames.ConcludedFrame(Prepared(b.digest, s, e, w), e, Dropped(s, e));
  }
}
