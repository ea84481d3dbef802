/** Sessions open and close in turn, and the derived fields follow the phase, over every run. */
module Sessions {
  import opened Basics
  import opened Events
  import opened AppSpec
  import opened Runs
  import opened Frames
  import opened Fsm
  import opened Actions

  predicate Opens(actions: seq<Action>) { OpenSession in actions }

  /** The session is over, or never was. */
  predicate Ends(actions: seq<Action>) { CloseSession in actions || DropPeer in actions }

  lemma PreparedPhase(digest: Digest, s: AppState, e: Event, w: Wall)
    ensures Prepared(digest, s, e, w).phase == s.phase
  {
    hide Prepared;
    PreparedFrame(digest, s, e, w);
  }

  lemma NoOpen(actions: seq<Action>)
    requires !Opens(actions)
    ensures Count(actions, OpenSession) == 0
  {
    InMeansCount(actions, OpenSession);
  }

  lemma OpensFirst(rest: seq<Action>)
    requires !Opens(rest)
    ensures Count([OpenSession] + rest, OpenSession) == 1
  {
    NoOpen(rest);
    AppendCount([OpenSession], rest, OpenSession);
  }

  /** The transition table opens at most once, and never opens and ends in one step. */
  lemma TableSession(phase: Phase, e: Event)
    ensures var actions := Transition(phase, e).1;
            Count(actions, OpenSession) <= 1 && (Opens(actions) ==> !Ends(actions))
  {
    hide Count;
    var actions := Transition(phase, e).1;
    if phase.Handshaking? && e.HandshakeOk? {
      var rest := [BurstReplay, SendBattery(PLACEHOLDER_BATTERY, false), EmitState, EmitLog(Ok)];
      assert actions == [OpenSession] + rest;
      OpensFirst(rest);
    } else {
      NoOpen(actions);
    }
  }

  /** A session opens exactly on entry to `Linked`, at most once, and leaving `Linked` always ends it. */
  ghost predicate IsSessionStep(from: Phase, to: Phase, actions: seq<Action>) {
    && Count(actions, OpenSession) <= 1
    && (Opens(actions) <==> !from.Linked? && to.Linked?)
    && (Ends(actions) ==> !to.Linked?)
    && (from.Linked? && !to.Linked? ==> Ends(actions))
  }

  lemma ConcludedSession(s: AppState, e: Event, dropped: set<Id>)
    ensures IsSessionStep(s.phase, Transition(s.phase, e).0, Concluded(s, e, dropped).1)
  {
    var table, actions := Transition(s.phase, e).1, Concluded(s, e, dropped).1;
    ConcludedExact(s, e, dropped, OpenSession);
    ConcludedExact(s, e, dropped, CloseSession);
    ConcludedExact(s, e, dropped, DropPeer);
    SameMarks(table, actions);
    TableSession(s.phase, e);
    LinkedIsASession(s.phase, e);
  }

  lemma SameMarks(a: seq<Action>, b: seq<Action>)
    requires Count(a, OpenSession) == Count(b, OpenSession)
    requires Count(a, CloseSession) == Count(b, CloseSession) && Count(a, DropPeer) == Count(b, DropPeer)
    ensures (Opens(a) <==> Opens(b)) && (Ends(a) <==> Ends(b))
  {
    InMeansCount(a, OpenSession);
    InMeansCount(b, OpenSession);
    InMeansCount(a, CloseSession);
    InMeansCount(b, CloseSession);
    InMeansCount(a, DropPeer);
    InMeansCount(b, DropPeer);
  }

  lemma QuietSession(phase: Phase, actions: seq<Action>)
    requires !Opens(actions) && !Ends(actions)
    ensures IsSessionStep(phase, phase, actions)
  {
    NoOpen(actions);
  }

  lemma StepSession(digest: Digest, s: AppState, e: Event, w: Wall)
    ensures var (t, actions) := Step(digest, s, e, w); IsSessionStep(s.phase, t.phase, actions)
  {
    hide Prepared, Concluded, IsSessionStep, IsDuplicate, Dropped;
    var (t, actions) := Step(digest, s, e, w);
    var s1, dropped := Prepared(digest, s, e, w), Dropped(s, e);
    PreparedPhase(digest, s, e, w);
    if e.ResolvePending? || (e.PeerSeen? && IsPeerMismatch(s, e.peerId)) || (IsClipboard(e) && IsDuplicate(digest, s, e, w)) {
      QuietSession(s.phase, actions);
    } else {
      ConcludedFrame(s1, e, dropped);
      ConcludedSession(s1, e, dropped);
    }
  }

  // ── Over a run ──────────────────────────────────────────────────────

  /** The last session action emitted opened one. */
  predicate IsUp(emitted: seq<seq<Action>>) {
    emitted != [] &&
    var last := emitted[|emitted| - 1];
    Opens(last) || (!Ends(last) && IsUp(emitted[..|emitted| - 1]))
  }

  lemma NextSession(digest: Digest, s: AppState, i: Input)
    ensures var (t, actions) := Next(digest, s, i); IsSessionStep(s.phase, t.phase, actions)
  {
    if i.Handle? { StepSession(digest, s, i.event, i.wall); }
  }

  /** In every run a session is up exactly in `Linked`. */
  lemma {:induction false} LinkedIsUp(b: Boot, run: seq<Input>)
    ensures After(b, run).phase.Linked? <==> IsUp(Emitted(b, run))
  {
    if run != [] {
      var before, i := run[..|run| - 1], run[|run| - 1];
      LinkedIsUp(b, before);
      NextSession(b.digest, After(b, before), i);
      assert Emitted(b, run)[..|run| - 1] == Emitted(b, before);
    }
  }

  /** Once up, a session stays up until an action ends it. */
  lemma {:induction false} StaysUp(emitted: seq<seq<Action>>, i: nat)
    requires i < |emitted| && Opens(emitted[i])
    requires forall k :: i < k < |emitted| ==> !Ends(emitted[k])
    ensures IsUp(emitted)
  {
    if i < |emitted| - 1 { StaysUp(emitted[..|emitted| - 1], i); }
  }

  /** Between two steps that open a session there is a step that closes it or drops the peer. */
  lemma OpensAreSeparated(b: Boot, run: seq<Input>, i: nat, j: nat)
    requires i < j < |run| && Opens(Emitted(b, run)[i]) && Opens(Emitted(b, run)[j])
    ensures exists k :: i < k < j && Ends(Emitted(b, run)[k])
  {
    var before, emitted := run[..j], Emitted(b, run);
    EmittedAt(b, run, j);
    EmittedPrefix(b, run, j);
    NextSession(b.digest, After(b, before), run[j]);
    LinkedIsUp(b, before);
    if forall k :: i < k < j ==> !Ends(emitted[k]) {
      StaysUp(emitted[..j], i);
    }
  }

  // ── The derived fields ──────────────────────────────────────────────

  /** The shown phase is the name of the phase, the shown status is "syncing" iff sync is on, and then it is not idle. */
  predicate IsDerived(s: AppState) {
    && s.st.phase == (match s.phase
                      case Idle => "idle"
                      case Discovering => "discovering"
                      case Handshaking => "handshaking"
                      case Linked => "linked")
    && s.st.status == (if s.st.on then Syncing else Inactive)
    && (s.st.on ==> !s.phase.Idle?)
  }

  /** What an event does to the switch. */
  lemma PreparedOn(digest: Digest, s: AppState, e: Event, w: Wall)
    ensures Prepared(digest, s, e, w).st.on == (e.ToggleOn? || (s.st.on && !e.ToggleOff? && !e.ManualUnpair?))
  {
    hide Prepared;
    PreparedFrame(digest, s, e, w);
  }

  lemma PreparedLabels(digest: Digest, s: AppState, e: Event, w: Wall)
    ensures var t := Prepared(digest, s, e, w).st; t.phase == s.st.phase && t.status == s.st.status
  {
    hide Prepared;
    PreparedFrame(digest, s, e, w);
  }

  /** The phase returns to `Idle` only when sync is switched off or the peer is unpaired. */
  lemma IdleMeansOff(phase: Phase, e: Event)
    ensures Transition(phase, e).0.Idle? <==> e.ToggleOff? || e.ManualUnpair? || (phase.Idle? && !e.ToggleOn? && !e.UntrustedPeerSeen?)
  {
  }

  lemma StepDerived(digest: Digest, s: AppState, e: Event, w: Wall)
    requires IsDerived(s)
    ensures IsDerived(Step(digest, s, e, w).0)
  {
    hide Prepared, Concluded, IsDuplicate, Dropped;
    if !e.ResolvePending? && !(e.PeerSeen? && IsPeerMismatch(s, e.peerId)) {
      PreparedOn(digest, s, e, w);
      PreparedLabels(digest, s, e, w);
      PreparedPhase(digest, s, e, w);
      IdleMeansOff(s.phase, e);
      ConcludedFrame(Prepared(digest, s, e, w), e, Dropped(s, e));
    }
  }

  lemma RestoredIsDerived(b: Boot)
    ensures IsDerived(After(b, []))
  {
  }

  lemma OtherInputsDerived(digest: Digest, s: AppState, i: Input)
    requires IsDerived(s) && !i.Handle?
    ensures IsDerived(Next(digest, s, i).0)
  {
  }

  /** In every run the shown phase and status are the derived ones, and sync is never on in `Idle`. */
  lemma {:induction false} AlwaysDerived(b: Boot, run: seq<Input>)
    ensures IsDerived(After(b, run))
  {
    hide Step, IsDerived;
    if run == [] {
      RestoredIsDerived(b);
    } else {
      var before, i := run[..|run| - 1], run[|run| - 1];
      AlwaysDerived(b, before);
      if i.Handle? {
        StepDerived(b.digest, After(b, before), i.event, i.wall);
      } else {
        OtherInputsDerived(b.digest, After(b, before), i);
      }
    }
  }

  /** Every entry into `Discovering` starts the search. */
  lemma SearchIsStarted(digest: Digest, s: AppState, e: Event, w: Wall)
    ensures var (t, actions) := Step(digest, s, e, w);
            !s.phase.Discovering? && t.phase.Discovering? ==> StartDiscovery in actions
  {
    hide Prepared, Concluded, IsDuplicate, Dropped;
    if !e.ResolvePending? && !(e.PeerSeen? && IsPeerMismatch(s, e.peerId)) {
      PreparedPhase(digest, s, e, w);
      var s1, dropped := Prepared(digest, s, e, w), Dropped(s, e);
      ConcludedFrame(s1, e, dropped);
      ConcludedExact(s1, e, dropped, StartDiscovery);
      DiscoveringIsStarted(s.phase, e);
    }
  }
}
