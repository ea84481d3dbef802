/** How often an action is emitted once the transition table's list has been filtered. */
module Actions {
  import opened Basics
  import opened Events
  import opened AppSpec
  import opened Fsm
  import Policy

  /** How often `a` is emitted. */
  ghost function Count(actions: seq<Action>, a: Action): nat { multiset(actions)[a] }

  lemma InMeansCount(actions: seq<Action>, a: Action)
    ensures a in actions <==> Count(actions, a) > 0
  {
  }

  lemma HeadCount(actions: seq<Action>, a: Action)
    requires actions != []
    ensures Count(actions, a) == Count([actions[0]], a) + Count(actions[1..], a)
  {
    assert actions == [actions[0]] + actions[1..];
  }

  lemma AppendCount(x: seq<Action>, y: seq<Action>, a: Action)
    ensures Count(x + y, a) == Count(x, a) + Count(y, a)
  {
  }

  lemma {:induction false} StrippedCount(dir: Policy.Direction, actions: seq<Action>, a: Action)
    ensures Count(Stripped(dir, actions), a) == if IsSyncOf(dir, a) then 0 else Count(actions, a)
  {
    if actions != [] {
      StrippedCount(dir, actions[1..], a);
      HeadCount(actions, a);
      AppendCount(if IsSyncOf(dir, actions[0]) then [] else [actions[0]], Stripped(dir, actions[1..]), a);
    }
  }

  lemma {:induction false} OwnBatteryCount(actions: seq<Action>, own: Battery, a: Action)
    requires !a.SendBattery?
    ensures Count(WithOwnBattery(actions, own), a) == Count(actions, a)
  {
    if actions != [] {
      OwnBatteryCount(actions[1..], own, a);
      HeadCount(actions, a);
      AppendCount(OwnBattery(actions[0], own), WithOwnBattery(actions[1..], own), a);
    }
  }

  lemma EmitCount(needed: bool, actions: seq<Action>, a: Action)
    requires !a.EmitState?
    ensures Count(WithEmit(needed, actions), a) == Count(actions, a)
  {
    AppendCount(actions, [EmitState], a);
  }

  /** An action that only the transition table emits. */
  predicate IsFromTable(a: Action) {
    !a.SendBattery? && !a.EmitState? && !a.PendingDropped? && !a.ResyncApplySuppressed?
  }

  /** The firewall and the catch-up rule remove syncs; every other table action is emitted as often as the table says. */
  lemma ConcludedCount(s: AppState, e: Event, dropped: set<Id>, a: Action)
    requires IsFromTable(a)
    ensures Count(Concluded(s, e, dropped).1, a) == Count(WithoutResyncWrite(e, Filtered(s, e, Transition(s.phase, e).1)), a)
  {
    var filtered := Filtered(s, e, Transition(s.phase, e).1);
    var tail := if dropped == {} then [] else [PendingDropped(dropped)];
    var kept := WithoutResyncWrite(e, filtered + tail);
    AppendCount(filtered, tail, a);
    ResyncCount(e, filtered + tail, a);
    ResyncCount(e, filtered, a);
    OwnBatteryCount(kept, s.st.battery, a);
    var own := WithOwnBattery(kept, s.st.battery);
    EmitCount(StatusFor(s.st) != s.st.status, own, a);
    EmitCount(AlwaysEmits(e), WithEmit(StatusFor(s.st) != s.st.status, own), a);
  }

  lemma ResyncCount(e: Event, actions: seq<Action>, a: Action)
    requires IsFromTable(a)
    ensures Count(WithoutResyncWrite(e, actions), a) ==
            if e.FrameReceivedClipboard? && e.resync && a.WriteClipboard? then 0 else Count(actions, a)
  {
    StrippedCount(Policy.Inbound, actions, a);
    AppendCount(Stripped(Policy.Inbound, actions), [ResyncApplySuppressed], a);
    AppendCount(Stripped(Policy.Inbound, actions), [], a);
  }

  /** How often each table action survives. */
  lemma ConcludedExact(s: AppState, e: Event, dropped: set<Id>, a: Action)
    requires IsFromTable(a)
    ensures Count(Concluded(s, e, dropped).1, a) ==
            if a.WriteClipboard? && e.FrameReceivedClipboard? && (e.resync || !Verdict(s, e).Pass?) then 0
            else if a.SendItem? && e.LocalClipboardChange? && !Verdict(s, e).Pass? then 0
            else Count(Transition(s.phase, e).1, a)
  {
    var table := Transition(s.phase, e).1;
    ConcludedCount(s, e, dropped, a);
    ResyncCount(e, Filtered(s, e, table), a);
    if IsClipboard(e) { StrippedCount(DirectionOf(e), table, a); }
  }
}
