/** Whole runs of the clipboard state machine, from boot. */
module Runs {
  import opened Basics
  import opened Events
  import opened AppSpec
  import History
  import Policy

  /** How the machine starts: the content digest, the saved policy and the saved history. */
  datatype Boot = Boot(digest: Digest, firewall: Policy.FirewallPolicy, saved: seq<History.HistoryItem>)

  /** The state after a run. */
  function After(b: Boot, run: seq<Input>): AppState {
    if run == [] then Restored(Initial(b.firewall), b.saved)
    else Next(b.digest, After(b, run[..|run| - 1]), run[|run| - 1]).0
  }

  /** What each input of a run made the machine emit. */
  function Emitted(b: Boot, run: seq<Input>): (r: seq<seq<Action>>)
    ensures |r| == |run|
  {
    if run == [] then []
    else Emitted(b, run[..|run| - 1]) + [Next(b.digest, After(b, run[..|run| - 1]), run[|run| - 1]).1]
  }

  /** A run of `n` inputs is a prefix of the longer run, in states and in actions. */
  lemma {:induction false} EmittedPrefix(b: Boot, run: seq<Input>, n: nat)
    requires n <= |run|
    ensures Emitted(b, run[..n]) == Emitted(b, run)[..n]
  {
    hide Next;
    if n == |run| {
      assert run[..n] == run;
    } else {
      EmittedPrefix(b, run[..|run| - 1], n);
      assert run[..|run| - 1][..n] == run[..n];
    }
  }

  lemma EmittedAt(b: Boot, run: seq<Input>, i: nat)
    requires i < |run|
    ensures Emitted(b, run)[i] == Next(b.digest, After(b, run[..i]), run[i]).1
    ensures After(b, run[..i + 1]) == Next(b.digest, After(b, run[..i]), run[i]).0
  {
    hide Next;
    EmittedPrefix(b, run, i + 1);
    assert run[..i + 1][..i] == run[..i];
  }

  predicate IsEvent(i: Input, e: Event) { i.Handle? && i.event == e }
}
