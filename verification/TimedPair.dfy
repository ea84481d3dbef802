/** Our redials against the peer's limiter: why the backoff can never drain our bucket, and what that needs. */
module TimedPair {
  import opened Basics
  import opened RateLimit
  import Backoff

  /** `dialing` from a dial until its failure, or until the end of the session it opened. */
  datatype Pair = Pair(backoff: Backoff.State, table: Table, now: nat, lastDial: nat, dialing: bool)

  datatype Move =
    | Dial(at: nat, victim: Source)
    | Fail(at: nat, draw: Backoff.Draw)
    | SessionEnd(at: nat, uptime: nat)
    | Other(src: Source, at: nat, victim: Source)

  /** A dial needs a ready backoff; the other attempts at the limiter are not ours. */
  predicate IsLegal(p: Pair, us: Source, m: Move) {
    && p.now <= m.at
    && match m
       case Dial(at, _) => !p.dialing && Backoff.Ready(p.backoff, at)
       case Fail(_, _) => p.dialing
       case SessionEnd(at, uptime) => p.dialing && p.lastDial + uptime <= at
       case Other(src, _, _) => src != us
  }

  function Moved(p: Pair, us: Source, m: Move): Pair {
    match m
    case Dial(at, victim) => p.(table := Checked(p.table, us, at, victim).0, now := at, lastDial := at, dialing := true)
    case Fail(at, draw) => p.(backoff := Backoff.Failed(p.backoff, at, draw), now := at, dialing := false)
    case SessionEnd(at, uptime) => p.(backoff := Backoff.SessionEnded(p.backoff, uptime), now := at, dialing := false)
    case Other(src, at, victim) => p.(table := Checked(p.table, src, at, victim).0, now := at)
  }

  function After(p: Pair, us: Source, run: seq<Move>): Pair {
    if run == [] then p else Moved(After(p, us, run[..|run| - 1]), us, run[|run| - 1])
  }

  /** A fresh backoff, and a full bucket (or none yet) at the peer. */
  ghost predicate IsStart(p: Pair, us: Source) {
    && p.backoff == Backoff.FRESH && !p.dialing
    && IsSound(p.table, p.now) && Available(p.table, us, p.now) == CAPACITY
  }

  ghost predicate IsRun(p: Pair, us: Source, run: seq<Move>) {
    forall i :: 0 <= i < |run| ==> IsLegal(After(p, us, run[..i]), us, run[i])
  }

  /** A session this long refills the bucket whatever came before it. */
  const LONG_SESSION: nat := 26_250 * MS

  /** No session of the run is shorter than this. */
  ghost predicate SessionsLast(run: seq<Move>, len: nat) {
    forall i :: 0 <= i < |run| && run[i].SessionEnd? ==> run[i].uptime >= len
  }

  /** The peer's limiter lets the `k`-th move, a dial of ours, through. */
  predicate IsAccepted(p: Pair, us: Source, run: seq<Move>, k: nat)
    requires k < |run| && run[k].Dial?
  {
    Checked(After(p, us, run[..k]).table, us, run[k].at, run[k].victim).1
  }

  /** What the bucket still holds right after the dial that follows `attempt` failures. */
  function Reserve(attempt: nat): nat {
    (match attempt
     case 0 => 24_000
     case 1 => 18_250
     case 2 => 12_750
     case 3 => 7_750
     case _ => 3_750) * MS
  }

  /** The shortest delay after that dial has failed. */
  function Wait(attempt: nat): nat { Backoff.JitterFloorMs(Backoff.BaseDelayMs(attempt)) * MS }

  lemma WaitValues(attempt: nat)
    ensures Wait(attempt) == (if attempt == 0 then 250 else if attempt == 1 then 500 else if attempt == 2 then 1000
                              else if attempt == 3 then 2000 else 6500) * MS
  {
    Backoff.BaseDelays(attempt);
  }

  /** The bucket holds at least `base` at the last dial and what time has added since. */
  predicate HasSaved(p: Pair, us: Source, base: nat) {
    p.lastDial <= p.now && Available(p.table, us, p.now) >= Min(base + (p.now - p.lastDial), CAPACITY)
  }

  ghost predicate Inv(p: Pair, us: Source) {
    && IsSound(p.table, p.now)
    && if p.dialing then HasSaved(p, us, Reserve(p.backoff.attempt))
       else if p.backoff == Backoff.FRESH then Available(p.table, us, p.now) == CAPACITY
       else p.backoff.attempt > 0 && p.backoff.nextReadyAt.Some?
            && HasSaved(p, us, Reserve(p.backoff.attempt - 1))
            && p.backoff.nextReadyAt.value >= p.lastDial + Wait(p.backoff.attempt - 1)
  }

  /** A dial that the backoff allows finds a token, and leaves the reserve for the next one. */
  lemma DialPasses(p: Pair, us: Source, m: Move)
    requires Inv(p, us) && m.Dial? && IsLegal(p, us, m)
    ensures Checked(p.table, us, m.at, m.victim).1 && Inv(Moved(p, us, m), us)
  {
    hide Checked, Available, IsSound, Wait;
    CheckedAvailable(p.table, p.now, us, m.at, m.victim, us);
    AvailableLater(p.table, us, p.now, m.at);
    var k := p.backoff.attempt;
    if k > 0 { WaitValues(k - 1); }
  }

  lemma FailKeeps(p: Pair, us: Source, m: Move)
    requires Inv(p, us) && m.Fail? && IsLegal(p, us, m)
    ensures Inv(Moved(p, us, m), us)
  {
    hide Available, IsSound, Backoff.FullJitterMs;
    SoundLater(p.table, p.now, m.at);
    AvailableLater(p.table, us, p.now, m.at);
    Backoff.JitterRange(p.backoff.attempt, m.draw);
    if p.backoff.attempt >= Backoff.U32_MAX { WaitValues(p.backoff.attempt); WaitValues(p.backoff.attempt - 1); }
  }

  lemma SessionKeeps(p: Pair, us: Source, m: Move)
    requires Inv(p, us) && m.SessionEnd? && m.uptime >= LONG_SESSION && IsLegal(p, us, m)
    ensures Inv(Moved(p, us, m), us)
  {
    hide Available, IsSound;
    SoundLater(p.table, p.now, m.at);
    AvailableLater(p.table, us, p.now, m.at);
    AvailableAtMost(p.table, us, m.at);
  }

  /** Other sources may take tokens of their own, sweep the table, or have our bucket dropped: none of it costs us. */
  lemma OtherKeeps(p: Pair, us: Source, m: Move)
    requires Inv(p, us) && m.Other? && IsLegal(p, us, m)
    ensures Inv(Moved(p, us, m), us)
  {
    hide Checked, Available, IsSound, Wait, Reserve;
    CheckedAvailable(p.table, p.now, m.src, m.at, m.victim, us);
    AvailableLater(p.table, us, p.now, m.at);
  }

  lemma MovedInv(p: Pair, us: Source, m: Move)
    requires Inv(p, us) && IsLegal(p, us, m) && (m.SessionEnd? ==> m.uptime >= LONG_SESSION)
    ensures Inv(Moved(p, us, m), us)
    ensures m.Dial? ==> Checked(p.table, us, m.at, m.victim).1
  {
    hide Inv, Moved, Checked, IsLegal;
    match m
    case Dial(_, _) => DialPasses(p, us, m);
    case Fail(_, _) => FailKeeps(p, us, m);
    case SessionEnd(_, _) => SessionKeeps(p, us, m);
    case Other(_, _, _) => OtherKeeps(p, us, m);
  }

  lemma {:induction false} AlwaysInv(p: Pair, us: Source, run: seq<Move>)
    requires IsStart(p, us) && IsRun(p, us, run) && SessionsLast(run, LONG_SESSION)
    ensures Inv(After(p, us, run), us)
  {
    hide Inv, Moved, IsLegal;
    if run == [] {
      StartInv(p, us);
    } else {
      var before := run[..|run| - 1];
      forall i | 0 <= i < |before| ensures IsLegal(After(p, us, before[..i]), us, before[i]) {
        assert before[..i] == run[..i] && before[i] == run[i];
      }
      assert forall i :: 0 <= i < |before| ==> before[i] == run[i];
      AlwaysInv(p, us, before);
      MovedInv(After(p, us, before), us, run[|run| - 1]);
    }
  }

  lemma StartInv(p: Pair, us: Source)
    requires IsStart(p, us)
    ensures Inv(p, us)
  {
  }

  /** Whatever the draws, the number of failures, the other sources, the sweeps and the drops: every redial that the
      backoff allows is accepted by the peer's limiter. */
  lemma RedialsAlwaysPass(p: Pair, us: Source, run: seq<Move>, k: nat)
    requires IsStart(p, us) && IsRun(p, us, run) && SessionsLast(run, LONG_SESSION) && k < |run| && run[k].Dial?
    ensures IsAccepted(p, us, run, k)
  {
    hide Inv, IsLegal;
    var before := run[..k];
    forall i | 0 <= i < |before| ensures IsLegal(After(p, us, before[..i]), us, before[i]) {
      assert before[..i] == run[..i] && before[i] == run[i];
    }
    assert forall i :: 0 <= i < |before| ==> before[i] == run[i];
    AlwaysInv(p, us, before);
    MovedInv(After(p, us, before), us, run[k]);
  }

  // ── Why the sessions must be long ───────────────────────────────────

  /** We have just dialled, nobody else ever did, and the bucket holds this much. */
  ghost predicate HasDialled(p: Pair, us: Source, time: nat, attempt: nat, tokens: nat) {
    && p.dialing && p.now == p.lastDial == time && p.backoff.attempt == attempt
    && p.table == map[us := Bucket(tokens, time)]
  }

  lemma Extended(p: Pair, us: Source, run: seq<Move>, m: Move)
    requires IsRun(p, us, run) && IsLegal(After(p, us, run), us, m)
    ensures IsRun(p, us, run + [m]) && After(p, us, run + [m]) == Moved(After(p, us, run), us, m)
  {
    hide IsLegal, Moved;
    var longer := run + [m];
    assert longer[..|run|] == run;
    forall i | 0 <= i < |longer| ensures IsLegal(After(p, us, longer[..i]), us, longer[i]) {
      if i < |run| { assert longer[..i] == run[..i]; }
    }
  }

  function Left(tokens: nat): nat { if tokens >= TOKEN then tokens - TOKEN else tokens }

  lemma OwnDial(p: Pair, us: Source, at: nat, tokens: nat)
    requires p.table == map[us := Bucket(tokens, p.lastDial)] && p.lastDial <= at < p.lastDial + IDLE_EVICT
    requires tokens + (at - p.lastDial) <= CAPACITY
    ensures var avail := tokens + (at - p.lastDial);
            Checked(p.table, us, at, us) == (map[us := Bucket(Left(avail), at)], avail >= TOKEN)
  {
    assert Swept(p.table, at) == p.table;
    var b := Bucket(Left(tokens + (at - p.lastDial)), at);
    assert p.table[us := b] == map[us := b];
  }

  lemma RedialMoves(s: Pair, us: Source, time: nat, attempt: nat, tokens: nat)
    requires HasDialled(s, us, time, attempt, tokens) && attempt < 4 && tokens + Wait(attempt) <= CAPACITY
    ensures var at, avail := time + Wait(attempt), tokens + Wait(attempt);
            var s1 := Moved(s, us, Fail(time, 0));
            && IsLegal(s, us, Fail(time, 0)) && IsLegal(s1, us, Dial(at, us))
            && HasDialled(Moved(s1, us, Dial(at, us)), us, at, attempt + 1, Left(avail))
            && Checked(s1.table, us, at, us).1 == (avail >= TOKEN)
  {
    hide Checked, Wait;
    WaitValues(attempt);
    NoDraw(attempt);
    OwnDial(Moved(s, us, Fail(time, 0)), us, time + Wait(attempt), tokens);
  }

  lemma NoDraw(attempt: nat)
    ensures Backoff.FullJitterMs(Backoff.BaseDelayMs(attempt), 0) * MS == Wait(attempt)
  {
    hide Backoff.BaseDelayMs;
  }

  /** The run ends with a dial that the limiter refuses. */
  ghost predicate EndsRefused(p: Pair, us: Source, run: seq<Move>) {
    run != [] && run[|run| - 1].Dial? && !IsAccepted(p, us, run, |run| - 1)
  }

  /** The dial fails at once, and we dial again as soon as the shortest delay allows. */
  lemma Redial(p: Pair, us: Source, len: nat, run: seq<Move>, time: nat, attempt: nat, tokens: nat)
    returns (longer: seq<Move>)
    requires IsRun(p, us, run) && SessionsLast(run, len) && HasDialled(After(p, us, run), us, time, attempt, tokens)
    requires attempt < 4 && tokens + Wait(attempt) <= CAPACITY
    ensures var at, avail := time + Wait(attempt), tokens + Wait(attempt);
            && IsRun(p, us, longer) && SessionsLast(longer, len)
            && HasDialled(After(p, us, longer), us, at, attempt + 1, Left(avail))
            && (avail < TOKEN ==> EndsRefused(p, us, longer))
  {
    hide IsRun, IsLegal, Moved, HasDialled, Checked, Wait, After;
    var fail, dial := Fail(time, 0), Dial(time + Wait(attempt), us);
    RedialMoves(After(p, us, run), us, time, attempt, tokens);
    Extended(p, us, run, fail);
    Extended(p, us, run + [fail], dial);
    longer := run + [fail] + [dial];
    assert longer[..|longer| - 1] == run + [fail];
  }

  /** Four failed redials in a row: a full ramp, unless one of them is refused. */
  lemma Ramp(p: Pair, us: Source, len: nat, run: seq<Move>, time: nat, tokens: nat) returns (longer: seq<Move>)
    requires IsRun(p, us, run) && SessionsLast(run, len) && HasDialled(After(p, us, run), us, time, 0, tokens)
    requires tokens <= 24_000 * MS
    ensures IsRun(p, us, longer) && SessionsLast(longer, len)
    ensures EndsRefused(p, us, longer) ||
            (tokens >= 20_250 * MS && HasDialled(After(p, us, longer), us, time + 3_750 * MS, 4, tokens - 20_250 * MS))
  {
    hide IsRun, HasDialled, Checked, After, Wait, SessionsLast, EndsRefused;
    WaitValues(0);
    WaitValues(1);
    WaitValues(2);
    WaitValues(3);
    longer := Redial(p, us, len, run, time, 0, tokens);
    if tokens + 250 * MS >= TOKEN {
      longer := Redial(p, us, len, longer, time + 250 * MS, 1, tokens - 5_750 * MS);
      if tokens >= 11_250 * MS {
        longer := Redial(p, us, len, longer, time + 750 * MS, 2, tokens - 11_250 * MS);
        if tokens >= 16_250 * MS {
          longer := Redial(p, us, len, longer, time + 1_750 * MS, 3, tokens - 16_250 * MS);
        }
      }
    }
  }

  lemma SessionMoves(s: Pair, us: Source, len: nat, time: nat, attempt: nat, tokens: nat)
    requires HasDialled(s, us, time, attempt, tokens) && Backoff.MIN_STABLE <= len && tokens + len <= CAPACITY
    ensures var at := time + len;
            var end := SessionEnd(at, len);
            var s1 := Moved(s, us, end);
            && IsLegal(s, us, end) && IsLegal(s1, us, Dial(at, us))
            && HasDialled(Moved(s1, us, Dial(at, us)), us, at, 0, Left(tokens + len))
  {
    hide Checked;
    OwnDial(Moved(s, us, SessionEnd(time + len, len)), us, time + len, tokens);
  }

  /** The dial opens a session that counts as stable, and we dial again as soon as it is over. */
  lemma DialAfterSession(p: Pair, us: Source, len: nat, run: seq<Move>, time: nat, attempt: nat, tokens: nat)
    returns (longer: seq<Move>)
    requires IsRun(p, us, run) && SessionsLast(run, len) && HasDialled(After(p, us, run), us, time, attempt, tokens)
    requires Backoff.MIN_STABLE <= len && tokens + len <= CAPACITY
    ensures IsRun(p, us, longer) && SessionsLast(longer, len)
    ensures HasDialled(After(p, us, longer), us, time + len, 0, Left(tokens + len))
  {
    hide IsRun, IsLegal, Moved, HasDialled, Checked, After;
    var end, dial := SessionEnd(time + len, len), Dial(time + len, us);
    SessionMoves(After(p, us, run), us, len, time, attempt, tokens);
    Extended(p, us, run, end);
    Extended(p, us, run + [end], dial);
    longer := run + [end] + [dial];
  }

  /** Every ramp and session leave fewer tokens than the ones before, until a redial finds none. */
  lemma {:induction false} Drain(p: Pair, us: Source, len: nat, run: seq<Move>, time: nat, tokens: nat)
    returns (longer: seq<Move>)
    requires IsRun(p, us, run) && SessionsLast(run, len) && HasDialled(After(p, us, run), us, time, 0, tokens)
    requires Backoff.MIN_STABLE <= len < LONG_SESSION && tokens <= 24_000 * MS
    ensures IsRun(p, us, longer) && SessionsLast(longer, len) && EndsRefused(p, us, longer)
    decreases tokens
  {
    hide IsRun, HasDialled, Checked, After, SessionsLast, EndsRefused;
    longer := Ramp(p, us, len, run, time, tokens);
    if !EndsRefused(p, us, longer) {
      var left := tokens - 20_250 * MS;
      longer := DialAfterSession(p, us, len, longer, time + 3_750 * MS, 4, left);
      longer := Drain(p, us, len, longer, time + 3_750 * MS + len, left + len - TOKEN);
    }
  }

  lemma FirstMove(p: Pair, us: Source)
    requires p == Pair(Backoff.FRESH, map[], 0, 0, false)
    ensures IsStart(p, us) && IsLegal(p, us, Dial(0, us)) && HasDialled(Moved(p, us, Dial(0, us)), us, 0, 0, 24_000 * MS)
  {
    assert Swept(p.table, 0) == p.table;
  }

  lemma FirstDial(p: Pair, us: Source, len: nat) returns (run: seq<Move>)
    requires p == Pair(Backoff.FRESH, map[], 0, 0, false)
    ensures IsStart(p, us) && IsRun(p, us, run) && SessionsLast(run, len)
    ensures HasDialled(After(p, us, run), us, 0, 0, 24_000 * MS)
  {
    hide IsStart, IsLegal, Moved, HasDialled, Checked;
    FirstMove(p, us);
    assert After(p, us, []) == p;
    Extended(p, us, [], Dial(0, us));
    run := [] + [Dial(0, us)];
  }

  /** Sessions of this length, or longer ones, do not keep a redial from being refused. */
  lemma ShortSessionsDrain(us: Source, len: nat) returns (p: Pair, run: seq<Move>)
    requires len < LONG_SESSION
    ensures IsStart(p, us) && IsRun(p, us, run) && SessionsLast(run, len) && EndsRefused(p, us, run)
  {
    hide IsStart, IsRun, HasDialled, After, EndsRefused;
    var stable := Max(len, Backoff.MIN_STABLE);
    p := Pair(Backoff.FRESH, map[], 0, 0, false);
    run := FirstDial(p, us, stable);
    run := Drain(p, us, stable, run, 0, 24_000 * MS);
  }

  /** A session that just counts as stable is too short: it resets the backoff before the bucket is full again. */
  lemma StableSessionIsTooShort(us: Source) returns (p: Pair, run: seq<Move>)
    ensures IsStart(p, us) && IsRun(p, us, run) && SessionsLast(run, 15_000_000_000) && EndsRefused(p, us, run)
  {
    hide IsStart, IsRun, SessionsLast, EndsRefused;
    p, run := ShortSessionsDrain(us, Backoff.MIN_STABLE);
  }

  /** In every run whose sessions all last this long, every redial that the backoff allows is accepted. */
  ghost predicate IsLongEnough(us: Source, len: nat) {
    forall p: Pair, run: seq<Move>, k: nat ::
      IsStart(p, us) && IsRun(p, us, run) && SessionsLast(run, len) && k < |run| && run[k].Dial? ==>
        IsAccepted(p, us, run, k)
  }

  /** Redials can never drain the peer's bucket iff no session is shorter than 26.25 seconds. */
  lemma LongEnoughExact(us: Source, len: nat)
    ensures IsLongEnough(us, len) <==> len >= 26_250_000_000
  {
    hide IsStart, IsRun, IsAccepted;
    if len < LONG_SESSION {
      var p, run := ShortSessionsDrain(us, len);
      assert !IsAccepted(p, us, run, |run| - 1);
    } else {
      forall p: Pair, run: seq<Move>, k: nat |
        IsStart(p, us) && IsRun(p, us, run) && SessionsLast(run, len) && k < |run| && run[k].Dial?
        ensures IsAccepted(p, us, run, k)
      {
        RedialsAlwaysPass(p, us, run, k);
      }
    }
  }
}
