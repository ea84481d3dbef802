/** The per-source handshake limiter: a token bucket for each source, in a bounded table that forgets idle ones. */
module RateLimit {
  import opened Basics

  /** Instants and durations are in nanoseconds; a bucket regains one unit in each, so one token is one interval. */
  const MS: nat := 1_000_000
  const REFILL_INTERVAL: nat := 6_000 * MS
  const TOKEN: nat := REFILL_INTERVAL
  const BUCKET_CAPACITY: nat := 5
  const CAPACITY: nat := BUCKET_CAPACITY * TOKEN
  const MAX_TRACKED_SOURCES: nat := 1024
  const IDLE_EVICT: nat := 300_000 * MS

  type Source = Bytes

  datatype Bucket = Bucket(tokens: nat, lastRefill: nat)

  type Table = map<Source, Bucket>

  function Full(now: nat): Bucket { Bucket(CAPACITY, now) }

  function Refilled(b: Bucket, now: nat): Bucket {
    Bucket(Min(b.tokens + SaturatingSub(now, b.lastRefill), CAPACITY), now)
  }

  function Swept(t: Table, now: nat): Table {
    map k | k in t && SaturatingSub(now, t[k].lastRefill) < IDLE_EVICT :: t[k]
  }

  /** A bucket that was used longest ago. */
  ghost predicate IsVictim(t: Table, victim: Source) {
    victim in t && forall k :: k in t ==> t[victim].lastRefill <= t[k].lastRefill
  }

  /** No room for one more source. */
  predicate NeedsVictim(t: Table, src: Source) { src !in t && |t| >= MAX_TRACKED_SOURCES }

  /** Refills the source's bucket and takes one token when there is one. */
  function Charged(t: Table, src: Source, now: nat): (Table, bool) {
    var b := Refilled(if src in t then t[src] else Full(now), now);
    if b.tokens >= TOKEN then (t[src := b.(tokens := b.tokens - TOKEN)], true) else (t[src := b], false)
  }

  /** One check, with the entry that makes room when there is none. */
  function Checked(t: Table, src: Source, now: nat, victim: Source): (Table, bool) {
    var swept := Swept(t, now);
    Charged(if NeedsVictim(swept, src) then swept - {victim} else swept, src, now)
  }

  class HandshakeRateLimiter {
    var buckets: Table

    constructor ()
      ensures buckets == map[]
    {
      buckets := map[];
    }

    method CheckAt(src: Source, now: nat) returns (ok: bool)
      modifies this
      ensures var swept := Swept(old(buckets), now);
              if NeedsVictim(swept, src)
              then exists victim :: IsVictim(swept, victim) && (buckets, ok) == Checked(old(buckets), src, now, victim)
              else (buckets, ok) == Charged(swept, src, now)
    {
      Sweep(now);
      if src !in buckets && |buckets| >= MAX_TRACKED_SOURCES {
        var victim := OldestSeen();
        buckets := buckets - {victim};
      }
      var bucket := if src in buckets then buckets[src] else Full(now);
      bucket := Refilled(bucket, now);
      if bucket.tokens >= TOKEN {
        bucket := bucket.(tokens := bucket.tokens - TOKEN);
        ok := true;
      } else {
        ok := false;
      }
      buckets := buckets[src := bucket];
    }

    method Sweep(now: nat)
      modifies this
      ensures buckets == Swept(old(buckets), now)
    {
      buckets := map k | k in buckets && SaturatingSub(now, buckets[k].lastRefill) < IDLE_EVICT :: buckets[k];
    }

    method OldestSeen() returns (victim: Source)
      requires buckets != map[]
      ensures IsVictim(buckets, victim)
    {
      assert buckets.Keys != {};
      var left := buckets.Keys;
      victim :| victim in left;
      while left != {}
        invariant left <= buckets.Keys && victim in buckets
        invariant forall k :: k in buckets && k !in left ==> buckets[victim].lastRefill <= buckets[k].lastRefill
        decreases |left|
      {
        var k :| k in left;
        if buckets[k].lastRefill < buckets[victim].lastRefill {
          victim := k;
        }
        left := left - {k};
      }
    }
  }

  // ── Runs ────────────────────────────────────────────────────────────

  /** One handshake attempt; `victim` is the entry dropped if the table has no room. */
  datatype Attempt = Attempt(src: Source, now: nat, victim: Source)

  function After(t: Table, run: seq<Attempt>): Table {
    if run == [] then t
    else
      var last := run[|run| - 1];
      Checked(After(t, run[..|run| - 1]), last.src, last.now, last.victim).0
  }

  function Verdicts(t: Table, run: seq<Attempt>): (r: seq<bool>)
    ensures |r| == |run|
  {
    if run == [] then []
    else
      var before, last := run[..|run| - 1], run[|run| - 1];
      Verdicts(t, before) + [Checked(After(t, before), last.src, last.now, last.victim).1]
  }

  /** The clock never runs backwards, from `start` on. */
  ghost predicate IsMonotone(start: nat, run: seq<Attempt>) {
    && (forall i :: 0 <= i < |run| ==> start <= run[i].now)
    && forall i, j :: 0 <= i < j < |run| ==> run[i].now <= run[j].now
  }

  /** The `i`-th attempt drops an entry. */
  predicate DropsAt(t: Table, run: seq<Attempt>, i: nat)
    requires i < |run|
  {
    NeedsVictim(Swept(After(t, run[..i]), run[i].now), run[i].src)
  }

  /** Whenever an entry is dropped, it is one that was used longest ago. */
  ghost predicate IsRun(start: nat, t: Table, run: seq<Attempt>) {
    && IsMonotone(start, run)
    && forall i :: 0 <= i < |run| && DropsAt(t, run, i) ==>
         IsVictim(Swept(After(t, run[..i]), run[i].now), run[i].victim)
  }

  lemma RunPrefix(start: nat, t: Table, run: seq<Attempt>)
    requires run != [] && IsRun(start, t, run)
    ensures IsRun(start, t, run[..|run| - 1])
  {
    hide After, Swept, NeedsVictim, IsVictim;
    var before := run[..|run| - 1];
    assert IsMonotone(start, before);
    forall i | 0 <= i < |before| && DropsAt(t, before, i)
      ensures IsVictim(Swept(After(t, before[..i]), before[i].now), before[i].victim)
    {
      assert before[..i] == run[..i] && before[i] == run[i];
      assert DropsAt(t, run, i);
    }
  }

  /** The instant of the last attempt. */
  function LastTime(start: nat, run: seq<Attempt>): nat { if run == [] then start else run[|run| - 1].now }

  // ── The table is bounded ────────────────────────────────────────────

  lemma ChargedSize(t: Table, src: Source, now: nat)
    ensures |Charged(t, src, now).0| == |t| + if src in t then 0 else 1
  {
    assert Charged(t, src, now).0.Keys == t.Keys + {src};
    assert |t.Keys + {src}| == |t.Keys| + if src in t then 0 else 1;
  }

  /** The table never tracks more than 1024 sources. */
  lemma {:induction false} TableIsBounded(start: nat, run: seq<Attempt>)
    requires IsRun(start, map[], run)
    ensures |After(map[], run)| <= 1024
  {
    if run != [] {
      var before, last := run[..|run| - 1], run[|run| - 1];
      RunPrefix(start, map[], run);
      TableIsBounded(start, before);
      var swept := Swept(After(map[], before), last.now);
      FewerKeys(After(map[], before), swept);
      ChargedSize(swept, last.src, last.now);
      if NeedsVictim(swept, last.src) {
        assert DropsAt(map[], run, |run| - 1);
        var room := swept - {last.victim};
        assert room.Keys == swept.Keys - {last.victim};
        assert |room.Keys| == |swept.Keys| - 1;
        ChargedSize(room, last.src, last.now);
      }
    }
  }

  // ── What a source has left ──────────────────────────────────────────

  /** Units a source would have at `now`; an unknown source has a full bucket. */
  function Available(t: Table, src: Source, now: nat): nat {
    if src in t then Refilled(t[src], now).tokens else CAPACITY
  }

  /** No bucket is overfull, or from the future. */
  ghost predicate IsSound(t: Table, now: nat) { forall k :: k in t ==> t[k].tokens <= CAPACITY && t[k].lastRefill <= now }

  /** The check drops this source's bucket to make room for another. */
  predicate IsDropped(t: Table, src: Source, now: nat, victim: Source, who: Source) {
    NeedsVictim(Swept(t, now), src) && victim == who && who != src
  }

  /** A source passes iff it has a token left, which is then taken; no other source notices, except one that is dropped
      and so starts afresh. Being swept changes nothing: an idle bucket is full. */
  lemma CheckedAvailable(t: Table, now0: nat, src: Source, now: nat, victim: Source, who: Source)
    requires IsSound(t, now0) && now0 <= now
    ensures var (t', ok) := Checked(t, src, now, victim);
            && IsSound(t', now)
            && (src == who ==> (ok <==> Available(t, who, now) >= TOKEN))
            && Available(t', who, now) ==
               if IsDropped(t, src, now, victim, who) then CAPACITY
               else if src == who && ok then Available(t, who, now) - TOKEN
               else Available(t, who, now)
  {
  }

  /** A check forgets exactly the sources that were idle for five minutes, and the dropped one, and touches no other.
      The source of the check gets one unit for each nanosecond since its last one, up to five tokens of six seconds
      each (an unknown one has them all), and passes iff that makes a token, which it then pays. */
  lemma CheckExact(t: Table, src: Source, now: nat, victim: Source)
    ensures var (t', ok) := Checked(t, src, now, victim);
            var had := if src in t then Min(t[src].tokens + Max(now - t[src].lastRefill, 0), 30_000_000_000)
                       else 30_000_000_000;
            && (ok <==> had >= 6_000_000_000)
            && src in t' && t'[src] == Bucket(if ok then had - 6_000_000_000 else had, now)
            && forall k :: k != src ==>
                 && (k in t' <==> k in t && now - t[k].lastRefill < 300_000_000_000
                                  && !IsDropped(t, src, now, victim, k))
                 && (k in t' ==> t'[k] == t[k])
  {
  }

  /** A drop happens only to a full table that does not know the source. */
  lemma DropsAreForced(t: Table, src: Source, now: nat, victim: Source, who: Source)
    ensures IsDropped(t, src, now, victim, who) <==>
            var alive := map k | k in t && now - t[k].lastRefill < 300_000_000_000 :: t[k];
            src !in alive && |alive| >= 1024 && victim == who && who != src
  {
    assert Swept(t, now) == map k | k in t && now - t[k].lastRefill < 300_000_000_000 :: t[k];
  }

  /** A bucket fills by one unit in each nanosecond, up to its capacity. */
  lemma AvailableLater(t: Table, who: Source, now0: nat, now: nat)
    requires IsSound(t, now0) && now0 <= now
    ensures Available(t, who, now) == Min(Available(t, who, now0) + (now - now0), CAPACITY)
  {
  }

  lemma {:induction false} AlwaysSound(start: nat, t: Table, run: seq<Attempt>)
    requires IsSound(t, start) && IsMonotone(start, run)
    ensures IsSound(After(t, run), LastTime(start, run))
  {
    if run != [] {
      var before, last := run[..|run| - 1], run[|run| - 1];
      MonotonePrefix(start, run);
      AlwaysSound(start, t, before);
      CheckedAvailable(After(t, before), LastTime(start, before), last.src, last.now, last.victim, last.src);
    }
  }

  lemma MonotonePrefix(start: nat, run: seq<Attempt>)
    requires run != [] && IsMonotone(start, run)
    ensures IsMonotone(start, run[..|run| - 1]) && LastTime(start, run[..|run| - 1]) <= run[|run| - 1].now
  {
  }

  // ── The rate is bounded ─────────────────────────────────────────────

  /** How many attempts of this source pass. */
  function Passes(t: Table, run: seq<Attempt>, who: Source): nat {
    if run == [] then 0
    else
      var n := |run| - 1;
      Passes(t, run[..n], who) + if run[n].src == who && Verdicts(t, run)[n] then 1 else 0
  }

  /** How often this source's bucket is dropped to make room for another. */
  function Drops(t: Table, run: seq<Attempt>, who: Source): nat {
    if run == [] then 0
    else
      var before, last := run[..|run| - 1], run[|run| - 1];
      Drops(t, before, who) + if IsDropped(After(t, before), last.src, last.now, last.victim, who) then 1 else 0
  }

  lemma BudgetStep(t: Table, now0: nat, a: Attempt, who: Source)
    requires IsSound(t, now0) && now0 <= a.now
    ensures var (t', ok) := Checked(t, a.src, a.now, a.victim);
            Available(t', who, a.now) + (if a.src == who && ok then TOKEN else 0) <=
            Available(t, who, now0) + (a.now - now0) + if IsDropped(t, a.src, a.now, a.victim, who) then CAPACITY else 0
  {
    hide Checked, Available, IsSound, IsDropped;
    CheckedAvailable(t, now0, a.src, a.now, a.victim, who);
    AvailableLater(t, who, now0, a.now);
  }

  /** What the passes of a source cost. */
  function Spent(t: Table, run: seq<Attempt>, who: Source): int { Passes(t, run, who) * TOKEN }

  /** What dropping its bucket gave a source. */
  function Gained(t: Table, run: seq<Attempt>, who: Source): int { Drops(t, run, who) * CAPACITY }

  /** What a source spends and has left is what it had, what time gave it, and a full bucket for every drop. */
  lemma {:induction false} Budget(start: nat, t: Table, run: seq<Attempt>, who: Source)
    requires IsSound(t, start) && IsMonotone(start, run)
    ensures Spent(t, run, who) + Available(After(t, run), who, LastTime(start, run)) <=
            Available(t, who, start) + (LastTime(start, run) - start) + Gained(t, run, who)
  {
    hide Checked, Available, IsSound, IsDropped, IsMonotone, Spent, Gained;
    NothingSpent(t, who);
    if run != [] {
      var n := |run| - 1;
      MonotonePrefix(start, run);
      AlwaysSound(start, t, run[..n]);
      Budget(start, t, run[..n], who);
      BudgetStep(After(t, run[..n]), LastTime(start, run[..n]), run[n], who);
      OneMore(t, run, who);
    }
  }

  lemma NothingSpent(t: Table, who: Source)
    ensures Spent(t, [], who) == 0 && Gained(t, [], who) == 0
  {
  }

  lemma OneMore(t: Table, run: seq<Attempt>, who: Source)
    requires run != []
    ensures var n := |run| - 1;
            var s := After(t, run[..n]);
            && After(t, run) == Checked(s, run[n].src, run[n].now, run[n].victim).0
            && Spent(t, run, who) == Spent(t, run[..n], who)
               + (if run[n].src == who && Checked(s, run[n].src, run[n].now, run[n].victim).1 then TOKEN else 0)
            && Gained(t, run, who) == Gained(t, run[..n], who)
               + (if IsDropped(s, run[n].src, run[n].now, run[n].victim, who) then CAPACITY else 0)
  {
    hide Checked, IsDropped, Passes, Drops;
    OneMoreCount(t, run, who);
    TimesNext(Passes(t, run[..|run| - 1], who), TOKEN);
    TimesNext(Drops(t, run[..|run| - 1], who), CAPACITY);
  }

  lemma OneMoreCount(t: Table, run: seq<Attempt>, who: Source)
    requires run != []
    ensures var n := |run| - 1;
            var s := After(t, run[..n]);
            && Passes(t, run, who) == Passes(t, run[..n], who)
               + (if run[n].src == who && Checked(s, run[n].src, run[n].now, run[n].victim).1 then 1 else 0)
            && Drops(t, run, who) == Drops(t, run[..n], who)
               + (if IsDropped(s, run[n].src, run[n].now, run[n].victim, who) then 1 else 0)
  {
    hide Checked, IsDropped;
  }

  lemma TimesNext(n: nat, k: nat)
    ensures (n + 1) * k == n * k + k && (n + 0) * k == n * k
  {
  }

  lemma Tokens(passes: nat, time: nat, drops: nat)
    requires passes * TOKEN <= CAPACITY + time + drops * CAPACITY
    ensures passes <= BUCKET_CAPACITY * (1 + drops) + time / REFILL_INTERVAL
  {
    var left := passes - BUCKET_CAPACITY * (1 + drops);
    assert left * TOKEN <= time;
  }

  /** In any interval of any run, a source passes at most five times, once more for every six seconds of the interval,
      and five times more for every time its bucket was dropped to make room. The attempts from the `n`-th on are the
      ones that fall into the interval; nothing is asked of the time since the attempt before them. */
  lemma RateIsBounded(start: nat, run: seq<Attempt>, n: nat, from: nat, to: nat, who: Source)
    requires IsMonotone(start, run) && n <= |run|
    requires LastTime(start, run[..n]) <= from <= to
    requires forall i :: n <= i < |run| ==> from <= run[i].now <= to
    ensures var t := After(map[], run[..n]);
            Passes(t, run[n..], who) <= 5 * (1 + Drops(t, run[n..], who)) + (to - from) / 6_000_000_000
  {
    hide Passes, Drops, After, IsSound;
    var head, tail := run[..n], run[n..];
    assert IsMonotone(start, head) && IsMonotone(from, tail);
    EmptyIsSound(start);
    AlwaysSound(start, map[], head);
    SoundLater(After(map[], head), LastTime(start, head), from);
    Budget(from, After(map[], head), tail, who);
    AvailableAtMost(After(map[], head), who, from);
    assert LastTime(from, tail) <= to;
    Tokens(Passes(After(map[], head), tail, who), to - from, Drops(After(map[], head), tail, who));
  }

  lemma SoundLater(t: Table, now0: nat, now: nat)
    requires IsSound(t, now0) && now0 <= now
    ensures IsSound(t, now)
  {
  }

  lemma EmptyIsSound(start: nat)
    ensures IsSound(map[], start)
  {
  }

  lemma AvailableAtMost(t: Table, who: Source, now: nat)
    ensures Available(t, who, now) <= CAPACITY
  {
  }

  // ── Forgetting is invisible ─────────────────────────────────────────

  /** The same limiter without the sweep and without a bound: it never forgets a source. */
  function Remembered(t: Table, run: seq<Attempt>): Table {
    if run == [] then t
    else
      var last := run[|run| - 1];
      Charged(Remembered(t, run[..|run| - 1]), last.src, last.now).0
  }

  function RememberedVerdicts(t: Table, run: seq<Attempt>): (r: seq<bool>)
    ensures |r| == |run|
  {
    if run == [] then []
    else
      var before, last := run[..|run| - 1], run[|run| - 1];
      RememberedVerdicts(t, before) + [Charged(Remembered(t, before), last.src, last.now).1]
  }

  lemma ChargedAvailable(t: Table, now0: nat, src: Source, now: nat, who: Source)
    requires IsSound(t, now0) && now0 <= now
    ensures var (t', ok) := Charged(t, src, now);
            && IsSound(t', now)
            && (src == who ==> (ok <==> Available(t, who, now) >= TOKEN))
            && Available(t', who, now) == Available(t, who, now) - if src == who && ok then TOKEN else 0
  {
  }

  ghost predicate SameAvailable(t: Table, r: Table, now: nat) { forall who :: Available(t, who, now) == Available(r, who, now) }

  lemma SameStep(t: Table, r: Table, now0: nat, a: Attempt)
    requires IsSound(t, now0) && IsSound(r, now0) && now0 <= a.now && SameAvailable(t, r, now0)
    requires !NeedsVictim(Swept(t, a.now), a.src)
    ensures Checked(t, a.src, a.now, a.victim).1 == Charged(r, a.src, a.now).1
    ensures IsSound(Charged(r, a.src, a.now).0, a.now)
    ensures SameAvailable(Checked(t, a.src, a.now, a.victim).0, Charged(r, a.src, a.now).0, a.now)
  {
    hide Checked, Charged, Available, IsSound;
    forall who: Source
      ensures Available(Checked(t, a.src, a.now, a.victim).0, who, a.now) == Available(Charged(r, a.src, a.now).0, who, a.now)
    {
      CheckedAvailable(t, now0, a.src, a.now, a.victim, who);
      ChargedAvailable(r, now0, a.src, a.now, who);
      AvailableLater(t, who, now0, a.now);
      AvailableLater(r, who, now0, a.now);
      if a.src != who {
        SameVerdict(t, r, now0, a);
      }
    }
    SameVerdict(t, r, now0, a);
    ChargedAvailable(r, now0, a.src, a.now, a.src);
  }

  lemma SameVerdict(t: Table, r: Table, now0: nat, a: Attempt)
    requires IsSound(t, now0) && IsSound(r, now0) && now0 <= a.now && SameAvailable(t, r, now0)
    ensures Checked(t, a.src, a.now, a.victim).1 == Charged(r, a.src, a.now).1
  {
    hide Checked, Charged, Available, IsSound;
    CheckedAvailable(t, now0, a.src, a.now, a.victim, a.src);
    ChargedAvailable(r, now0, a.src, a.now, a.src);
    AvailableLater(t, a.src, now0, a.now);
    AvailableLater(r, a.src, now0, a.now);
  }

  /** As long as the table has room, sweeping idle sources changes no verdict of any run. */
  lemma {:induction false} ForgettingIsInvisible(start: nat, run: seq<Attempt>)
    requires IsMonotone(start, run) && forall i :: 0 <= i < |run| ==> !DropsAt(map[], run, i)
    ensures Verdicts(map[], run) == RememberedVerdicts(map[], run)
    ensures IsSound(Remembered(map[], run), LastTime(start, run))
    ensures SameAvailable(After(map[], run), Remembered(map[], run), LastTime(start, run))
  {
    hide Checked, Charged, Available, IsSound;
    if run == [] {
      EmptyIsSound(start);
    } else {
      var before, last := run[..|run| - 1], run[|run| - 1];
      MonotonePrefix(start, run);
      forall i | 0 <= i < |before| ensures !DropsAt(map[], before, i) {
        assert before[..i] == run[..i] && !DropsAt(map[], run, i);
      }
      ForgettingIsInvisible(start, before);
      EmptyIsSound(start);
      AlwaysSound(start, map[], before);
      assert !DropsAt(map[], run, |run| - 1);
      SameStep(After(map[], before), Remembered(map[], before), LastTime(start, before), last);
    }
  }
}
