/** The content dedup ring, and why it is a least-recently-fresh list. */
module Dedup {
  import opened Basics

  const DEDUP_CAPACITY: nat := 50
  const ECHO_WINDOW_MS: nat := 5000

  /** `seenAt` is the wall-clock time of the last fresh sighting, `None` for entries seeded from saved history. */
  datatype Entry = Entry(hash: Id, seenAt: Option<nat>)

  /** Oldest first. */
  datatype Ring = Ring(capacity: nat, entries: seq<Entry>)

  /** Index of the first entry with this hash. */
  function Position(entries: seq<Entry>, hash: Id): (r: Option<nat>)
    ensures r.Some? ==> r.value < |entries| && entries[r.value].hash == hash
    ensures r.Some? ==> forall i :: 0 <= i < r.value ==> entries[i].hash != hash
    ensures r.None? ==> forall i :: 0 <= i < |entries| ==> entries[i].hash != hash
  {
    if entries == [] then None
    else if entries[0].hash == hash then Some(0)
    else
      match Position(entries[1..], hash)
      case None => None
      case Some(i) => Some(i + 1)
  }

  predicate Contains(r: Ring, hash: Id) { Position(r.entries, hash).Some? }

  function Pushed(r: Ring, e: Entry): Ring {
    if |r.entries| == r.capacity && r.entries != [] then r.(entries := r.entries[1..] + [e])
    else r.(entries := r.entries + [e])
  }

  predicate IsRecent(e: Entry, now: nat) { e.seenAt.Some? && SaturatingSub(now, e.seenAt.value) < ECHO_WINDOW_MS }

  /** An echo: the newest entry, or one sighted inside the echo window. */
  predicate IsEcho(r: Ring, hash: Id, now: nat) {
    match Position(r.entries, hash)
    case None => false
    case Some(pos) => pos + 1 == |r.entries| || IsRecent(r.entries[pos], now)
  }

  /** `entries` without its first entry of this hash. */
  function Without(entries: seq<Entry>, hash: Id): (r: seq<Entry>)
    ensures |entries| - 1 <= |r| <= |entries|
  {
    if entries == [] then []
    else if entries[0].hash == hash then entries[1..]
    else [entries[0]] + Without(entries[1..], hash)
  }

  /** The ring after a plain observation; nothing changes when the hash is held. */
  function Observed(r: Ring, hash: Id): Ring {
    if Contains(r, hash) then r else Pushed(r, Entry(hash, None))
  }

  /** The ring after a clipboard observation; nothing changes on an echo. */
  function ClipboardObserved(r: Ring, hash: Id, now: nat): Ring {
    if IsEcho(r, hash, now) then r
    else Pushed(r.(entries := Without(r.entries, hash)), Entry(hash, Some(now)))
  }

  class DedupRing {
    const capacity: nat
    var inner: seq<Entry>

    function View(): Ring reads this { Ring(capacity, inner) }

    constructor (capacity: nat)
      ensures View() == Ring(capacity, [])
    {
      this.capacity := capacity;
      inner := [];
    }

    method Observe(hash: Id) returns (isNew: bool)
      modifies this
      ensures isNew == !Contains(old(View()), hash)
      ensures View() == Observed(old(View()), hash)
    {
      if Contains(View(), hash) {
        return false;
      }
      Push(Entry(hash, None));
      return true;
    }

    method ObserveClipboard(hash: Id, now: nat) returns (isNew: bool)
      modifies this
      ensures isNew == !IsEcho(old(View()), hash, now)
      ensures View() == ClipboardObserved(old(View()), hash, now)
    {
      var at := Position(inner, hash);
      if at.Some? {
        var pos := at.value;
        var newest := pos + 1 == |inner|;
        var recent := IsRecent(inner[pos], now);
        if newest || recent {
          return false;
        }
        WithoutAt(inner, hash, pos);
        inner := inner[..pos] + inner[pos + 1..];
      } else {
        WithoutAt(inner, hash, |inner|);
      }
      Push(Entry(hash, Some(now)));
      return true;
    }

    method Push(entry: Entry)
      modifies this
      ensures View() == Pushed(old(View()), entry)
    {
      if |inner| == capacity && inner != [] {
        inner := inner[1..];
      }
      inner := inner + [entry];
    }
  }

  /** Removing at the first position of a hash. */
  lemma {:induction false} WithoutAt(s: seq<Entry>, hash: Id, i: nat)
    requires i <= |s| && (forall k :: 0 <= k < i ==> s[k].hash != hash) && (i < |s| ==> s[i].hash == hash)
    ensures Without(s, hash) == if i < |s| then s[..i] + s[i + 1..] else s
  {
    if s != [] && i > 0 {
      WithoutAt(s[1..], hash, i - 1);
      assert s == [s[0]] + s[1..];
      if i < |s| { assert s[..i] == [s[0]] + s[1..][..i - 1]; }
    }
  }

  // ── The reference: the last distinct hashes of the fresh log ────────

  datatype Observation = Seed(hash: Id) | Copy(hash: Id, now: nat)

  function Step(r: Ring, o: Observation): Ring {
    match o
    case Seed(hash) => Observed(r, hash)
    case Copy(hash, now) => ClipboardObserved(r, hash, now)
  }

  predicate IsFreshIn(r: Ring, o: Observation) {
    match o
    case Seed(hash) => !Contains(r, hash)
    case Copy(hash, now) => !IsEcho(r, hash, now)
  }

  function EntryOf(o: Observation): Entry { Entry(o.hash, if o.Copy? then Some(o.now) else None) }

  /** A fresh observation moves its hash to the newest place; any other leaves the ring alone. */
  lemma StepExact(r: Ring, o: Observation)
    ensures Step(r, o) ==
            if IsFreshIn(r, o) then Pushed(r.(entries := Without(r.entries, o.hash)), EntryOf(o)) else r
  {
    if !Contains(r, o.hash) { WithoutAt(r.entries, o.hash, |r.entries|); }
  }

  function AfterRun(capacity: nat, run: seq<Observation>): Ring {
    if run == [] then Ring(capacity, []) else Step(AfterRun(capacity, run[..|run| - 1]), run[|run| - 1])
  }

  /** One entry for every observation that was judged fresh, in order. */
  function FreshLog(capacity: nat, run: seq<Observation>): seq<Entry> {
    if run == [] then []
    else
      var before, o := run[..|run| - 1], run[|run| - 1];
      FreshLog(capacity, before) + if IsFreshIn(AfterRun(capacity, before), o) then [EntryOf(o)] else []
  }

  predicate HasHash(log: seq<Entry>, hash: Id) { exists i :: 0 <= i < |log| && log[i].hash == hash }

  /** The last entry of every hash, in the order of those last entries. */
  function LatestDistinct(log: seq<Entry>): seq<Entry> {
    if log == [] then []
    else (if HasHash(log[1..], log[0].hash) then [] else [log[0]]) + LatestDistinct(log[1..])
  }

  ghost predicate DistinctHashes(s: seq<Entry>) {
    forall i, j :: 0 <= i < j < |s| ==> s[i].hash != s[j].hash
  }

  lemma LatestDistinctStep(first: Entry, tail: seq<Entry>)
    ensures LatestDistinct([first] + tail) ==
            if HasHash(tail, first.hash) then LatestDistinct(tail) else [first] + LatestDistinct(tail)
  {
    assert ([first] + tail)[1..] == tail;
  }

  lemma HasHashFirst(first: Entry, rest: seq<Entry>, hash: Id)
    ensures HasHash([first] + rest, hash) <==> first.hash == hash || HasHash(rest, hash)
  {
    var all := [first] + rest;
    assert all[0] == first;
    if i :| 0 <= i < |rest| && rest[i].hash == hash {
      assert all[i + 1].hash == hash;
    }
  }

  lemma {:induction false} LatestKeepsHashes(log: seq<Entry>, hash: Id)
    ensures HasHash(LatestDistinct(log), hash) <==> HasHash(log, hash)
  {
    if log != [] {
      var first, tail := log[0], log[1..];
      assert log == [first] + tail;
      LatestDistinctStep(first, tail);
      LatestKeepsHashes(tail, hash);
      HasHashFirst(first, tail, hash);
      HasHashFirst(first, LatestDistinct(tail), hash);
    }
  }

  lemma {:induction false} LatestDistinctHashes(log: seq<Entry>)
    ensures DistinctHashes(LatestDistinct(log))
  {
    if log != [] {
      var first, tail := log[0], log[1..];
      var rest := LatestDistinct(tail);
      assert log == [first] + tail;
      LatestDistinctStep(first, tail);
      LatestDistinctHashes(tail);
      LatestKeepsHashes(tail, first.hash);
      if !HasHash(tail, first.hash) {
        forall i | 0 <= i < |rest| ensures rest[i].hash != first.hash {}
      }
    }
  }

  lemma HasHashAppend(log: seq<Entry>, e: Entry, hash: Id)
    ensures HasHash(log + [e], hash) <==> HasHash(log, hash) || e.hash == hash
  {
    assert (log + [e])[|log|] == e;
    if i :| 0 <= i < |log| && log[i].hash == hash {
      assert (log + [e])[i].hash == hash;
    }
  }

  lemma WithoutFirst(first: Entry, rest: seq<Entry>, hash: Id)
    ensures Without([first] + rest, hash) == if first.hash == hash then rest else [first] + Without(rest, hash)
  {
    assert ([first] + rest)[1..] == rest;
  }

  lemma {:induction false} WithoutAbsent(s: seq<Entry>, hash: Id)
    requires !HasHash(s, hash)
    ensures Without(s, hash) == s
  {
    if s != [] {
      assert s == [s[0]] + s[1..];
      HasHashFirst(s[0], s[1..], hash);
      WithoutAbsent(s[1..], hash);
    }
  }

  /** A fresh entry replaces the earlier entry of its hash and goes last. */
  lemma {:induction false} LatestDistinctAppend(log: seq<Entry>, e: Entry)
    ensures LatestDistinct(log + [e]) == Without(LatestDistinct(log), e.hash) + [e]
  {
    hide HasHash, Without, LatestDistinct;
    if log == [] {
      LatestDistinctOne(e);
    } else {
      var first, tail := log[0], log[1..];
      var rest := LatestDistinct(tail);
      assert log == [first] + tail && log + [e] == [first] + (tail + [e]);
      LatestDistinctStep(first, tail);
      LatestDistinctStep(first, tail + [e]);
      HasHashAppend(tail, e, first.hash);
      LatestDistinctAppend(tail, e);
      WithoutFirst(first, rest, e.hash);
      if !HasHash(tail, first.hash) {
        if first.hash == e.hash {
          AbsentFromLatest(tail, e.hash);
        } else {
          ConcatAssociates([first], Without(rest, e.hash), [e]);
        }
      }
    }
  }

  lemma LatestDistinctOne(e: Entry)
    ensures LatestDistinct([] + [e]) == Without(LatestDistinct([]), e.hash) + [e]
  {
    assert [] + [e] == [e] + [];
    LatestDistinctStep(e, []);
  }

  lemma AbsentFromLatest(log: seq<Entry>, hash: Id)
    requires !HasHash(log, hash)
    ensures Without(LatestDistinct(log), hash) == LatestDistinct(log)
  {
    LatestKeepsHashes(log, hash);
    WithoutAbsent(LatestDistinct(log), hash);
  }

  /** Removing the first entry of a hash touches only the part that holds it. */
  lemma {:induction false} WithoutAppend(front: seq<Entry>, back: seq<Entry>, hash: Id)
    ensures Without(front + back, hash) ==
            if HasHash(front, hash) then Without(front, hash) + back else front + Without(back, hash)
  {
    if front == [] {
      assert front + back == back;
    } else {
      var first, rest := front[0], front[1..];
      assert front == [first] + rest && front + back == [first] + (rest + back);
      WithoutFirst(first, rest + back, hash);
      HasHashFirst(first, rest, hash);
      WithoutAppend(rest, back, hash);
      if first.hash != hash {
        ConcatAssociates([first], Without(rest, hash), back);
        ConcatAssociates([first], rest, Without(back, hash));
      }
    }
  }

  lemma ConcatAssociates(a: seq<Entry>, b: seq<Entry>, c: seq<Entry>)
    ensures a + b + c == a + (b + c)
  {
  }

  /** Cutting the oldest entries commutes with recording one more. */
  lemma PushKeepsLast(all: seq<Entry>, capacity: nat, e: Entry)
    requires capacity >= 1 && DistinctHashes(all)
    ensures var ring := Ring(capacity, LastN(all, capacity));
            Pushed(ring.(entries := Without(ring.entries, e.hash)), e).entries ==
            LastN(Without(all, e.hash) + [e], capacity)
  {
    var cut := if |all| <= capacity then 0 else |all| - capacity;
    var front, kept := all[..cut], all[cut..];
    assert LastN(all, capacity) == kept && all == front + kept;
    WithoutAppend(front, kept, e.hash);
    if HasHash(front, e.hash) {
      HeldOnce(front, kept, e.hash);
      LastNOfPush(Without(front, e.hash), kept, e, capacity);
    } else {
      LastNOfPush(front, Without(kept, e.hash), e, capacity);
    }
  }

  lemma HeldOnce(front: seq<Entry>, back: seq<Entry>, hash: Id)
    requires DistinctHashes(front + back) && HasHash(front, hash)
    ensures Without(back, hash) == back
  {
    var i :| 0 <= i < |front| && front[i].hash == hash;
    forall j | 0 <= j < |back| ensures back[j].hash != hash {
      assert (front + back)[i] == front[i] && (front + back)[|front| + j] == back[j];
    }
    WithoutAbsent(back, hash);
  }

  lemma LastNOfPush(front: seq<Entry>, ring: seq<Entry>, e: Entry, n: nat)
    requires n >= 1 && |ring| <= n && (front == [] || |ring| >= n - 1)
    ensures LastN(front + ring + [e], n) == Pushed(Ring(n, ring), e).entries
  {
    if |ring| == n {
      assert front + ring + [e] == front + [ring[0]] + (ring[1..] + [e]);
    } else {
      assert front + ring + [e] == front + (ring + [e]);
    }
  }

  lemma LastNDistinct(all: seq<Entry>, n: nat)
    requires DistinctHashes(all)
    ensures DistinctHashes(LastN(all, n))
  {
  }

  /** The ring always holds the last `capacity` distinct hashes, ordered by their latest fresh sighting. */
  lemma {:induction false} RingIsLatestDistinct(capacity: nat, run: seq<Observation>)
    requires capacity >= 1
    ensures AfterRun(capacity, run) == Ring(capacity, LastN(LatestDistinct(FreshLog(capacity, run)), capacity))
    ensures DistinctHashes(AfterRun(capacity, run).entries)
  {
    if run != [] {
      var before, o := run[..|run| - 1], run[|run| - 1];
      var ring, log := AfterRun(capacity, before), FreshLog(capacity, before);
      RingIsLatestDistinct(capacity, before);
      StepExact(ring, o);
      if IsFreshIn(ring, o) {
        LatestDistinctHashes(log);
        LatestDistinctAppend(log, EntryOf(o));
        PushKeepsLast(LatestDistinct(log), capacity, EntryOf(o));
      } else {
        assert FreshLog(capacity, run) == log;
      }
    }
    LatestDistinctHashes(FreshLog(capacity, run));
    LastNDistinct(LatestDistinct(FreshLog(capacity, run)), capacity);
  }

  lemma LatestDistinctNewest(log: seq<Entry>)
    requires log != []
    ensures var latest := LatestDistinct(log); latest != [] && latest[|latest| - 1] == log[|log| - 1]
  {
    var last := log[|log| - 1];
    assert log == log[..|log| - 1] + [last];
    LatestDistinctAppend(log[..|log| - 1], last);
  }

  lemma NothingLatest()
    ensures LatestDistinct([]) == []
  {
  }

  lemma EchoInRing(r: Ring, hash: Id, now: nat)
    requires DistinctHashes(r.entries)
    ensures IsEcho(r, hash, now) <==>
              || (r.entries != [] && r.entries[|r.entries| - 1].hash == hash)
              || exists e <- r.entries :: e.hash == hash && IsRecent(e, now)
  {
    forall i | 0 <= i < |r.entries| && r.entries[i].hash == hash ensures Position(r.entries, hash) == Some(i) {}
  }

  /** A copy is an echo iff it repeats the last fresh item, or its hash is held with a fresh time inside the window. */
  lemma EchoExact(capacity: nat, run: seq<Observation>, hash: Id, now: nat)
    requires capacity >= 1
    ensures var log := FreshLog(capacity, run);
            IsEcho(AfterRun(capacity, run), hash, now) <==>
              || (log != [] && log[|log| - 1].hash == hash)
              || exists e <- LastN(LatestDistinct(log), capacity) ::
                   e.hash == hash && e.seenAt.Some? && now < e.seenAt.value + 5000
  {
    hide AfterRun, FreshLog, LatestDistinct, IsEcho;
    RingIsLatestDistinct(capacity, run);
    EchoInRing(AfterRun(capacity, run), hash, now);
    NothingLatest();
    if FreshLog(capacity, run) != [] {
      LatestDistinctNewest(FreshLog(capacity, run));
    }
  }
}
