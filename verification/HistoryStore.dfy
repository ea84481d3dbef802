/** The on-disk history: what pruning keeps, and why saving and loading prune no more than one prune would. */
module HistoryStore {
  import opened Basics
  import History

  const U64_MAX: nat := 0xFFFF_FFFF_FFFF_FFFF
  const USIZE_MAX: nat := U64_MAX

  datatype VaultEntry = VaultEntry(item: History.HistoryItem, createdMs: nat)

  function TtlMs(secs: nat): nat { Min(secs * 1000, U64_MAX) }

  predicate IsFresh(e: VaultEntry, now: nat, ttl: nat) { SaturatingSub(now, e.createdMs) <= TtlMs(ttl) }

  /** Pruning when `used` places of the cap are taken. */
  function PrunedFrom(es: seq<VaultEntry>, now: nat, ttl: nat, cap: nat, used: nat): seq<VaultEntry> {
    if es == [] then []
    else if es[0].item.favorite then [es[0]] + PrunedFrom(es[1..], now, ttl, cap, used)
    else if !IsFresh(es[0], now, ttl) || used >= cap then PrunedFrom(es[1..], now, ttl, cap, used)
    else [es[0]] + PrunedFrom(es[1..], now, ttl, cap, used + 1)
  }

  function Pruned(es: seq<VaultEntry>, now: nat, ttl: nat, cap: nat): seq<VaultEntry> { PrunedFrom(es, now, ttl, cap, 0) }

  lemma PrunedNext(es: seq<VaultEntry>, i: nat, now: nat, ttl: nat, cap: nat, used: nat, kept: seq<VaultEntry>)
    requires i < |es|
    ensures var isKept := es[i].item.favorite || (IsFresh(es[i], now, ttl) && used < cap);
            var next := if isKept && !es[i].item.favorite then used + 1 else used;
            kept + PrunedFrom(es[i..], now, ttl, cap, used) ==
            (if isKept then kept + [es[i]] else kept) + PrunedFrom(es[i + 1..], now, ttl, cap, next)
  {
    assert es[i..][1..] == es[i + 1..];
  }

  method Prune(entries: seq<VaultEntry>, now: nat, ttl: nat, cap: nat) returns (kept: seq<VaultEntry>)
    ensures kept == Pruned(entries, now, ttl, cap)
  {
    hide PrunedFrom, IsFresh;
    kept := [];
    var used := 0;
    assert entries[0..] == entries;
    for i := 0 to |entries|
      invariant kept + PrunedFrom(entries[i..], now, ttl, cap, used) == PrunedFrom(entries, now, ttl, cap, 0)
    {
      var e := entries[i];
      PrunedNext(entries, i, now, ttl, cap, used, kept);
      if e.item.favorite {
        kept := kept + [e];
        continue;
      }
      if !IsFresh(e, now, ttl) {
        continue;
      }
      if used >= cap {
        continue;
      }
      used := used + 1;
      kept := kept + [e];
    }
    NothingKept(now, ttl, cap, used);
    assert entries[|entries|..] == [] && kept + [] == kept;
  }

  // ── What pruning keeps ──────────────────────────────────────────────

  function Pinned(es: seq<VaultEntry>): seq<VaultEntry> {
    if es == [] then [] else (if es[0].item.favorite then [es[0]] else []) + Pinned(es[1..])
  }

  function FreshOthers(es: seq<VaultEntry>, now: nat, ttl: nat): seq<VaultEntry> {
    if es == [] then []
    else (if !es[0].item.favorite && IsFresh(es[0], now, ttl) then [es[0]] else []) + FreshOthers(es[1..], now, ttl)
  }

  function Others(es: seq<VaultEntry>): seq<VaultEntry> {
    if es == [] then [] else (if es[0].item.favorite then [] else [es[0]]) + Others(es[1..])
  }

  lemma {:induction false} PrunedIsSubsequence(es: seq<VaultEntry>, now: nat, ttl: nat, cap: nat, used: nat)
    ensures IsSubsequence(PrunedFrom(es, now, ttl, cap, used), es)
  {
    if es != [] {
      var r := PrunedFrom(es, now, ttl, cap, used);
      var isKept := !es[0].item.favorite && IsFresh(es[0], now, ttl) && used < cap;
      var rest := PrunedFrom(es[1..], now, ttl, cap, if isKept then used + 1 else used);
      PrunedIsSubsequence(es[1..], now, ttl, cap, if isKept then used + 1 else used);
      if es[0].item.favorite || isKept { assert r[1..] == rest; } else { SkipFirst(rest, es); }
    }
  }

  lemma SortedOut(e: VaultEntry, es: seq<VaultEntry>, now: nat, ttl: nat)
    ensures Pinned([e] + es) == (if e.item.favorite then [e] else []) + Pinned(es)
    ensures Others([e] + es) == (if e.item.favorite then [] else [e]) + Others(es)
    ensures FreshOthers([e] + es, now, ttl) ==
            (if !e.item.favorite && IsFresh(e, now, ttl) then [e] else []) + FreshOthers(es, now, ttl)
  {
    hide IsFresh;
    assert ([e] + es)[1..] == es;
  }

  lemma {:induction false} PrunedOthers(es: seq<VaultEntry>, now: nat, ttl: nat, cap: nat, used: nat)
    ensures var r := PrunedFrom(es, now, ttl, cap, used);
            Pinned(r) == Pinned(es) && Others(r) == FirstN(FreshOthers(es, now, ttl), SaturatingSub(cap, used))
  {
    hide Pinned, Others, FreshOthers, IsFresh;
    if es == [] {
      NothingKept(now, ttl, cap, used);
    } else {
      var e, tail := es[0], es[1..];
      var isKept := !e.item.favorite && IsFresh(e, now, ttl) && used < cap;
      var next := if isKept then used + 1 else used;
      var rest := PrunedFrom(tail, now, ttl, cap, next);
      PrunedOthers(tail, now, ttl, cap, next);
      assert es == [e] + tail;
      SortedOut(e, tail, now, ttl);
      SortedOut(e, rest, now, ttl);
      if isKept { FirstNext(e, FreshOthers(tail, now, ttl), SaturatingSub(cap, used)); }
    }
  }

  lemma NothingKept(now: nat, ttl: nat, cap: nat, used: nat)
    ensures PrunedFrom([], now, ttl, cap, used) == [] && Pinned([]) == [] && Others([]) == [] && FreshOthers([], now, ttl) == []
  {
  }

  lemma FirstNext(e: VaultEntry, es: seq<VaultEntry>, n: nat)
    requires n > 0
    ensures FirstN([e] + es, n) == [e] + FirstN(es, n - 1)
  {
  }

  /** Pruning keeps every favorite, the first `cap` fresh entries among the others, and the order. */
  lemma PrunedExact(es: seq<VaultEntry>, now: nat, ttl: nat, cap: nat)
    ensures var r := Pruned(es, now, ttl, cap);
            && IsSubsequence(r, es) && Pinned(r) == Pinned(es)
            && Others(r) == FirstN(FreshOthers(es, now, ttl), cap)
  {
    PrunedIsSubsequence(es, now, ttl, cap, 0);
    PrunedOthers(es, now, ttl, cap, 0);
  }

  /** The user's retention does not end the entry: it is pinned, retention is off, or it is no older than that. */
  predicate Outlasts(e: VaultEntry, now: nat, secs: nat) {
    e.item.favorite || secs == 0 || now - e.createdMs <= secs * 1000
  }

  lemma FreshOutlasts(e: VaultEntry, now: nat, secs: nat, ttl: nat)
    requires secs <= 604_800 && now < 0xFFFF_FFFF_FFFF_FC00 && ttl == if secs == 0 then U64_MAX / 1000 else secs
    ensures e.item.favorite || IsFresh(e, now, ttl) <==> Outlasts(e, now, secs)
  {
  }

  lemma LoadedOutlasts(es: seq<VaultEntry>, now: nat, secs: nat, ttl: nat)
    requires |es| <= USIZE_MAX
    requires secs <= 604_800 && now < 0xFFFF_FFFF_FFFF_FC00 && ttl == if secs == 0 then U64_MAX / 1000 else secs
    ensures forall e :: e in Pruned(es, now, ttl, USIZE_MAX) <==> e in es && Outlasts(e, now, secs)
  {
    hide Outlasts, IsFresh;
    forall e ensures e in Pruned(es, now, ttl, USIZE_MAX) <==> e in es && Outlasts(e, now, secs) {
      KeptExact(es, now, ttl, 0, e);
      FreshOutlasts(e, now, secs, ttl);
    }
  }

  lemma {:induction false} PrunedOutlasts(es: seq<VaultEntry>, now: nat, secs: nat, ttl: nat, cap: nat, used: nat)
    requires ttl == if secs == 0 then U64_MAX / 1000 else secs
    ensures secs <= 604_800 && now < 0xFFFF_FFFF_FFFF_FC00 ==>
              forall e <- PrunedFrom(es, now, ttl, cap, used) :: e in es && Outlasts(e, now, secs)
  {
    hide Outlasts, IsFresh;
    if es != [] && secs <= 604_800 && now < 0xFFFF_FFFF_FFFF_FC00 {
      var isKept := !es[0].item.favorite && IsFresh(es[0], now, ttl) && used < cap;
      assert es == [es[0]] + es[1..];
      FreshOutlasts(es[0], now, secs, ttl);
      PrunedOutlasts(es[1..], now, secs, ttl, cap, if isKept then used + 1 else used);
    }
  }

  lemma {:induction false} KeptExact(es: seq<VaultEntry>, now: nat, ttl: nat, used: nat, e: VaultEntry)
    requires used + |es| <= USIZE_MAX
    ensures e in PrunedFrom(es, now, ttl, USIZE_MAX, used) <==> e in es && (e.item.favorite || IsFresh(e, now, ttl))
  {
    hide IsFresh;
    if es != [] {
      var isKept := !es[0].item.favorite && IsFresh(es[0], now, ttl);
      assert es == [es[0]] + es[1..];
      KeptExact(es[1..], now, ttl, if isKept then used + 1 else used, e);
    }
  }

  /** Pruning again at the same time changes nothing. */
  lemma {:induction false} PruneIsIdempotent(es: seq<VaultEntry>, now: nat, ttl: nat, cap: nat, used: nat)
    ensures var r := PrunedFrom(es, now, ttl, cap, used); PrunedFrom(r, now, ttl, cap, used) == r
  {
    if es != [] {
      var r := PrunedFrom(es, now, ttl, cap, used);
      var isKept := !es[0].item.favorite && IsFresh(es[0], now, ttl) && used < cap;
      var next := if isKept then used + 1 else used;
      PruneIsIdempotent(es[1..], now, ttl, cap, next);
      if es[0].item.favorite || isKept { assert r[1..] == PrunedFrom(es[1..], now, ttl, cap, next); }
    }
  }

  // ── Save, then load ─────────────────────────────────────────────────

  /** Newest first, favorites aside. */
  ghost predicate NewestFirst(es: seq<VaultEntry>) {
    forall i, j :: 0 <= i < j < |Others(es)| ==> Others(es)[i].createdMs >= Others(es)[j].createdMs
  }

  /** Once one of the first `n` entries is stale, so is everything behind them. */
  ghost predicate GoStaleFirst(os: seq<VaultEntry>, n: nat, now: nat, ttl: nat) {
    forall i, j :: 0 <= i < n <= j < |os| && !IsFresh(os[i], now, ttl) ==> !IsFresh(os[j], now, ttl)
  }

  lemma {:induction false} FewFresh(es: seq<VaultEntry>, now: nat, ttl: nat, n: nat)
    requires forall j :: n <= j < |Others(es)| ==> !IsFresh(Others(es)[j], now, ttl)
    ensures |FreshOthers(es, now, ttl)| <= n
  {
    if es != [] {
      var os := Others(es[1..]);
      if es[0].item.favorite {
        assert Others(es) == os;
        FewFresh(es[1..], now, ttl, n);
      } else {
        assert Others(es)[1..] == os && Others(es)[0] == es[0];
        forall j | n <= j + 1 && 0 <= j < |os| ensures !IsFresh(os[j], now, ttl) { assert os[j] == Others(es)[j + 1]; }
        FewFresh(es[1..], now, ttl, if n == 0 then 0 else n - 1);
      }
    }
  }

  /** With room for every fresh entry it does not matter how many places are taken. */
  lemma {:induction false} RoomForAll(es: seq<VaultEntry>, now: nat, ttl: nat, cap: nat, used: nat)
    requires used + 1 + |FreshOthers(es, now, ttl)| <= cap
    ensures PrunedFrom(es, now, ttl, cap, used) == PrunedFrom(es, now, ttl, cap, used + 1)
  {
    if es != [] {
      var isKept := !es[0].item.favorite && IsFresh(es[0], now, ttl);
      assert |FreshOthers(es, now, ttl)| == |FreshOthers(es[1..], now, ttl)| + if isKept then 1 else 0;
      RoomForAll(es[1..], now, ttl, cap, if isKept then used + 1 else used);
    }
  }

  lemma GoStaleTail(first: VaultEntry, os: seq<VaultEntry>, n: nat, now: nat, ttl: nat)
    requires n > 0 && GoStaleFirst([first] + os, n, now, ttl)
    ensures GoStaleFirst(os, n - 1, now, ttl)
    ensures !IsFresh(first, now, ttl) ==> forall j :: n - 1 <= j < |os| ==> !IsFresh(os[j], now, ttl)
  {
    hide IsFresh;
    var all := [first] + os;
    assert all[0] == first && forall j :: 0 <= j < |os| ==> os[j] == all[j + 1];
  }

  /** What the order says of the entries behind the first one. */
  lemma GoStaleNext(es: seq<VaultEntry>, n: nat, now: nat, ttl: nat)
    requires es != [] && GoStaleFirst(Others(es), n, now, ttl)
    ensures es[0].item.favorite ==> GoStaleFirst(Others(es[1..]), n, now, ttl)
    ensures !es[0].item.favorite && n > 0 ==> GoStaleFirst(Others(es[1..]), n - 1, now, ttl)
    ensures !es[0].item.favorite && n > 0 && !IsFresh(es[0], now, ttl) ==>
              GoStaleFirst(Others(es[1..]), n, now, ttl) && |FreshOthers(es[1..], now, ttl)| <= n - 1
  {
    hide IsFresh, FreshOthers;
    var os := Others(es[1..]);
    if es[0].item.favorite {
      assert Others(es) == os;
    } else if n > 0 {
      assert Others(es) == [es[0]] + os;
      GoStaleTail(es[0], os, n, now, ttl);
      if !IsFresh(es[0], now, ttl) { FewFresh(es[1..], now, ttl, n - 1); }
    }
  }

  /** Pruning at one time with the cap and later without it is pruning once, later, with the cap. */
  lemma {:induction false} PruneTwice(es: seq<VaultEntry>, t1: nat, ttl1: nat, t2: nat, ttl2: nat, cap: nat, used: nat, used2: nat)
    requires t1 <= t2 && ttl2 <= ttl1 && used2 + |es| <= USIZE_MAX
    requires GoStaleFirst(Others(es), SaturatingSub(cap, used), t2, ttl2)
    ensures PrunedFrom(PrunedFrom(es, t1, ttl1, cap, used), t2, ttl2, USIZE_MAX, used2) == PrunedFrom(es, t2, ttl2, cap, used)
  {
    hide GoStaleFirst, Others, FreshOthers;
    if es != [] {
      var e, tail, saved := es[0], es[1..], PrunedFrom(es, t1, ttl1, cap, used);
      GoStaleNext(es, SaturatingSub(cap, used), t2, ttl2);
      if e.item.favorite {
        PruneTwice(tail, t1, ttl1, t2, ttl2, cap, used, used2);
        assert saved[1..] == PrunedFrom(tail, t1, ttl1, cap, used);
      } else if used >= cap {
        NothingAhead(Others(tail), t2, ttl2);
        PruneTwice(tail, t1, ttl1, t2, ttl2, cap, used, used2);
      } else if !IsFresh(e, t1, ttl1) {
        PruneTwice(tail, t1, ttl1, t2, ttl2, cap, used, used2);
      } else {
        assert saved[1..] == PrunedFrom(tail, t1, ttl1, cap, used + 1);
        PruneTwice(tail, t1, ttl1, t2, ttl2, cap, used + 1, if IsFresh(e, t2, ttl2) then used2 + 1 else used2);
        if !IsFresh(e, t2, ttl2) { RoomForAll(tail, t2, ttl2, cap, used); }
      }
    }
  }

  lemma NothingAhead(os: seq<VaultEntry>, now: nat, ttl: nat)
    ensures GoStaleFirst(os, 0, now, ttl)
  {
  }

  // ── Exactly when one prune is enough ────────────────────────────────

  /** Saving and loading up to the instant `last` loses what one prune at load time loses, and no more. */
  ghost predicate LosesNoMore(es: seq<VaultEntry>, ttl: nat, cap: nat, last: nat) {
    forall t1, t2 :: 0 <= t1 <= t2 <= last ==> SavesAll(es, ttl, cap, t1, t2)
  }

  predicate SavesAll(es: seq<VaultEntry>, ttl: nat, cap: nat, t1: nat, t2: nat) {
    Pruned(Pruned(es, t1, ttl, cap), t2, ttl, USIZE_MAX) == Pruned(es, t2, ttl, cap)
  }

  /** No entry inside the cap is older than one beyond it, unless it cannot go stale before `last`. */
  ghost predicate OldestBeyond(es: seq<VaultEntry>, ttl: nat, cap: nat, last: nat) {
    forall i, j :: 0 <= i < cap <= j < |Others(es)| ==>
      Others(es)[i].createdMs >= Others(es)[j].createdMs || Others(es)[i].createdMs + TtlMs(ttl) >= last
  }

  lemma OldestGoStaleFirst(es: seq<VaultEntry>, ttl: nat, cap: nat, last: nat, now: nat)
    requires OldestBeyond(es, ttl, cap, last) && now <= last
    ensures GoStaleFirst(Others(es), cap, now, ttl)
  {
    hide Others;
  }

  lemma {:induction false} OthersAgain(es: seq<VaultEntry>, now: nat, ttl: nat)
    ensures FreshOthers(Others(es), now, ttl) == FreshOthers(es, now, ttl)
    ensures forall o <- Others(es) :: !o.item.favorite
  {
    if es != [] {
      OthersAgain(es[1..], now, ttl);
      if !es[0].item.favorite { assert Others(es)[1..] == Others(es[1..]); } else { assert Others(es) == Others(es[1..]); }
    }
  }

  lemma {:induction false} FreshAppend(a: seq<VaultEntry>, b: seq<VaultEntry>, now: nat, ttl: nat)
    ensures FreshOthers(a + b, now, ttl) == FreshOthers(a, now, ttl) + FreshOthers(b, now, ttl)
  {
    if a == [] {
      assert a + b == b;
    } else {
      assert (a + b)[1..] == a[1..] + b;
      FreshAppend(a[1..], b, now, ttl);
    }
  }

  lemma {:induction false} FreshSize(os: seq<VaultEntry>, now: nat, ttl: nat)
    requires forall o <- os :: !o.item.favorite
    ensures |FreshOthers(os, now, ttl)| <= |os|
    ensures |FreshOthers(os, now, ttl)| == |os| <==> forall o <- os :: IsFresh(o, now, ttl)
    ensures |FreshOthers(os, now, ttl)| == 0 <==> forall o <- os :: !IsFresh(o, now, ttl)
  {
    if os != [] {
      assert os == [os[0]] + os[1..];
      FreshSize(os[1..], now, ttl);
    }
  }

  /** At the beginning of time nothing is stale. */
  lemma {:induction false} AllFreshAtZero(es: seq<VaultEntry>, ttl: nat)
    ensures FreshOthers(es, 0, ttl) == Others(es)
  {
    if es != [] { AllFreshAtZero(es[1..], ttl); }
  }

  lemma FewerInside(os: seq<VaultEntry>, ttl: nat, cap: nat, i: nat, j: nat, now: nat)
    requires i < cap <= j < |os| && forall o <- os :: !o.item.favorite
    requires !IsFresh(os[i], now, ttl) && IsFresh(os[j], now, ttl)
    ensures |FreshOthers(os[..cap], now, ttl)| < cap
    ensures |FreshOthers(os[..cap], now, ttl)| < |FreshOthers(os, now, ttl)|
  {
    hide IsFresh, FreshOthers;
    var inside, beyond := os[..cap], os[cap..];
    assert os == inside + beyond;
    FreshAppend(inside, beyond, now, ttl);
    FreshSize(inside, now, ttl);
    FreshSize(beyond, now, ttl);
    assert inside[i] in inside && beyond[j - cap] in beyond;
  }

  /** How many others are left of a list that was saved at the beginning of time. */
  lemma LoadedOthers(es: seq<VaultEntry>, ttl: nat, cap: nat, now: nat)
    ensures var loaded := Pruned(Pruned(es, 0, ttl, cap), now, ttl, USIZE_MAX);
            |Others(loaded)| <= |FreshOthers(FirstN(Others(es), cap), now, ttl)|
  {
    hide Pruned, Others, FreshOthers, IsSubsequence;
    var saved := Pruned(es, 0, ttl, cap);
    PrunedExact(es, 0, ttl, cap);
    AllFreshAtZero(es, ttl);
    PrunedExact(saved, now, ttl, USIZE_MAX);
    OthersAgain(saved, now, ttl);
  }

  /** Saved too early, a stale entry holds a place of the cap that a fresh one needed. */
  lemma PlaceIsLost(es: seq<VaultEntry>, ttl: nat, cap: nat, i: nat, j: nat, now: nat)
    requires i < cap <= j < |Others(es)|
    requires !IsFresh(Others(es)[i], now, ttl) && IsFresh(Others(es)[j], now, ttl)
    ensures !SavesAll(es, ttl, cap, 0, now)
  {
    hide Pruned, IsFresh, IsSubsequence, Others, FreshOthers;
    LoadedOthers(es, ttl, cap, now);
    PrunedExact(es, now, ttl, cap);
    OthersAgain(es, now, ttl);
    FewerInside(Others(es), ttl, cap, i, j, now);
  }

  /** For one cap, saving and loading is one prune iff no entry inside the cap can go stale before one beyond it. */
  lemma LosesNoMoreExact(es: seq<VaultEntry>, ttl: nat, cap: nat, last: nat)
    requires |es| <= USIZE_MAX
    ensures LosesNoMore(es, ttl, cap, last) <==> OldestBeyond(es, ttl, cap, last)
  {
    hide Others, SavesAll;
    if OldestBeyond(es, ttl, cap, last) {
      forall t1, t2 | 0 <= t1 <= t2 <= last ensures SavesAll(es, ttl, cap, t1, t2) {
        OldestGoStaleFirst(es, ttl, cap, last, t2);
        TwiceSavesAll(es, ttl, cap, t1, t2);
      }
    } else {
      var i, j :| 0 <= i < cap <= j < |Others(es)|
        && Others(es)[i].createdMs < Others(es)[j].createdMs && Others(es)[i].createdMs + TtlMs(ttl) < last;
      var now := Others(es)[i].createdMs + TtlMs(ttl) + 1;
      PlaceIsLost(es, ttl, cap, i, j, now);
      assert !SavesAll(es, ttl, cap, 0, now);
    }
  }

  lemma TwiceSavesAll(es: seq<VaultEntry>, ttl: nat, cap: nat, t1: nat, t2: nat)
    requires |es| <= USIZE_MAX && t1 <= t2 && GoStaleFirst(Others(es), cap, t2, ttl)
    ensures SavesAll(es, ttl, cap, t1, t2)
  {
    PruneTwice(es, t1, ttl, t2, ttl, cap, 0, 0);
  }

  /** For all caps and all times, it is one prune iff the list is newest first, as the code assumes. */
  lemma NewestFirstExact(es: seq<VaultEntry>, ttl: nat)
    requires |es| <= USIZE_MAX
    ensures NewestFirst(es) <==> forall cap, last :: 0 <= cap && 0 <= last ==> LosesNoMore(es, ttl, cap, last)
  {
    hide Others, LosesNoMore;
    if NewestFirst(es) {
      forall cap, last | 0 <= cap && 0 <= last ensures LosesNoMore(es, ttl, cap, last) {
        LosesNoMoreExact(es, ttl, cap, last);
      }
    } else {
      var i, j :| 0 <= i < j < |Others(es)| && Others(es)[i].createdMs < Others(es)[j].createdMs;
      var last := Others(es)[i].createdMs + TtlMs(ttl) + 1;
      LosesNoMoreExact(es, ttl, j, last);
      assert !LosesNoMore(es, ttl, j, last);
    }
  }

  // ── The vault file ──────────────────────────────────────────────────

  /** What one write leaves: entries only its own key opens. */
  datatype Blob = Blob(key: Bytes, entries: seq<VaultEntry>)

  class Vault {
    var file: Option<Blob>
    var retentionSecs: nat

    constructor (retentionSecs: nat)
      ensures file == None && this.retentionSecs == retentionSecs
    {
      file := None;
      this.retentionSecs := retentionSecs;
    }

    method SetRetention(secs: nat)
      modifies this`retentionSecs
      ensures retentionSecs == secs
    {
      retentionSecs := secs;
    }

    function TtlSecs(): nat
      reads this
    {
      if retentionSecs == 0 then U64_MAX / 1000 else retentionSecs
    }

    /** The write replaces the file or, when it fails, leaves it as it was. */
    method Save(key: Bytes, entries: seq<VaultEntry>, now: nat, cap: nat, writes: bool) returns (ok: bool)
      modifies this`file
      ensures ok == writes
      ensures file == if writes then Some(Blob(key, Pruned(entries, now, TtlSecs(), cap))) else old(file)
      ensures writes && retentionSecs <= 604_800 && now < 0xFFFF_FFFF_FFFF_FC00 ==>
                forall e <- file.value.entries :: e in entries && Outlasts(e, now, retentionSecs)
    {
      PrunedOutlasts(entries, now, retentionSecs, TtlSecs(), cap, 0);
      var pruned := Prune(entries, now, TtlSecs(), cap);
      if !writes {
        return false;
      }
      file := Some(Blob(key, pruned));
      return true;
    }

    /** No file is no history; a file that the key does not open is an error. */
    method Load(key: Bytes, now: nat) returns (r: Option<seq<VaultEntry>>)
      ensures r == match file
                   case None => Some([])
                   case Some(b) => if b.key == key then Some(Pruned(b.entries, now, TtlSecs(), USIZE_MAX)) else None
      ensures file.Some? && r.Some? && |file.value.entries| <= USIZE_MAX
              && retentionSecs <= 604_800 && now < 0xFFFF_FFFF_FFFF_FC00 ==>
                forall e :: e in r.value <==> e in file.value.entries && Outlasts(e, now, retentionSecs)
    {
      match file {
        case None => return Some([]);
        case Some(b) =>
          if b.key != key {
            return None;
          }
          var kept := Prune(b.entries, now, TtlSecs(), USIZE_MAX);
          if |b.entries| <= USIZE_MAX && retentionSecs <= 604_800 && now < 0xFFFF_FFFF_FFFF_FC00 {
            LoadedOutlasts(b.entries, now, retentionSecs, TtlSecs());
          }
          return Some(kept);
      }
    }

    method Clear()
      modifies this`file
      ensures file == None
    {
      file := None;
    }
  }

  /** A restart brings back exactly what one prune at load time, with the cap, would keep. */
  method SaveThenLoad(vault: Vault, key: Bytes, entries: seq<VaultEntry>, t1: nat, t2: nat, cap: nat)
    returns (loaded: Option<seq<VaultEntry>>)
    requires t1 <= t2 && |entries| <= USIZE_MAX && OldestBeyond(entries, vault.TtlSecs(), cap, t2)
    modifies vault`file
    ensures loaded == Some(Pruned(entries, t2, vault.TtlSecs(), cap))
  {
    hide OldestBeyond, Pruned, GoStaleFirst;
    OldestGoStaleFirst(entries, vault.TtlSecs(), cap, t2, t2);
    TwiceSavesAll(entries, vault.TtlSecs(), cap, t1, t2);
    var saved := vault.Save(key, entries, t1, cap, true);
    loaded := vault.Load(key, t2);
  }
}
