/** The history list over whole runs: what a push leaves, what keeps rows apart, and what a pin survives. */
module HistoryRuns {
  import opened Basics
  import opened Events
  import opened History
  import opened AppSpec
  import opened Clipboard
  import opened Frames
  import opened Runs
  import Classify
  import Policy

  // ── One list operation ──────────────────────────────────────────────

  /** No row twice, and no secret. */
  ghost predicate Clean(h: seq<HistoryItem>) {
    && (forall i, j :: 0 <= i < j < |h| ==> !SameRow(h[i], h[j]))
    && (forall i :: 0 <= i < |h| ==> !h[i].sensitive)
  }

  /** A pinned row with this content is in the list. */
  predicate IsPinned(h: seq<HistoryItem>, row: HistoryItem) {
    exists r <- h :: SameRow(r, row) && r.favorite
  }

  lemma {:induction false} SubsequenceSubset(s: seq<HistoryItem>, t: seq<HistoryItem>)
    requires IsSubsequence(s, t)
    ensures forall x :: x in s ==> x in t
  {
    if s != [] {
      assert t == [t[0]] + t[1..];
      if s[0] == t[0] {
        assert s == [s[0]] + s[1..];
        SubsequenceSubset(s[1..], t[1..]);
      } else {
        SubsequenceSubset(s, t[1..]);
      }
    }
  }

  lemma {:induction false} SubsequenceClean(s: seq<HistoryItem>, t: seq<HistoryItem>)
    requires IsSubsequence(s, t) && Clean(t)
    ensures Clean(s)
  {
    if s != [] {
      assert Clean(t[1..]);
      if s[0] == t[0] {
        SubsequenceClean(s[1..], t[1..]);
        SubsequenceSubset(s[1..], t[1..]);
        forall j | 1 <= j < |s| ensures !SameRow(s[0], s[j]) && !s[j].sensitive {
          assert s[1..][j - 1] == s[j] && s[j] in t[1..];
          var k :| 0 <= k < |t[1..]| && t[1..][k] == s[j];
          assert t[k + 1] == s[j];
        }
        forall i, j | 1 <= i < j < |s| ensures !SameRow(s[i], s[j]) {
          assert s[1..][i - 1] == s[i] && s[1..][j - 1] == s[j];
        }
      } else {
        SubsequenceClean(s, t[1..]);
      }
    }
  }

  /** Filtering keeps the order, and exactly the rows that pass. */
  lemma {:induction false} FavoritesExact(h: seq<HistoryItem>)
    ensures IsSubsequence(Favorites(h), h) && forall x :: x in Favorites(h) <==> x in h && x.favorite
  {
    if h != [] {
      FavoritesExact(h[1..]);
      assert h == [h[0]] + h[1..];
      if h[0].favorite {
        assert Favorites(h)[1..] == Favorites(h[1..]);
      } else {
        SkipFirst(Favorites(h[1..]), h);
        assert Favorites(h) == Favorites(h[1..]);
      }
    }
  }

  lemma {:induction false} UnexpiredExact(h: seq<HistoryItem>, now: nat, secs: nat)
    ensures var r := Unexpired(h, now, secs);
            IsSubsequence(r, h) && forall x :: x in r <==> x in h && IsAlive(x, now, secs)
  {
    if h != [] {
      UnexpiredExact(h[1..], now, secs);
      assert h == [h[0]] + h[1..];
      if IsAlive(h[0], now, secs) {
        assert Unexpired(h, now, secs)[1..] == Unexpired(h[1..], now, secs);
      } else {
        SkipFirst(Unexpired(h[1..], now, secs), h);
        assert Unexpired(h, now, secs) == Unexpired(h[1..], now, secs);
      }
    }
  }

  lemma CapKeepsPinned(h: seq<HistoryItem>)
    ensures forall x :: x in h && x.favorite ==> x in Capped(h, 0)
  {
    CappedExact(h, 0);
    FavoritesExact(h);
    FavoritesExact(Capped(h, 0));
  }

  /** The pushed row and the old rows minus its match, before the cap. */
  function Uncapped(h: seq<HistoryItem>, item: HistoryItem): seq<HistoryItem> {
    [Inherited(h, item)] + WithoutMatch(h, item)
  }

  lemma {:induction false} FavoritesAndPlain(h: seq<HistoryItem>)
    ensures |Favorites(h)| + |Plain(h)| == |h|
  {
    if h != [] { FavoritesAndPlain(h[1..]); }
  }

  /** A push puts the new row first, pinned if its match was, then the old rows minus that match in their order,
      limited to all pinned rows and the first 50 others. */
  lemma PushedExact(h: seq<HistoryItem>, item: HistoryItem)
    ensures var r, all := Pushed(h, item), Uncapped(h, item);
            && r != [] && r[0] == Inherited(h, item)
            && IsSubsequence(r, all)
            && Favorites(r) == Favorites(all) && Plain(r) == FirstN(Plain(all), 50)
  {
    var all := Uncapped(h, item);
    CappedIsSubsequence(all, 0);
    CappedExact(all, 0);
    FavoritesAndPlain(all);
    SubsequenceSelf(all);
  }

  /** The pushed row comes first, pinned if it or a row of the same hash, kind and preview was, and no such row is
      left below it. */
  lemma TopRowExact(h: seq<HistoryItem>, item: HistoryItem)
    requires Clean(h)
    ensures var r := Pushed(h, item);
            && r != []
            && r[0] == item.(favorite := item.favorite || exists y <- h ::
                 y.hash == item.hash && y.kind == item.kind && y.preview == item.preview && y.favorite)
            && forall x <- r[1..] ::
                 x in h && (x.hash != item.hash || x.kind != item.kind || x.preview != item.preview)
  {
    hide Capped, WithoutMatch, IsSubsequence, Clean;
    PushedExact(h, item);
    WithoutMatchExact(h, item);
    TailOfPushed(Pushed(h, item), Uncapped(h, item));
    OnlyMatch(h, item);
  }

  lemma TailOfPushed(r: seq<HistoryItem>, all: seq<HistoryItem>)
    requires r != [] && all != [] && r[0] == all[0] && IsSubsequence(r, all)
    ensures forall x <- r[1..] :: x in all[1..]
  {
    SubsequenceSubset(r[1..], all[1..]);
  }

  /** A clean list has one row of this content at most. */
  lemma OnlyMatch(h: seq<HistoryItem>, item: HistoryItem)
    requires Clean(h)
    ensures forall y <- h :: SameRow(y, item) ==> Match(h, item).Some? && h[Match(h, item).value] == y
  {
  }

  /** A row of another hash, kind or preview outlives the push when it is pinned or the list had room for one more. */
  lemma OthersStay(h: seq<HistoryItem>, item: HistoryItem, x: HistoryItem)
    requires x in h && (x.hash != item.hash || x.kind != item.kind || x.preview != item.preview)
    requires x.favorite || |h| < 50
    ensures x in Pushed(h, item)
  {
    hide Capped, WithoutMatch;
    WithoutMatchExact(h, item);
    var all := Uncapped(h, item);
    assert x in all;
    CapKeepsPinned(all);
    WithoutMatchSize(h, item);
  }

  lemma WithoutMatchSize(h: seq<HistoryItem>, item: HistoryItem)
    ensures |Uncapped(h, item)| <= |h| + 1
  {
  }

  lemma {:induction false} SubsequenceSelf(h: seq<HistoryItem>)
    ensures IsSubsequence(h, h)
  {
    if h != [] { SubsequenceSelf(h[1..]); }
  }

  /** One row taken out. */
  lemma RemovedIndex(h: seq<HistoryItem>, pos: nat)
    requires pos < |h|
    ensures var r := h[..pos] + h[pos + 1..];
            && |r| == |h| - 1
            && (forall i :: 0 <= i < |r| ==> r[i] == h[if i < pos then i else i + 1])
            && (forall i :: 0 <= i < |h| && i != pos ==> h[i] in r)
  {
    var r := h[..pos] + h[pos + 1..];
    forall i | 0 <= i < |h| && i != pos ensures h[i] in r { assert r[if i < pos then i else i - 1] == h[i]; }
  }

  lemma RemovedClean(h: seq<HistoryItem>, pos: nat)
    requires pos < |h| && Clean(h)
    ensures var r := h[..pos] + h[pos + 1..]; Clean(r) && forall x <- r :: !SameRow(x, h[pos])
  {
    hide SameRow;
    var r := h[..pos] + h[pos + 1..];
    RemovedIndex(h, pos);
    forall i, j | 0 <= i < j < |r| ensures !SameRow(r[i], r[j]) {
      assert !SameRow(h[if i < pos then i else i + 1], h[if j < pos then j else j + 1]);
    }
    forall i | 0 <= i < |r| ensures !SameRow(r[i], h[pos]) {
      SameRowSymmetric(r[i], h[pos]);
      assert i < pos ==> !SameRow(h[i], h[pos]);
      assert i >= pos ==> !SameRow(h[pos], h[i + 1]);
    }
  }

  lemma SameRowSymmetric(a: HistoryItem, b: HistoryItem)
    ensures SameRow(a, b) <==> SameRow(b, a)
  {
  }

  lemma SameRowTransitive(a: HistoryItem, b: HistoryItem, c: HistoryItem)
    requires SameRow(b, c)
    ensures SameRow(a, b) <==> SameRow(a, c)
  {
  }

  /** Without its match the list holds every other row, and (when it is clean) no row like the pushed one. */
  lemma WithoutMatchExact(h: seq<HistoryItem>, item: HistoryItem)
    ensures forall x :: x in WithoutMatch(h, item) ==> x in h
    ensures forall x :: x in h && !SameRow(x, item) ==> x in WithoutMatch(h, item)
    ensures Clean(h) ==> Clean(WithoutMatch(h, item)) && forall x :: x in WithoutMatch(h, item) ==> !SameRow(x, item)
  {
    hide SameRow, Clean;
    match Match(h, item)
    case None =>
    case Some(pos) =>
      var r := WithoutMatch(h, item);
      RemovedIndex(h, pos);
      if Clean(h) {
        RemovedClean(h, pos);
        forall x | x in r ensures !SameRow(x, item) { SameRowTransitive(x, h[pos], item); }
      }
  }

  lemma PushedClean(h: seq<HistoryItem>, item: HistoryItem)
    requires Clean(h) && !item.sensitive
    ensures Clean(Pushed(h, item))
  {
    hide Capped, WithoutMatch;
    var all := Uncapped(h, item);
    WithoutMatchExact(h, item);
    var rest := WithoutMatch(h, item);
    forall j | 1 <= j < |all| ensures all[j] == rest[j - 1] && !SameRow(all[0], all[j]) {
      assert rest[j - 1] in rest;
    }
    assert Clean(all);
    PushedExact(h, item);
    SubsequenceClean(Pushed(h, item), all);
  }

  /** A push keeps every pin: the row itself, or the pushed row that replaces it. */
  lemma PushedPinned(h: seq<HistoryItem>, item: HistoryItem, row: HistoryItem)
    requires Clean(h) && IsPinned(h, row)
    ensures IsPinned(Pushed(h, item), row)
  {
    hide Capped, WithoutMatch;
    var r :| r in h && SameRow(r, row) && r.favorite;
    var all := Uncapped(h, item);
    WithoutMatchExact(h, item);
    CapKeepsPinned(all);
    if SameRow(r, item) {
      var i :| 0 <= i < |h| && h[i] == r;
      assert Match(h, item) == Some(i);
      PushedExact(h, item);
      assert Pushed(h, item)[0] in Pushed(h, item);
    } else {
      assert r in all;
      assert r in Pushed(h, item);
    }
  }

  lemma PushedRows(h: seq<HistoryItem>, item: HistoryItem)
    ensures forall x :: x in Pushed(h, item) ==> x in h || SameButPin(item, x)
  {
    hide Capped, WithoutMatch;
    WithoutMatchExact(h, item);
    PushedExact(h, item);
    SubsequenceSubset(Pushed(h, item), Uncapped(h, item));
  }

  lemma RepinnedClean(h: seq<HistoryItem>, key: string, favorite: bool)
    requires Clean(h)
    ensures Clean(Repinned(h, key, favorite))
  {
  }

  /** Pinning keeps every pin; unpinning a hash removes the pins of exactly the rows of that hash. */
  lemma RepinnedPinned(h: seq<HistoryItem>, key: string, favorite: bool, row: HistoryItem)
    requires IsPinned(h, row)
    ensures IsPinned(Repinned(h, key, favorite), row) <==> favorite || row.hash != key
  {
    var t := Repinned(h, key, favorite);
    var r :| r in h && SameRow(r, row) && r.favorite;
    var i :| 0 <= i < |h| && h[i] == r;
    if favorite || row.hash != key { assert t[i] in t && t[i].favorite && SameRow(t[i], row); }
  }

  // ── One input ───────────────────────────────────────────────────────

  /** The event takes the history of the replaced peer with it. */
  predicate WipesOnSwap(s: AppState, e: Event) {
    e.PeerSeen? && !IsPeerMismatch(s, e.peerId) && IsSwap(s, e.peerId) && s.otherLinkedPeers == {}
  }

  /** The item of this input becomes a history row. */
  predicate Records(digest: Digest, s: AppState, e: Event, w: Wall) {
    IsClipboard(e) && !IsDuplicate(digest, s, e, w) && IsRecorded(s, e)
  }

  /** Everything that can happen to the history list. */
  function HistoryAfter(digest: Digest, s: AppState, x: Input): seq<HistoryItem> {
    var h := s.st.history;
    match x
    case Handle(e, w) =>
      if Records(digest, s, e, w) then Pushed(h, RowOf(e, w))
      else if e.SetFavorite? then Repinned(h, e.key, e.favorite)
      else if e.ClearHistory? then (if e.includeFavorites then [] else Favorites(h))
      else if e.UntrustedPeerSeen? || WipesOnSwap(s, e) then []
      else h
    case SetRetention(secs, now) =>
      if secs in HISTORY_RETENTION_CHOICES && secs != 0 then Unexpired(h, now, secs) else h
    case Expire(now) => if s.st.historyRetentionSecs != 0 then Unexpired(h, now, s.st.historyRetentionSecs) else h
    case SetFirewall(_) => h
    case SetOtherLinked(_) => h
  }

  lemma SwapHistory(s: AppState, peer: Id, name: string)
    ensures PeerSighted(s, peer, name).st.history ==
            if IsSwap(s, peer) && s.otherLinkedPeers == {} then [] else s.st.history
    ensures PeerSighted(s, peer, name).otherLinkedPeers == s.otherLinkedPeers
  {
  }

  lemma DescribedHistory(s: AppState, e: Event)
    ensures Described(s, e).history == s.st.history
  {
  }

  lemma PreparedHistory(digest: Digest, s: AppState, e: Event, w: Wall)
    requires !IsClipboard(e) && !(e.PeerSeen? && IsPeerMismatch(s, e.peerId))
    ensures Prepared(digest, s, e, w).st.history == HistoryAfter(digest, s, Handle(e, w))
  {
    hide Described, PeerSighted, Repinned, Favorites, Copied, DropPendingFor;
    DescribedHistory(s, e);
    if e.PeerSeen? { SwapHistory(s, e.peerId, e.name); }
    DropKeepsHistory(s.(st := Described(s, e)), s.st.peer.id);
    if e.PeerRevoked? { DropKeepsHistory(s.(st := Described(s, e)), e.peerId); }
  }

  lemma DropKeepsHistory(s: AppState, peer: Id)
    ensures DropPendingFor(s, peer).st.history == s.st.history
  {
  }

  /** The history changes only as `HistoryAfter` says. */
  lemma HistoryExact(digest: Digest, s: AppState, x: Input)
    ensures Next(digest, s, x).0.st.history == HistoryAfter(digest, s, x)
  {
    hide Prepared, Concluded, Dropped, IsDuplicate, RowOf, Pushed, Repinned, Favorites, Unexpired, IsPeerMismatch;
    if x.Handle? {
      var e, w := x.event, x.wall;
      if IsClipboard(e) {
        RecordedExact(digest, s, e, w);
      } else if !e.ResolvePending? && !(e.PeerSeen? && IsPeerMismatch(s, e.peerId)) {
        PreparedHistory(digest, s, e, w);
        ConcludedFrame(Prepared(digest, s, e, w), e, Dropped(s, e));
      }
    }
  }

  /** Expiry drops exactly the rows that are unpinned, of known age and older than the period, and keeps the order. */
  lemma ExpiryExact(digest: Digest, s: AppState, now: nat)
    ensures var h, secs, after := s.st.history, s.st.historyRetentionSecs, Next(digest, s, Expire(now)).0;
            && after == s.(st := s.st.(history := after.st.history))
            && IsSubsequence(after.st.history, h)
            && forall x :: x in after.st.history <==>
                 x in h && (secs == 0 || x.favorite || x.createdMs == 0 || now - x.createdMs <= secs * 1000)
  {
    UnexpiredExact(s.st.history, now, s.st.historyRetentionSecs);
    SubsequenceSelf(s.st.history);
  }

  /** An hour, a day, a week and forever are the periods there are: one of them is set and applied at once, and
      anything else changes nothing. */
  lemma RetentionExact(digest: Digest, s: AppState, secs: nat, now: nat)
    ensures Next(digest, s, SetRetention(secs, now)).0 ==
            if secs == 3_600 || secs == 86_400 || secs == 604_800 || secs == 0
            then Next(digest, s.(st := s.st.(historyRetentionSecs := secs)), Expire(now)).0
            else s
  {
    hide Unexpired;
  }

  /** What the commands on the list do: a pin sets every row of its hash and no other, a clear keeps the pinned rows in
      their order or nothing, an untrusted peer leaves nothing. */
  lemma CommandsExact(digest: Digest, s: AppState, e: Event, w: Wall)
    ensures var h, r := s.st.history, Next(digest, s, Handle(e, w)).0.st.history;
            && (e.SetFavorite? ==> |r| == |h| && forall i :: 0 <= i < |h| ==>
                 r[i] == h[i].(favorite := if h[i].hash == e.key then e.favorite else h[i].favorite))
            && (e.ClearHistory? && e.includeFavorites ==> r == [])
            && (e.ClearHistory? && !e.includeFavorites ==>
                 IsSubsequence(r, h) && forall x :: x in r <==> x in h && x.favorite)
            && (e.UntrustedPeerSeen? ==> r == [])
  {
    hide Next, IsSubsequence, Favorites, Pushed, RowOf, Records, WipesOnSwap, Unexpired;
    HistoryExact(digest, s, Handle(e, w));
    RecordsIsClipboard(digest, s, e, w);
    FavoritesExact(s.st.history);
  }

  /** The input ends the pin of this row: it unpins the hash, clears the pins too, or is one of the two wipes. */
  predicate Unpins(s: AppState, x: Input, row: HistoryItem) {
    && x.Handle?
    && match x.event
       case SetFavorite(key, favorite) => !favorite && row.hash == key
       case ClearHistory(includeFavorites) => includeFavorites
       case UntrustedPeerSeen(_) => true
       case e => WipesOnSwap(s, e)
  }

  /** A row stays pinned through one input iff that input is not one of those four. */
  lemma PinnedStep(digest: Digest, s: AppState, x: Input, row: HistoryItem)
    requires Clean(s.st.history) && IsPinned(s.st.history, row)
    ensures IsPinned(Next(digest, s, x).0.st.history, row) <==> !Unpins(s, x, row)
  {
    hide Next, Pushed, Repinned, Unexpired, Favorites, Records, RowOf, WipesOnSwap, IsPinned, Clean;
    HistoryExact(digest, s, x);
    var h := s.st.history;
    PinnedFavorite(h, row);
    match x
    case Handle(e, w) =>
      if IsClipboard(e) {
        RecordsIsClipboard(digest, s, e, w);
        PushedPinned(h, RowOf(e, w), row);
      } else {
        RecordsIsClipboard(digest, s, e, w);
        if e.SetFavorite? { RepinnedPinned(h, e.key, e.favorite, row); }
      }
    case SetRetention(secs, now) => PinnedUnexpired(h, now, secs, row);
    case Expire(now) => PinnedUnexpired(h, now, s.st.historyRetentionSecs, row);
    case _ =>
  }

  lemma PinnedFavorite(h: seq<HistoryItem>, row: HistoryItem)
    requires IsPinned(h, row)
    ensures IsPinned(Favorites(h), row) && !IsPinned([], row)
  {
    hide SameRow, Favorites;
    FavoritesExact(h);
  }

  lemma PinnedUnexpired(h: seq<HistoryItem>, now: nat, secs: nat, row: HistoryItem)
    requires IsPinned(h, row)
    ensures IsPinned(Unexpired(h, now, secs), row)
  {
    hide SameRow, Unexpired;
    UnexpiredExact(h, now, secs);
  }

  lemma RecordsIsClipboard(digest: Digest, s: AppState, e: Event, w: Wall)
    ensures Records(digest, s, e, w) ==> IsClipboard(e) && !RowOf(e, w).sensitive
    ensures WipesOnSwap(s, e) ==> e.PeerSeen?
  {
    hide IsDuplicate;
  }

  lemma CleanStep(digest: Digest, s: AppState, x: Input)
    requires Clean(s.st.history)
    ensures Clean(Next(digest, s, x).0.st.history)
  {
    hide Next, Pushed, Repinned, Unexpired, Favorites, Records, RowOf, WipesOnSwap, Clean;
    HistoryExact(digest, s, x);
    var h := s.st.history;
    FavoritesExact(h);
    SubsequenceClean(Favorites(h), h);
    EmptyIsClean();
    match x
    case Handle(e, w) =>
      RecordsIsClipboard(digest, s, e, w);
      if Records(digest, s, e, w) { PushedClean(h, RowOf(e, w)); }
      if e.SetFavorite? { RepinnedClean(h, e.key, e.favorite); }
    case SetRetention(secs, now) =>
      UnexpiredExact(h, now, secs);
      SubsequenceClean(Unexpired(h, now, secs), h);
    case Expire(now) =>
      UnexpiredExact(h, now, s.st.historyRetentionSecs);
      SubsequenceClean(Unexpired(h, now, s.st.historyRetentionSecs), h);
    case _ =>
  }

  lemma EmptyIsClean()
    ensures Clean([])
  {
  }

  // ── Whole runs ──────────────────────────────────────────────────────

  /** In every run from a clean saved list, no two rows share hash, kind and preview, and no row is a secret. */
  lemma {:induction false} AlwaysClean(b: Boot, run: seq<Input>)
    requires Clean(b.saved)
    ensures Clean(After(b, run).st.history)
  {
    hide Next, Clean;
    if run == [] {
      CappedIsSubsequence(b.saved, 0);
      SubsequenceClean(Capped(b.saved, 0), b.saved);
    } else {
      AlwaysClean(b, run[..|run| - 1]);
      CleanStep(b.digest, After(b, run[..|run| - 1]), run[|run| - 1]);
    }
  }

  /** A pinned row is pinned from then on until an input unpins its hash, clears the pins, or wipes for another peer. */
  lemma {:induction false} PinnedStays(b: Boot, run: seq<Input>, n: nat, row: HistoryItem)
    requires Clean(b.saved) && n <= |run| && IsPinned(After(b, run[..n]).st.history, row)
    requires forall m :: n <= m < |run| ==> !Unpins(After(b, run[..m]), run[m], row)
    ensures IsPinned(After(b, run).st.history, row)
  {
    hide Next, Unpins, IsPinned, Clean;
    if n == |run| {
      assert run[..n] == run;
    } else {
      var before := run[..|run| - 1];
      assert before[..n] == run[..n];
      forall m | n <= m < |before| ensures !Unpins(After(b, before[..m]), before[m], row) {
        assert before[..m] == run[..m];
      }
      PinnedStays(b, before, n, row);
      AlwaysClean(b, before);
      PinnedStep(b.digest, After(b, before), run[|run| - 1], row);
    }
  }

  // ── How many unpinned rows ──────────────────────────────────────────

  predicate IsUnpin(x: Input) { x.Handle? && x.event.SetFavorite? && !x.event.favorite }

  lemma {:induction false} PlainOfSubsequence(s: seq<HistoryItem>, t: seq<HistoryItem>)
    requires IsSubsequence(s, t)
    ensures |Plain(s)| <= |Plain(t)|
  {
    if s != [] {
      if s[0] == t[0] { PlainOfSubsequence(s[1..], t[1..]); } else { PlainOfSubsequence(s, t[1..]); }
    }
  }

  /** The rows of one hash that are pinned. */
  function PinnedOf(h: seq<HistoryItem>, key: string): nat {
    if h == [] then 0 else (if h[0].favorite && h[0].hash == key then 1 else 0) + PinnedOf(h[1..], key)
  }

  /** Unpinning a hash turns exactly its pinned rows into unpinned ones, and removes none. */
  lemma {:induction false} UnpinAdds(h: seq<HistoryItem>, key: string)
    ensures |Plain(Repinned(h, key, false))| == |Plain(h)| + PinnedOf(h, key)
  {
    if h != [] {
      UnpinAdds(h[1..], key);
      assert Repinned(h, key, false)[1..] == Repinned(h[1..], key, false);
    }
  }

  lemma {:induction false} PinTakes(h: seq<HistoryItem>, key: string)
    ensures |Plain(Repinned(h, key, true))| <= |Plain(h)|
  {
    if h != [] {
      PinTakes(h[1..], key);
      assert Repinned(h, key, true)[1..] == Repinned(h[1..], key, true);
    }
  }

  /** Every input keeps the list at 50 unpinned rows, except an unpin, which adds the rows it unpins. */
  lemma PlainStep(digest: Digest, s: AppState, x: Input)
    requires |Plain(s.st.history)| <= 50
    ensures var h := Next(digest, s, x).0.st.history;
            |Plain(h)| <= 50 <==>
            (IsUnpin(x) ==> |Plain(s.st.history)| + PinnedOf(s.st.history, x.event.key) <= 50)
  {
    hide Next, Pushed, Repinned, Unexpired, Favorites, Records, RowOf, WipesOnSwap, Plain, PinnedOf;
    HistoryExact(digest, s, x);
    var h := s.st.history;
    PlainOfNothing();
    match x
    case Handle(e, w) =>
      RecordsIsClipboard(digest, s, e, w);
      if Records(digest, s, e, w) { PushedExact(h, RowOf(e, w)); }
      FavoritesExact(h);
      PlainOfSubsequence(Favorites(h), h);
      if e.SetFavorite? {
        UnpinAdds(h, e.key);
        PinTakes(h, e.key);
      }
    case SetRetention(secs, now) =>
      UnexpiredExact(h, now, secs);
      PlainOfSubsequence(Unexpired(h, now, secs), h);
    case Expire(now) =>
      UnexpiredExact(h, now, s.st.historyRetentionSecs);
      PlainOfSubsequence(Unexpired(h, now, s.st.historyRetentionSecs), h);
    case _ =>
  }

  lemma PlainOfNothing()
    ensures Plain([]) == []
  {
  }

  /** Without an unpin the list never holds more than 50 unpinned rows; a recorded item restores that after one. */
  lemma {:induction false} AtMostFifty(b: Boot, run: seq<Input>, n: nat)
    requires n <= |run| && (forall m :: n <= m < |run| ==> !IsUnpin(run[m]))
    requires n == 0 || (run[n - 1].Handle? && Records(b.digest, After(b, run[..n - 1]), run[n - 1].event, run[n - 1].wall))
    ensures |Plain(After(b, run).st.history)| <= 50
  {
    hide Next, Plain, Records, Pushed, RowOf, IsUnpin;
    if n < |run| {
      var before := run[..|run| - 1];
      assert n > 0 ==> before[..n - 1] == run[..n - 1];
      AtMostFifty(b, before, n);
      PlainStep(b.digest, After(b, before), run[|run| - 1]);
    } else if n == 0 {
      CappedExact(b.saved, 0);
    } else {
      var s, x := After(b, run[..n - 1]), run[n - 1];
      RecordsIsClipboard(b.digest, s, x.event, x.wall);
      HistoryExact(b.digest, s, x);
      PushedExact(s.st.history, RowOf(x.event, x.wall));
    }
  }

  const SAMPLE_ROW: HistoryItem := HistoryItem(Classify.Text, "", "", Local, false, 0, "", false, false, None, 0)

  /** Rows told apart by the length of their preview. */
  function Fillers(n: nat): (r: seq<HistoryItem>)
    ensures Plain(r) == r && |r| == n
    ensures forall i :: 0 <= i < n ==> r[i] == SAMPLE_ROW.(preview := r[i].preview) && |r[i].preview| == n - i
  {
    if n == 0 then [] else
      var rest, row := Fillers(n - 1), SAMPLE_ROW.(preview := seq(n, i => ' '));
      assert ([row] + rest)[1..] == rest;
      [row] + rest
  }

  /** The cap is not a run invariant: unpinning a row next to 50 unpinned ones leaves 51 until the next push. */
  lemma UnpinExceedsTheCap(digest: Digest, firewall: Policy.FirewallPolicy, w: Wall) returns (b: Boot, x: Input)
    ensures b.digest == digest && b.firewall == firewall && Clean(b.saved)
    ensures |Plain(After(b, [x]).st.history)| == 51
  {
    hide Plain, Favorites, PinnedOf, Capped, Next, Repinned;
    var pinned := SAMPLE_ROW.(favorite := true, hash := "p");
    var saved := [pinned] + Fillers(HISTORY_SOFT_CAP);
    b, x := Boot(digest, firewall, saved), Handle(SetFavorite("p", false), w);
    UnpinOverflows(b, x, pinned, Fillers(HISTORY_SOFT_CAP));
  }

  lemma UnpinOverflows(b: Boot, x: Input, pinned: HistoryItem, others: seq<HistoryItem>)
    requires b.saved == [pinned] + others && pinned.favorite && Plain(others) == others && |others| == HISTORY_SOFT_CAP
    requires IsUnpin(x) && x.event.key == pinned.hash
    ensures |Plain(After(b, [x]).st.history)| == 51
  {
    hide Next, Repinned, Plain, Favorites, PinnedOf, Capped;
    var s, kept := After(b, []), Capped(others, 0);
    assert [x][..0] == [];
    HistoryExact(b.digest, s, x);
    assert After(b, [x]).st.history == Repinned(s.st.history, pinned.hash, false);
    CappedBehindPin(pinned, others);
    assert b.saved == [pinned] + others && s.st.history == [pinned] + kept;
    UnpinAdds([pinned] + kept, pinned.hash);
    PinCounts(pinned, kept);
    PlainHasNoPins(others);
    CappedExact(others, 0);
    NoPins(kept, pinned.hash);
  }

  lemma CappedBehindPin(pinned: HistoryItem, others: seq<HistoryItem>)
    requires pinned.favorite
    ensures Capped([pinned] + others, 0) == [pinned] + Capped(others, 0)
  {
    assert ([pinned] + others)[1..] == others;
  }

  lemma PinCounts(pinned: HistoryItem, h: seq<HistoryItem>)
    requires pinned.favorite
    ensures PinnedOf([pinned] + h, pinned.hash) == 1 + PinnedOf(h, pinned.hash) && Plain([pinned] + h) == Plain(h)
  {
    assert ([pinned] + h)[1..] == h;
  }

  lemma {:induction false} NoPins(h: seq<HistoryItem>, key: string)
    requires Favorites(h) == []
    ensures PinnedOf(h, key) == 0
  {
    if h != [] { NoPins(h[1..], key); }
  }

  lemma {:induction false} PlainHasNoPins(h: seq<HistoryItem>)
    requires Plain(h) == h
    ensures Favorites(h) == []
  {
    FavoritesAndPlain(h);
  }
}
