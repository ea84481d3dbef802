/** The clipboard history list: newest first, pinned rows exempt from every limit. */
module History {
  import opened Basics
  import opened Classify

  const HISTORY_SOFT_CAP: nat := 50

  datatype HistorySource = Local | Remote

  datatype HistoryItem = HistoryItem(
    kind: Kind, preview: string, time: string, source: HistorySource, sensitive: bool, lamport: nat,
    hash: string, favorite: bool, resync: bool, sourcePeerId: Option<string>, createdMs: nat)

  /** The same content: what a re-copy moves to the top instead of duplicating. */
  predicate SameRow(a: HistoryItem, b: HistoryItem) {
    a.hash == b.hash && a.kind == b.kind && a.preview == b.preview
  }

  /** Equal except for the pin. */
  predicate SameButPin(a: HistoryItem, b: HistoryItem) { a.(favorite := b.favorite) == b }

  function Match(h: seq<HistoryItem>, item: HistoryItem): (r: Option<nat>)
    ensures r.Some? ==> r.value < |h| && SameRow(h[r.value], item)
    ensures r.Some? ==> forall i :: 0 <= i < r.value ==> !SameRow(h[i], item)
    ensures r.None? ==> forall i :: 0 <= i < |h| ==> !SameRow(h[i], item)
  {
    if h == [] then None
    else if SameRow(h[0], item) then Some(0)
    else
      match Match(h[1..], item)
      case None => None
      case Some(i) => Some(i + 1)
  }

  /** `h` capped to the soft cap, of which `used` places are taken; a pinned row takes none. */
  function Capped(h: seq<HistoryItem>, used: nat): seq<HistoryItem> {
    if h == [] then []
    else if h[0].favorite then [h[0]] + Capped(h[1..], used)
    else (if used + 1 <= HISTORY_SOFT_CAP then [h[0]] else []) + Capped(h[1..], used + 1)
  }

  function WithoutMatch(h: seq<HistoryItem>, item: HistoryItem): seq<HistoryItem> {
    match Match(h, item)
    case None => h
    case Some(pos) => h[..pos] + h[pos + 1..]
  }

  /** The pushed row, pinned when the row it replaces was. */
  function Inherited(h: seq<HistoryItem>, item: HistoryItem): HistoryItem {
    match Match(h, item)
    case None => item
    case Some(pos) => item.(favorite := item.favorite || h[pos].favorite)
  }

  function Pushed(h: seq<HistoryItem>, item: HistoryItem): seq<HistoryItem> {
    var all := [Inherited(h, item)] + WithoutMatch(h, item);
    if |all| > HISTORY_SOFT_CAP then Capped(all, 0) else all
  }

  lemma CappedNext(h: seq<HistoryItem>, i: nat, used: nat, kept: seq<HistoryItem>)
    requires i < |h|
    ensures var next := if h[i].favorite then used else used + 1;
            kept + Capped(h[i..], used) ==
            (if h[i].favorite || next <= HISTORY_SOFT_CAP then kept + [h[i]] else kept) + Capped(h[i + 1..], next)
  {
    assert h[i..][1..] == h[i + 1..];
  }

  lemma NothingCapped(used: nat)
    ensures Capped([], used) == []
  {
  }

  method CapKeepingFavorites(h: seq<HistoryItem>) returns (kept: seq<HistoryItem>)
    ensures kept == Capped(h, 0)
  {
    hide Capped;
    kept := [];
    var used := 0;
    assert h[0..] == h;
    for i := 0 to |h|
      invariant kept + Capped(h[i..], used) == Capped(h, 0)
    {
      CappedNext(h, i, used, kept);
      if h[i].favorite {
        kept := kept + [h[i]];
      } else {
        used := used + 1;
        if used <= HISTORY_SOFT_CAP {
          kept := kept + [h[i]];
        }
      }
    }
    NothingCapped(used);
    assert h[|h|..] == [] && kept + [] == kept;
  }

  method Push(h: seq<HistoryItem>, item: HistoryItem) returns (r: seq<HistoryItem>)
    ensures r == Pushed(h, item)
  {
    r := h;
    var row := item;
    var at := Match(r, row);
    if at.Some? {
      row := row.(favorite := row.favorite || r[at.value].favorite);
      r := r[..at.value] + r[at.value + 1..];
    }
    r := [row] + r;
    if |r| > HISTORY_SOFT_CAP {
      r := CapKeepingFavorites(r);
    }
  }

  /** Rows whose age is unknown, and pinned rows, never expire. `secs == 0` keeps everything. */
  predicate IsAlive(item: HistoryItem, now: nat, secs: nat) {
    item.favorite || item.createdMs == 0 || SaturatingSub(now, item.createdMs) <= secs * 1000
  }

  function Unexpired(h: seq<HistoryItem>, now: nat, secs: nat): seq<HistoryItem> {
    if h == [] then []
    else (if IsAlive(h[0], now, secs) then [h[0]] else []) + Unexpired(h[1..], now, secs)
  }

  function Favorites(h: seq<HistoryItem>): seq<HistoryItem> {
    if h == [] then [] else (if h[0].favorite then [h[0]] else []) + Favorites(h[1..])
  }

  function Plain(h: seq<HistoryItem>): seq<HistoryItem> {
    if h == [] then [] else (if h[0].favorite then [] else [h[0]]) + Plain(h[1..])
  }

  /** Pins or unpins every row of this hash. */
  function Repinned(h: seq<HistoryItem>, hash: string, favorite: bool): (r: seq<HistoryItem>)
    ensures |r| == |h|
    ensures forall i :: 0 <= i < |h| ==> r[i] == if h[i].hash == hash then h[i].(favorite := favorite) else h[i]
  {
    seq(|h|, i requires 0 <= i < |h| => if h[i].hash == hash then h[i].(favorite := favorite) else h[i])
  }

  // ── What the cap keeps ──────────────────────────────────────────────

  /** The cap keeps every pinned row and the newest unpinned ones, in order. */
  lemma {:induction false} CappedExact(h: seq<HistoryItem>, used: nat)
    ensures var free := if used < HISTORY_SOFT_CAP then HISTORY_SOFT_CAP - used else 0;
            && Favorites(Capped(h, used)) == Favorites(h)
            && Plain(Capped(h, used)) == if |Plain(h)| <= free then Plain(h) else Plain(h)[..free]
    ensures forall x :: x in Capped(h, used) ==> x in h
  {
    if h != [] {
      var next := if h[0].favorite then used else used + 1;
      CappedExact(h[1..], next);
      var rest := Capped(h[1..], next);
      if h[0].favorite || used < HISTORY_SOFT_CAP {
        assert Capped(h, used) == [h[0]] + rest;
        assert ([h[0]] + rest)[1..] == rest;
      } else {
        assert Capped(h, used) == rest;
      }
    }
  }

  lemma {:induction false} CappedIsSubsequence(h: seq<HistoryItem>, used: nat)
    ensures IsSubsequence(Capped(h, used), h)
  {
    if h != [] {
      var next := if h[0].favorite then used else used + 1;
      CappedIsSubsequence(h[1..], next);
      var rest := Capped(h[1..], next);
      if h[0].favorite || used < HISTORY_SOFT_CAP {
        assert Capped(h, used)[1..] == rest;
      } else {
        SkipFirst(rest, h);
        assert Capped(h, used) == rest;
      }
    }
  }
}
