/** A restart: which peers the registry file brings back. */
module Restart {
  import opened Basics
  import opened Trust
  import Hex

  const MAX_PERSISTED_PEERS: nat := 64

  /** A peer as the file names it: its id is computed from its key, not read. */
  datatype Entry = Entry(id: Id, peer: TrustedPeer)

  /** How ids come from keys, and which keys are acceptable. */
  datatype Keys = Keys(idOf: Id -> Id, isValid: Id -> bool)

  function EntryIn(row: StoredPeer, keys: Keys): seq<Entry> {
    match Hex.Hex32Decode(row.staticPubHex)
    case None => []
    case Some(key) => if keys.isValid(key) then [Entry(keys.idOf(key), TrustedPeer(key, row.name))] else []
  }

  function Readable(stored: seq<StoredPeer>, keys: Keys): seq<Entry> {
    if stored == [] then [] else EntryIn(stored[0], keys) + Readable(stored[1..], keys)
  }

  function Loaded(disk: Disk, keys: Keys): seq<Entry> {
    match disk
    case Corrupt => []
    case Peers(stored) => FirstN(Readable(stored, keys), MAX_PERSISTED_PEERS)
  }

  /** A later entry of the same peer wins. */
  function Trusting(entries: seq<Entry>): map<Id, TrustedPeer> {
    if entries == [] then map[]
    else
      var last := entries[|entries| - 1];
      Trusting(entries[..|entries| - 1])[last.id := last.peer]
  }

  lemma NextRow(stored: seq<StoredPeer>, i: nat, keys: Keys, out: seq<Entry>)
    requires i < |stored|
    ensures out + Readable(stored[i..], keys) == out + EntryIn(stored[i], keys) + Readable(stored[i + 1..], keys)
  {
    hide EntryIn;
    assert stored[i..][1..] == stored[i + 1..];
  }

  lemma NoRows(keys: Keys)
    ensures Readable([], keys) == []
  {
  }

  /** Unreadable and unacceptable rows are skipped, and what is over the cap is cut off. */
  method LoadTrustedPeers(disk: Disk, keys: Keys) returns (out: seq<Entry>)
    ensures out == Loaded(disk, keys)
  {
    if disk.Corrupt? {
      return [];
    }
    hide Readable;
    var stored := disk.stored;
    out := [];
    assert stored[0..] == stored;
    for i := 0 to |stored|
      invariant out + Readable(stored[i..], keys) == Readable(stored, keys)
    {
      NextRow(stored, i, keys, out);
      match Hex.Hex32Decode(stored[i].staticPubHex) {
        case None =>
        case Some(key) =>
          if keys.isValid(key) {
            out := out + [Entry(keys.idOf(key), TrustedPeer(key, stored[i].name))];
          }
      }
    }
    NoRows(keys);
    assert stored[|stored|..] == [] && out + [] == out;
    if |out| > MAX_PERSISTED_PEERS {
      out := out[..MAX_PERSISTED_PEERS];
    }
  }

  method TrustedAtBoot(disk: Disk, keys: Keys) returns (trusted: map<Id, TrustedPeer>)
    ensures trusted == Trusting(Loaded(disk, keys))
  {
    var loaded := LoadTrustedPeers(disk, keys);
    trusted := map[];
    for i := 0 to |loaded|
      invariant trusted == Trusting(loaded[..i])
    {
      assert loaded[..i + 1][..i] == loaded[..i];
      trusted := trusted[loaded[i].id := loaded[i].peer];
    }
    assert loaded[..|loaded|] == loaded;
  }

  // ── What comes back ─────────────────────────────────────────────────

  /** Every trusted peer goes by the id of its key. */
  ghost predicate KeysFit(trusted: map<Id, TrustedPeer>, keys: Keys) {
    forall id :: id in trusted ==> id == keys.idOf(trusted[id].staticPub)
  }

  ghost predicate AllValid(trusted: map<Id, TrustedPeer>, keys: Keys) {
    forall id :: id in trusted ==> keys.isValid(trusted[id].staticPub)
  }

  /** The entry stands for a trusted peer of acceptable key. */
  predicate Brings(e: Entry, trusted: map<Id, TrustedPeer>, keys: Keys) {
    e.id in trusted && trusted[e.id] == e.peer && keys.isValid(e.peer.staticPub)
  }

  /** Entries of different trusted peers. */
  ghost predicate BringsAll(es: seq<Entry>, trusted: map<Id, TrustedPeer>, keys: Keys) {
    && (forall e <- es :: Brings(e, trusted, keys))
    && forall i, j :: 0 <= i < j < |es| ==> es[i].id != es[j].id
  }

  lemma EntryOfRow(row: StoredPeer, trusted: map<Id, TrustedPeer>, keys: Keys)
    requires IsRowOf(row, trusted) && KeysFit(trusted, keys)
    ensures var id := Hex.Hex32Decode(row.peerIdHex).value;
            EntryIn(row, keys) == if keys.isValid(trusted[id].staticPub) then [Entry(id, trusted[id])] else []
  {
    hide Hex.Hex32, Hex.Hex32Decode;
    Hex.Hex32RoundTrip(trusted[Hex.Hex32Decode(row.peerIdHex).value].staticPub);
  }

  /** The entries of the file: each trusted peer of acceptable key once, in the order of the rows. */
  lemma {:induction false} ReadableExact(stored: seq<StoredPeer>, trusted: map<Id, TrustedPeer>, keys: Keys)
    requires DistinctRows(stored) && (forall row <- stored :: IsRowOf(row, trusted)) && KeysFit(trusted, keys)
    ensures var es := Readable(stored, keys);
            && BringsAll(es, trusted, keys) && (forall e <- es :: HasRow(stored, Hex.Hex32(e.id)))
            && forall id :: id in trusted && keys.isValid(trusted[id].staticPub) && HasRow(stored, Hex.Hex32(id)) ==>
                 Entry(id, trusted[id]) in es
  {
    hide Hex.Hex32, Hex.Hex32Decode, KeysFit, IsRowOf, HasRow, DistinctRows, BringsAll, EntryIn;
    NoRows(keys);
    NobodyBrought(trusted, keys);
    if stored == [] {
      assert forall key :: !HasRow(stored, key) by { NoRow(); }
    } else {
      RestOfRows(stored);
      ReadableExact(stored[1..], trusted, keys);
      EntryOfRow(stored[0], trusted, keys);
      FirstRow(stored, trusted);
      OneMoreBrought(EntryIn(stored[0], keys), Readable(stored[1..], keys), trusted, keys);
    }
  }

  lemma NoRow()
    ensures forall key :: !HasRow([], key)
  {
  }

  lemma NobodyBrought(trusted: map<Id, TrustedPeer>, keys: Keys)
    ensures BringsAll([], trusted, keys)
  {
  }

  lemma RestOfRows(stored: seq<StoredPeer>)
    requires stored != [] && DistinctRows(stored)
    ensures DistinctRows(stored[1..]) && forall row <- stored[1..] :: row in stored
  {
    var rest := stored[1..];
    assert stored == [stored[0]] + rest;
    forall i, j | 0 <= i < j < |rest| ensures rest[i].peerIdHex != rest[j].peerIdHex {
      assert rest[i] == stored[i + 1] && rest[j] == stored[j + 1];
    }
  }

  lemma OneMoreBrought(head: seq<Entry>, rest: seq<Entry>, trusted: map<Id, TrustedPeer>, keys: Keys)
    requires |head| <= 1 && BringsAll(rest, trusted, keys)
    requires forall e <- head :: Brings(e, trusted, keys) && forall r <- rest :: r.id != e.id
    ensures BringsAll(head + rest, trusted, keys)
  {
  }

  /** The first row names its peer alone. */
  lemma FirstRow(stored: seq<StoredPeer>, trusted: map<Id, TrustedPeer>)
    requires stored != [] && DistinctRows(stored) && IsRowOf(stored[0], trusted)
    ensures var id := Hex.Hex32Decode(stored[0].peerIdHex).value;
            id in trusted && !HasRow(stored[1..], Hex.Hex32(id))
            && forall k :: HasRow(stored, Hex.Hex32(k)) <==> k == id || HasRow(stored[1..], Hex.Hex32(k))
  {
    hide Hex.Hex32, Hex.Hex32Decode;
    var id, rest := Hex.Hex32Decode(stored[0].peerIdHex).value, stored[1..];
    assert stored == [stored[0]] + rest;
    forall row <- rest ensures row.peerIdHex != Hex.Hex32(id) {
      var i :| 0 <= i < |rest| && rest[i] == row;
      assert stored[i + 1] == row;
    }
    forall k ensures HasRow(stored, Hex.Hex32(k)) <==> k == id || HasRow(rest, Hex.Hex32(k)) {
      Hex.Hex32Injective(k, id);
      if row :| row in rest && row.peerIdHex == Hex.Hex32(k) { assert row in stored; }
      assert stored[0] in stored;
    }
  }

  /** Entries of different peers give exactly those peers. */
  lemma {:induction false} TrustingExact(es: seq<Entry>)
    requires forall i, j :: 0 <= i < j < |es| ==> es[i].id != es[j].id
    ensures var r := Trusting(es);
            && |r| == |es|
            && (forall id :: id in r ==> Entry(id, r[id]) in es)
            && forall e <- es :: e.id in r && r[e.id] == e.peer
  {
    if es != [] {
      var before, last := es[..|es| - 1], es[|es| - 1];
      assert es == before + [last];
      TrustingExact(before);
      var was := Trusting(before);
      forall id | id in was ensures id != last.id { assert Entry(id, was[id]) in before; }
      OneMoreKey(was, last);
    }
  }

  lemma OneMoreKey(was: map<Id, TrustedPeer>, e: Entry)
    requires e.id !in was
    ensures |was[e.id := e.peer]| == |was| + 1
  {
    assert was[e.id := e.peer].Keys == was.Keys + {e.id};
    assert |was.Keys + {e.id}| == |was.Keys| + 1;
  }

  lemma BroughtBack(es: seq<Entry>, trusted: map<Id, TrustedPeer>, keys: Keys)
    requires BringsAll(es, trusted, keys)
    ensures var r := Trusting(es);
            && |r| == |es|
            && (forall id :: id in r ==> id in trusted && r[id] == trusted[id] && keys.isValid(trusted[id].staticPub))
            && forall e <- es :: e.id in r
  {
    TrustingExact(es);
    var r := Trusting(es);
    forall id | id in r ensures id in trusted && r[id] == trusted[id] && keys.isValid(trusted[id].staticPub) {
      assert Brings(Entry(id, r[id]), trusted, keys);
    }
  }

  lemma FileExact(s: Store, keys: Keys)
    requires Agrees(s) && KeysFit(s.trusted, keys)
    ensures s.disk.Peers?
    ensures var es := Readable(s.disk.stored, keys);
            && BringsAll(es, s.trusted, keys)
            && BringsAll(FirstN(es, MAX_PERSISTED_PEERS), s.trusted, keys)
            && forall id :: id in s.trusted && keys.isValid(s.trusted[id].staticPub) ==> Entry(id, s.trusted[id]) in es
  {
    hide Hex.Hex32, IsRowOf, KeysFit, DistinctRows, HasRow;
    ReadableExact(s.disk.stored, s.trusted, keys);
  }

  lemma SameSize(r: map<Id, TrustedPeer>, trusted: map<Id, TrustedPeer>)
    requires r.Keys <= trusted.Keys && forall id :: id in r ==> r[id] == trusted[id]
    ensures |r| <= |trusted| && (|r| == |trusted| <==> r == trusted)
  {
    FewerKeys(trusted, r);
    assert trusted.Keys == r.Keys + (trusted.Keys - r.Keys);
    assert |trusted.Keys| == |r.Keys| + |trusted.Keys - r.Keys|;
    if |r| == |trusted| { assert r.Keys == trusted.Keys; }
  }

  /** A restart brings back nobody new and nobody under another key, no more than 64 peers, and all of them iff there
      are no more than that and their keys are acceptable. */
  lemma RestartExact(s: Store, keys: Keys)
    requires Agrees(s) && KeysFit(s.trusted, keys)
    ensures var r := Trusting(Loaded(s.disk, keys));
            && (forall id :: id in r ==> id in s.trusted && r[id] == s.trusted[id])
            && |r| <= 64
            && (r == s.trusted <==>
                 |s.trusted| <= 64 && AllValid(s.trusted, keys))
  {
    hide Agrees, KeysFit, Readable, Trusting, BringsAll;
    FileExact(s, keys);
    var es := Readable(s.disk.stored, keys);
    BroughtBack(es, s.trusted, keys);
    BroughtBack(FirstN(es, MAX_PERSISTED_PEERS), s.trusted, keys);
    SameSize(Trusting(es), s.trusted);
    SameSize(Trusting(FirstN(es, MAX_PERSISTED_PEERS)), s.trusted);
    if AllValid(s.trusted, keys) {
      forall id | id in s.trusted ensures id in Trusting(es) { assert Entry(id, s.trusted[id]) in es; }
      assert Trusting(es).Keys == s.trusted.Keys;
    }
  }

  // ── Runs ────────────────────────────────────────────────────────────

  /** A handshake names its peer by the id of its key. */
  ghost predicate IsHonest(step: Step, keys: Keys) {
    step.Accept? ==> step.request.peerId == keys.idOf(step.request.staticPub)
  }

  lemma {:induction false} AlwaysFit(states: seq<Store>, steps: seq<Step>, i: nat, keys: Keys)
    requires IsRun(states, steps) && i < |states| && KeysFit(states[0].trusted, keys)
    requires forall step <- steps :: IsHonest(step, keys)
    ensures KeysFit(states[i].trusted, keys)
  {
    hide IsTofu, IsReap, GetsIn, OneOfThree;
    if i > 0 {
      AlwaysFit(states, steps, i - 1, keys);
      var s, step, t := states[i - 1], steps[i - 1], states[i];
      assert IsStep(s, step, t) && IsHonest(step, keys);
      match step
      case Accept(r, writes) => AcceptExact(s, r, writes, t);
      case Tick(now, writes) => ReapExact(s, now, writes, t);
    }
  }

  /** Whatever writes fail, at any point of any run a restart changes nobody's trust iff at most 64 peers are trusted,
      all by acceptable keys: a peer that the pairing window lets in above that is gone after the next start. */
  lemma RestartAnywhere(states: seq<Store>, steps: seq<Step>, i: nat, keys: Keys)
    requires IsRun(states, steps) && i < |states| && Inv(states[0]) && KeysFit(states[0].trusted, keys)
    requires forall step <- steps :: IsHonest(step, keys)
    ensures var s := states[i];
            Trusting(Loaded(s.disk, keys)) == s.trusted <==>
            |s.trusted| <= 64 && AllValid(s.trusted, keys)
  {
    hide Agrees, KeysFit, IsStep, IsHonest;
    AlwaysAgrees(states, steps, i);
    AlwaysFit(states, steps, i, keys);
    RestartExact(states[i], keys);
  }
}
