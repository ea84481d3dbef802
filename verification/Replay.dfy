/** The anti-replay window of a lossy transport: a 64-bit bitmap behind the highest accepted nonce. */
module Replay {
  import opened Basics
  import opened Word64

  /** Width of the window, in frames. */
  const REPLAY_WINDOW: nat := 64

  /** Bit `i` of `bitmap` records that `highest - i` was accepted. */
  datatype Window = Window(highest: u64, bitmap: u64, started: bool)

  const EMPTY: Window := Window(0, 0, false)

  /** Not seen yet, and not too old to track. */
  predicate Fresh(w: Window, nonce: u64) {
    if !w.started || nonce > w.highest then true
    else
      var diff := w.highest - nonce;
      if diff >= REPLAY_WINDOW then false else And(w.bitmap, Shl(1, diff)) == 0
  }

  class ReplayWindow {
    var highest: u64
    var bitmap: u64
    var started: bool

    function View(): Window reads this { Window(highest, bitmap, started) }

    constructor ()
      ensures View() == EMPTY
    {
      highest, bitmap, started := 0, 0, false;
    }

    predicate IsFresh(nonce: u64) reads this { Fresh(View(), nonce) }

    method Accept(nonce: u64)
      modifies this
      ensures View() == Accepted(old(View()), nonce)
    {
      if !started {
        started := true;
        highest := nonce;
        bitmap := 1;
        return;
      }
      if nonce > highest {
        var shift := nonce - highest;
        OrIsWord(Shl(bitmap, shift), 1);
        bitmap := if shift >= REPLAY_WINDOW then 1 else Or(Shl(bitmap, shift), 1);
        highest := nonce;
      } else {
        var diff := highest - nonce;
        if diff < REPLAY_WINDOW {
          OrIsWord(bitmap, Shl(1, diff));
          bitmap := Or(bitmap, Shl(1, diff));
        }
      }
    }
  }

  /** The window after `nonce` is recorded. */
  function Accepted(w: Window, nonce: u64): Window {
    if !w.started then Window(nonce, 1, true)
    else if nonce > w.highest then
      var shift := nonce - w.highest;
      OrIsWord(Shl(w.bitmap, shift), 1);
      Window(nonce, if shift >= REPLAY_WINDOW then 1 else Or(Shl(w.bitmap, shift), 1), true)
    else
      var diff := w.highest - nonce;
      OrIsWord(w.bitmap, Shl(1, diff));
      if diff < REPLAY_WINDOW then w.(bitmap := Or(w.bitmap, Shl(1, diff))) else w
  }

  // ── The bitmap stands for the set of accepted nonces ────────────────

  /** The window remembers exactly the accepted nonces that are not too old. */
  ghost predicate Tracks(w: Window, accepted: set<u64>) {
    && (w.started <==> accepted != {})
    && (w.started ==> w.highest in accepted)
    && (forall n :: n in accepted ==> n <= w.highest)
    && (forall i: nat :: i < REPLAY_WINDOW && i <= w.highest && w.started ==>
          (Bit(w.bitmap, i) <==> w.highest - i in accepted))
  }

  lemma AcceptTracks(w: Window, accepted: set<u64>, nonce: u64)
    requires Tracks(w, accepted)
    ensures Tracks(Accepted(w, nonce), accepted + {nonce})
  {
    var w' := Accepted(w, nonce);
    forall i: nat | i < REPLAY_WINDOW && i <= w'.highest
      ensures Bit(w'.bitmap, i) <==> w'.highest - i in accepted + {nonce}
    {
      OneBit(i);
      if w.started && nonce > w.highest {
        var shift := nonce - w.highest;
        if shift < REPLAY_WINDOW {
          OrBit(Shl(w.bitmap, shift), 1, i);
          ShlBit(w.bitmap, shift, i);
        }
      } else if w.started && w.highest - nonce < REPLAY_WINDOW {
        OrBit(w.bitmap, Shl(1, w.highest - nonce), i);
        MaskBit(w.highest - nonce, i);
      }
    }
  }

  /** Not older than the window: fewer than `REPLAY_WINDOW` behind the highest accepted nonce. */
  predicate InWindow(w: Window, nonce: u64) { w.started ==> nonce + REPLAY_WINDOW > w.highest }

  /** A nonce is fresh iff it was never accepted and is not too old to tell. */
  lemma FreshExact(w: Window, accepted: set<u64>, nonce: u64)
    requires Tracks(w, accepted)
    ensures Fresh(w, nonce) <==> nonce !in accepted && InWindow(w, nonce)
  {
    if w.started && nonce <= w.highest && w.highest - nonce < REPLAY_WINDOW {
      TestBit(w.bitmap, w.highest - nonce);
      assert w.highest - (w.highest - nonce) == nonce;
    }
  }

  /** Every nonce accepted so far is less than 64 ahead. */
  ghost predicate IsInTime(accepted: set<u64>, nonce: u64) { forall n :: n in accepted ==> n < nonce + 64 }

  lemma InTimeExact(w: Window, accepted: set<u64>, nonce: u64)
    requires Tracks(w, accepted)
    ensures IsInTime(accepted, nonce) <==> InWindow(w, nonce)
  {
  }

  // ── Decrypting frames ───────────────────────────────────────────────

  const NONCE_PREFIX_LEN: nat := 8

  function LittleEndian(b: seq<byte>): nat {
    if b == [] then 0 else b[0] + 256 * LittleEndian(b[1..])
  }

  lemma {:induction false} LittleEndianFits(b: seq<byte>)
    ensures LittleEndian(b) < Pow2(8 * |b|)
  {
    if b != [] {
      LittleEndianFits(b[1..]);
      Pow2Eight(8 * (|b| - 1));
    }
  }

  /** The cipher: the plaintext of an authentic frame, `None` when the tag does not match. */
  type Cipher = (u64, seq<byte>) -> Option<seq<byte>>

  /** Too short to carry a nonce and a tag. */
  predicate IsRunt(framed: seq<byte>) { |framed| < NONCE_PREFIX_LEN + 16 }

  function NonceOf(framed: seq<byte>): u64
    requires !IsRunt(framed)
  {
    LittleEndianFits(framed[..NONCE_PREFIX_LEN]);
    Pow2Word();
    LittleEndian(framed[..NONCE_PREFIX_LEN])
  }

  /** What the cipher says of a frame, whatever the window holds. */
  function Opened(cipher: Cipher, framed: seq<byte>): Option<seq<byte>> {
    if IsRunt(framed) then None else cipher(NonceOf(framed), framed[NONCE_PREFIX_LEN..])
  }

  /** The sending half: the sealed plaintext, or `None` when the cipher refuses. */
  type Sealer = (u64, seq<byte>) -> Option<seq<byte>>

  /** The frame that carries this nonce and ciphertext: the nonce in eight bytes, the least significant first. */
  ghost predicate IsFrame(framed: seq<byte>, nonce: u64, ciphertext: seq<byte>) {
    && |framed| == 8 + |ciphertext| && framed[8..] == ciphertext && |ciphertext| >= 16
    && framed[0] == nonce % 0x100
    && framed[1] == nonce / 0x100 % 0x100
    && framed[2] == nonce / 0x1_0000 % 0x100
    && framed[3] == nonce / 0x100_0000 % 0x100
    && framed[4] == nonce / 0x1_0000_0000 % 0x100
    && framed[5] == nonce / 0x100_0000_0000 % 0x100
    && framed[6] == nonce / 0x1_0000_0000_0000 % 0x100
    && framed[7] == nonce / 0x100_0000_0000_0000 % 0x100
  }

  /** The bytes of a number, least significant first. */
  function Digits(n: nat, k: nat): (r: seq<byte>)
    ensures |r| == k
  {
    if k == 0 then [] else [n % 256] + Digits(n / 256, k - 1)
  }

  lemma DigitsNext(n: nat, k: nat)
    requires k > 0
    ensures Digits(n, k)[0] == n % 256 && Digits(n, k)[1..] == Digits(n / 256, k - 1)
  {
  }

  lemma Divided(n: nat)
    ensures n / 0x100 / 0x100 == n / 0x1_0000
    ensures n / 0x1_0000 / 0x100 == n / 0x100_0000
    ensures n / 0x100_0000 / 0x100 == n / 0x1_0000_0000
    ensures n / 0x1_0000_0000 / 0x100 == n / 0x100_0000_0000
    ensures n / 0x100_0000_0000 / 0x100 == n / 0x1_0000_0000_0000
    ensures n / 0x1_0000_0000_0000 / 0x100 == n / 0x100_0000_0000_0000
  {
  }

  lemma EightDigits(n: nat)
    ensures Digits(n, 8) == [
              n % 0x100, n / 0x100 % 0x100, n / 0x1_0000 % 0x100, n / 0x100_0000 % 0x100, n / 0x1_0000_0000 % 0x100,
              n / 0x100_0000_0000 % 0x100, n / 0x1_0000_0000_0000 % 0x100, n / 0x100_0000_0000_0000 % 0x100]
  {
    hide Digits;
    Divided(n);
    DigitsNext(n, 8);
    DigitsNext(n / 0x100, 7);
    DigitsNext(n / 0x1_0000, 6);
    DigitsNext(n / 0x100_0000, 5);
    DigitsNext(n / 0x1_0000_0000, 4);
    DigitsNext(n / 0x100_0000_0000, 3);
    DigitsNext(n / 0x1_0000_0000_0000, 2);
    DigitsNext(n / 0x100_0000_0000_0000, 1);
  }

  /** A number is read back from its bytes. */
  lemma {:induction false} ReadBack(n: nat, k: nat)
    requires n < Pow2(8 * k)
    ensures LittleEndian(Digits(n, k)) == n
  {
    if k > 0 {
      Pow2Eight(8 * (k - 1));
      ReadBack(n / 256, k - 1);
      DigitsNext(n, k);
    }
  }

  /** A frame is taken for what it carries. */
  lemma FrameIsRead(framed: seq<byte>, nonce: u64, ciphertext: seq<byte>)
    requires IsFrame(framed, nonce, ciphertext)
    ensures !IsRunt(framed) && NonceOf(framed) == nonce && framed[NONCE_PREFIX_LEN..] == ciphertext
  {
    hide LittleEndian, Digits, Pow2;
    EightDigits(nonce);
    assert framed[..8] == Digits(nonce, 8);
    Pow2Word();
    ReadBack(nonce, 8);
  }

  lemma {:induction false} DigitsOf(b: seq<byte>)
    ensures Digits(LittleEndian(b), |b|) == b
  {
    if b != [] {
      DigitsOf(b[1..]);
      assert LittleEndian(b) % 256 == b[0] && LittleEndian(b) / 256 == LittleEndian(b[1..]);
    }
  }

  /** Every payload that is long enough is a frame. */
  lemma EveryPayloadIsAFrame(framed: seq<byte>)
    requires |framed| >= 24
    ensures IsFrame(framed, NonceOf(framed), framed[8..])
  {
    hide LittleEndian, Digits;
    var prefix := framed[..8];
    DigitsOf(prefix);
    EightDigits(LittleEndian(prefix));
    assert forall i :: 0 <= i < 8 ==> framed[i] == prefix[i];
  }

  class Session {
    const cipher: Cipher
    const sealer: Sealer
    const replay: ReplayWindow
    var sendingNonce: u64
    /** Every nonce whose frame was handed to the caller. */
    ghost var accepted: set<u64>

    ghost predicate Valid() reads this, replay { Tracks(replay.View(), accepted) }

    constructor (cipher: Cipher, sealer: Sealer)
      ensures Valid() && accepted == {} && fresh(replay) && this.cipher == cipher && this.sealer == sealer
      ensures sendingNonce == 0
    {
      this.cipher, this.sealer := cipher, sealer;
      sendingNonce := 0;
      replay := new ReplayWindow();
      accepted := {};
    }

    /** Frames the sealed plaintext under the next nonce; the last nonce of all is never used. */
    method Encrypt(plaintext: seq<byte>) returns (r: Option<seq<byte>>)
      requires forall n: u64, p :: sealer(n, p).Some? ==> |sealer(n, p).value| >= 16
      modifies this`sendingNonce
      ensures var nonce := old(sendingNonce);
              if nonce < 0xFFFF_FFFF_FFFF_FFFF && sealer(nonce, plaintext).Some?
              then r.Some? && IsFrame(r.value, nonce, sealer(nonce, plaintext).value) && sendingNonce == nonce + 1
              else r.None? && sendingNonce == nonce
    {
      var nonce := sendingNonce;
      if nonce == 0xFFFF_FFFF_FFFF_FFFF {
        return None;
      }
      var sealed := sealer(nonce, plaintext);
      if sealed.None? {
        return None;
      }
      sendingNonce := sendingNonce + 1;
      var out := Digits(nonce, NONCE_PREFIX_LEN);
      EightDigits(nonce);
      out := out + sealed.value;
      return Some(out);
    }

    /** Hands over the plaintext iff the frame is authentic and its nonce is new and in the window. */
    method Decrypt(framed: seq<byte>) returns (r: Option<seq<byte>>)
      requires Valid()
      modifies this`accepted, replay
      ensures Valid()
      ensures |framed| < 24 ==> r.None?
      ensures forall n, c :: IsFrame(framed, n, c) ==>
                if cipher(n, c).Some? && n !in old(accepted) && IsInTime(old(accepted), n)
                then r == cipher(n, c) && accepted == old(accepted) + {n}
                else r.None? && accepted == old(accepted)
      ensures r.Some? <==>
              && Opened(cipher, framed).Some?
              && NonceOf(framed) !in old(accepted) && InWindow(old(replay.View()), NonceOf(framed))
      ensures r.Some? ==> r == Opened(cipher, framed) && accepted == old(accepted) + {NonceOf(framed)}
      ensures r.Some? ==> replay.View() == Accepted(old(replay.View()), NonceOf(framed))
      ensures r.None? ==> replay.View() == old(replay.View()) && accepted == old(accepted)
    {
      if IsRunt(framed) {
        return None;
      }
      forall n, c | IsFrame(framed, n, c) ensures NonceOf(framed) == n && framed[NONCE_PREFIX_LEN..] == c {
        FrameIsRead(framed, n, c);
      }
      var nonce := NonceOf(framed);
      FreshExact(replay.View(), accepted, nonce);
      InTimeExact(replay.View(), accepted, nonce);
      if !replay.IsFresh(nonce) {
        return None;
      }
      r := cipher(nonce, framed[NONCE_PREFIX_LEN..]);
      if r.None? {
        return;
      }
      AcceptTracks(replay.View(), accepted, nonce);
      replay.Accept(nonce);
      accepted := accepted + {nonce};
    }
  }

  /** The two ends share a key: what one seals the other opens, under the same nonce. */
  ghost predicate SharesKey(sealer: Sealer, cipher: Cipher) {
    forall n: u64, p :: sealer(n, p).Some? ==> |sealer(n, p).value| >= 16 && cipher(n, sealer(n, p).value) == Some(p)
  }

  /** What is sent arrives, as long as the receiver has not had the nonce and the frame is not too late. */
  method SendAndReceive(from: Session, to: Session, plaintext: seq<byte>) returns (sent: bool, got: Option<seq<byte>>)
    requires from != to && from.Valid() && to.Valid() && from.replay != to.replay && SharesKey(from.sealer, to.cipher)
    modifies from`sendingNonce, to`accepted, to.replay
    ensures to.Valid()
    ensures var nonce := old(from.sendingNonce);
            sent ==> got == if nonce !in old(to.accepted) && IsInTime(old(to.accepted), nonce) then Some(plaintext) else None
    ensures !sent ==> got.None? && to.accepted == old(to.accepted)
  {
    var frame := from.Encrypt(plaintext);
    sent := frame.Some?;
    got := None;
    if sent {
      got := to.Decrypt(frame.value);
    }
  }

  // ── Whole runs ──────────────────────────────────────────────────────

  /** One received frame as the window sees it. */
  datatype Arrival = Arrival(nonce: u64, authentic: bool)

  predicate IsDelivered(w: Window, a: Arrival) { Fresh(w, a.nonce) && a.authentic }

  /** The window after a run: only delivered frames are recorded. */
  function AfterRun(run: seq<Arrival>): Window {
    if run == [] then EMPTY
    else
      var w, a := AfterRun(run[..|run| - 1]), run[|run| - 1];
      if IsDelivered(w, a) then Accepted(w, a.nonce) else w
  }

  predicate DeliveredAt(run: seq<Arrival>, i: nat)
    requires i < |run|
  {
    IsDelivered(AfterRun(run[..i]), run[i])
  }

  ghost function DeliveredNonces(run: seq<Arrival>): set<u64> {
    set i | 0 <= i < |run| && DeliveredAt(run, i) :: run[i].nonce
  }

  lemma {:induction false} RunTracks(run: seq<Arrival>)
    ensures Tracks(AfterRun(run), DeliveredNonces(run))
  {
    if run != [] {
      var n := |run| - 1;
      var before, a := run[..n], run[n];
      RunTracks(before);
      forall i | 0 <= i < n ensures DeliveredAt(before, i) <==> DeliveredAt(run, i) {
        assert before[..i] == run[..i];
      }
      var was, now := DeliveredNonces(before), DeliveredNonces(run);
      assert now == if DeliveredAt(run, n) then was + {a.nonce} else was by {
        forall m | m in was ensures m in now {
          var i :| 0 <= i < n && DeliveredAt(before, i) && before[i].nonce == m;
          assert DeliveredAt(run, i) && run[i].nonce == m;
        }
        forall m | m in now ensures m in was || (DeliveredAt(run, n) && m == a.nonce) {
          var i :| 0 <= i < |run| && DeliveredAt(run, i) && run[i].nonce == m;
          if i < n { assert DeliveredAt(before, i) && before[i].nonce == m; }
        }
      }
      AcceptTracks(AfterRun(before), was, a.nonce);
    }
  }

  /** Over any run a frame is delivered iff it is authentic, its nonce was not delivered before, and it is in the window. */
  lemma DeliveredExact(run: seq<Arrival>, i: nat)
    requires i < |run|
    ensures DeliveredAt(run, i) <==>
            && run[i].authentic
            && run[i].nonce !in DeliveredNonces(run[..i])
            && IsInTime(DeliveredNonces(run[..i]), run[i].nonce)
  {
    var w := AfterRun(run[..i]);
    RunTracks(run[..i]);
    FreshExact(w, DeliveredNonces(run[..i]), run[i].nonce);
    InTimeExact(w, DeliveredNonces(run[..i]), run[i].nonce);
  }

  /** No nonce is delivered twice. */
  lemma NoReplay(run: seq<Arrival>, i: nat, j: nat)
    requires i < j < |run| && DeliveredAt(run, i) && DeliveredAt(run, j)
    ensures run[i].nonce != run[j].nonce
  {
    DeliveredExact(run, j);
    var before := run[..j];
    assert before[..i] == run[..i] && DeliveredAt(before, i);
  }

  /** Reordering inside the window costs nothing: an authentic frame that was not delivered before is delivered. */
  lemma ReorderedIsDelivered(run: seq<Arrival>, i: nat)
    requires i < |run| && run[i].authentic
    requires forall j :: 0 <= j < i ==> run[j].nonce != run[i].nonce
    requires forall j :: 0 <= j < i && run[j].authentic ==> run[j].nonce < run[i].nonce + 64
    ensures DeliveredAt(run, i)
  {
    DeliveredExact(run, i);
    RunTracks(run[..i]);
    var w, past := AfterRun(run[..i]), DeliveredNonces(run[..i]);
    if w.started {
      var j :| 0 <= j < i && DeliveredAt(run[..i], j) && run[..i][j].nonce == w.highest;
    }
  }
}
