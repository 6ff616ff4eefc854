/**
 * What one `encrypt` or `decrypt` call of packages/common/src/crypto/ocb2-aes128.ts does
 * to the state it keeps, as functions; module Crypt proves the class against them.
 */
module Packets {
  import opened Wrappers
  import opened Blocks
  import opened Counter
  import opened Ocb

  type Iv = s: seq<Octet> | |s| == BLOCK_SIZE witness Le(0, 16)

  type History = s: seq<Octet> | |s| == 256 witness Le(0, 256)

  datatype Stats = Stats(good: int, late: int, lost: int, resync: int)

  datatype Receiver = Receiver(iv: Iv, history: History, stats: Stats)

  function NonceBlock(iv: Iv): Block {
    seq(BLOCK_SIZE, i requires 0 <= i < BLOCK_SIZE => ToByte(iv[i]))
  }

  /** The packet: the low octet of the nonce, three bytes of tag, and the ciphertext. */
  function Packet(c: Cipher, iv: Iv, plain: seq<bv8>): seq<bv8> {
    var s := Encrypt(c, NonceBlock(iv), plain);
    [ToByte(iv[0])] + s.tag[..3] + s.text
  }

  // ----- rebuilding the nonce from one octet -----

  datatype Guess = Refused | Guess(iv: Iv, late: int, lost: int, restore: bool, checked: bool)

  /** The signed distance between two octets, in -128..128. */
  function Difference(ivbyte: Octet, current: Octet): int {
    var diff := ivbyte as int - current as int;
    if diff > 128 then diff - 256 else if diff < -128 then diff + 256 else diff
  }

  function GuessIv(iv: Iv, ivbyte: Octet): Guess {
    var low, rest := iv[0] as int, iv[1..];
    if (low + 1) % 256 == ivbyte then
      if ivbyte > low then Guess([ivbyte] + rest, 0, 0, false, false)
      else if ivbyte < low then Guess([ivbyte] + Inc(rest), 0, 0, false, false)
      else Refused
    else
      var diff := Difference(ivbyte, iv[0]);
      if ivbyte < low && -30 < diff < 0 then Guess([ivbyte] + rest, 1, -1, true, true)
      else if ivbyte > low && -30 < diff < 0 then Guess([ivbyte] + Dec(rest), 1, -1, true, true)
      else if ivbyte > low && diff > 0 then Guess([ivbyte] + rest, 0, ivbyte - low - 1, false, true)
      else if ivbyte < low && diff > 0 then Guess([ivbyte] + Inc(rest), 0, 256 - low + ivbyte - 1, false, true)
      else Refused
  }

  function Accept(s: Stats, late: int, lost: int): Stats {
    s.(good := s.good + 1,
       late := if late > 0 then s.late + late else s.late - -late,
       lost := if lost > 0 then lost else -lost)
  }

  /** One `decrypt` call: the state after it, and the plaintext if the packet is accepted. */
  function DecryptStep(c: Cipher, r: Receiver, packet: seq<bv8>): (Receiver, Option<seq<bv8>>) {
    if |packet| < 4 then (r, None) else
      ByteOfNumber(packet[0]);
      var g := GuessIv(r.iv, ToNumber(packet[0]));
      if g.Refused? || (g.checked && r.history[g.iv[0]] == g.iv[1]) then (r, None) else
        var o := Decrypt(c, NonceBlock(g.iv), packet[4..]);
        if o.tag[..3] != packet[1..4] then (r, None) else
          (Receiver(if g.restore then r.iv else g.iv, r.history[g.iv[0] := g.iv[1]], Accept(r.stats, g.late, g.lost)),
           Some(o.text))
  }

  /** The distances from the receiver's counter n at which it can rebuild a nonce. */
  predicate InWindow(n: int, d: int) {
    -29 <= d <= -1 || 1 <= d <= 127 || (d == 128 && n % 256 < 128)
  }

  lemma SplitLow(n: int)
    ensures Le(n, 16) == [n % 256] + Le(n / 256, 15) && n == 256 * (n / 256) + n % 256
  {
  }

  lemma TwoLowOctets(n: int)
    ensures Le(n, 16)[0] == n % 256 && Le(n, 16)[1] == n / 256 % 256
  {
    SplitLow(n);
  }

  lemma JoinLow(h: int, l: Octet)
    ensures Le(256 * h + l, 16) == [l] + Le(h, 15)
    ensures (256 * h + l) % 256 == l && (256 * h + l) / 256 == h
  {
    SplitLow(256 * h + l);
  }

  /** The outcome that is right for a packet sent at counter n + d. */
  function Right(n: int, d: int): Guess {
    Guess(Le(n + d, 16), if d < 0 then 1 else 0, if d < 0 then -1 else d - 1, d < 0, d != 1)
  }

  lemma OctetDistance(l: Octet, d: int, b: Octet)
    requires -29 <= d <= 127 || (d == 128 && l < 128)
    requires b == if l + d < 0 then l + d + 256 else if l + d < 256 then l + d else l + d - 256
    ensures Difference(b, l) == d && ((l + 1) % 256 == b <==> d == 1)
  {
  }

  lemma RebuildsForward(h: int, l: Octet, d: int, b: Octet)
    requires 1 <= d <= 127 || (d == 128 && l < 128)
    requires b == if l + d < 256 then l + d else l + d - 256
    ensures GuessIv([l] + Le(h, 15), b) == Right(256 * h + l, d)
  {
    var iv: Iv := [l] + Le(h, 15);
    assert iv[0] == l && iv[1..] == Le(h, 15);
    IncCounts(h, 15);
    OctetDistance(l, d, b);
    if l + d < 256 {
      JoinLow(h, b);
    } else {
      JoinLow(h + 1, b);
    }
  }

  lemma RebuildsBackward(h: int, l: Octet, d: int, b: Octet)
    requires -29 <= d <= -1
    requires b == if l + d < 0 then l + d + 256 else l + d
    ensures GuessIv([l] + Le(h, 15), b) == Right(256 * h + l, d)
  {
    GuessesBack(l, Le(h, 15), d, b);
    if l + d < 0 {
      DecCounts(h, 15);
      JoinLow(h - 1, b);
    } else {
      JoinLow(h, b);
    }
  }

  lemma GuessesBack(l: Octet, rest: seq<Octet>, d: int, b: Octet)
    requires |rest| == 15 && -29 <= d <= -1
    requires b == if l + d < 0 then l + d + 256 else l + d
    ensures GuessIv([l] + rest, b) == Guess([b] + (if l + d < 0 then Dec(rest) else rest), 1, -1, true, true)
  {
    var iv: Iv := [l] + rest;
    assert iv[0] == l && iv[1..] == rest;
    OctetDistance(l, d, b);
  }

  lemma LowOctet(n: int, d: int)
    requires -256 <= d < 256
    ensures var l := n % 256;
      (n + d) % 256 == if l + d < 0 then l + d + 256 else if l + d < 256 then l + d else l + d - 256
  {
  }

  /** Within the window the receiver rebuilds the sender's 16 octets, with carry or borrow. */
  lemma Rebuilds(n: int, d: int)
    requires InWindow(n, d)
    ensures GuessIv(Le(n, 16), (n + d) % 256) == Right(n, d)
  {
    var h, l := n / 256, n % 256;
    SplitLow(n);
    LowOctet(n, d);
    if d < 0 {
      RebuildsBackward(h, l, d, (n + d) % 256);
    } else {
      RebuildsForward(h, l, d, (n + d) % 256);
    }
  }

  /** The distance at which an octet is taken to be, if the receiver does not refuse it. */
  function Distance(n: int, ivbyte: Octet): Option<int> {
    var diff := ivbyte as int - n % 256;
    var d := if diff < -128 then diff + 256 else if diff > 128 then diff - 256 else diff;
    if InWindow(n, d) then Some(d) else None
  }

  lemma DistanceInWindow(n: int, ivbyte: Octet)
    requires Distance(n, ivbyte).Some?
    ensures var d := Distance(n, ivbyte).value; InWindow(n, d) && (n + d) % 256 == ivbyte
  {
  }

  /** Outside the window the receiver refuses. */
  lemma DistanceDecides(n: int, ivbyte: Octet)
    ensures Distance(n, ivbyte).None? <==> GuessIv(Le(n, 16), ivbyte).Refused?
  {
    SplitLow(n);
    if Distance(n, ivbyte).Some? {
      DistanceInWindow(n, ivbyte);
      Rebuilds(n, Distance(n, ivbyte).value);
    }
  }

  /** The receiver's guess is the nonce of the packet sent at counter n + d. */
  ghost predicate Reaches(n: int, d: int) {
    var g := GuessIv(Le(n, 16), (n + d) % 256);
    g.Guess? && g.iv == Le(n + d, 16)
  }

  lemma ReachedFrom(n: int, d: int) returns (e: int)
    requires Reaches(n, d)
    ensures InWindow(n, e) && Le(n + e, 16) == Le(n + d, 16)
  {
    DistanceDecides(n, (n + d) % 256);
    DistanceInWindow(n, (n + d) % 256);
    e := Distance(n, (n + d) % 256).value;
    Rebuilds(n, e);
  }

  lemma ReachesAll(n: int, d: int, e: int)
    requires InWindow(n, e) && Le(n + e, 16) == Le(n + d, 16)
    ensures Reaches(n, d)
  {
    SplitLow(n + e);
    SplitLow(n + d);
    assert Le(n + e, 16)[0] == Le(n + d, 16)[0];
    Rebuilds(n, e);
  }

  /**
   * The exact reach of the receiver: it rebuilds the nonce of a packet sent under
   * counter n + d exactly when d is in the window, up to whole turns of the 128-bit counter.
   */
  lemma RebuildsExactly(n: int, d: int)
    ensures Reaches(n, d) <==> exists e :: InWindow(n, e) && Le(n + e, 16) == Le(n + d, 16)
  {
    if Reaches(n, d) {
      var e := ReachedFrom(n, d);
    }
    forall e | InWindow(n, e) && Le(n + e, 16) == Le(n + d, 16)
      ensures Reaches(n, d)
    {
      ReachesAll(n, d, e);
    }
  }

  // ----- one packet -----

  lemma PacketParts(c: Cipher, iv: Iv, plain: seq<bv8>)
    ensures var p, s := Packet(c, iv, plain), Encrypt(c, NonceBlock(iv), plain);
      |p| == |plain| + 4 && ToNumber(p[0]) == iv[0] && p[1..4] == s.tag[..3] && p[4..] == s.text
  {
    NumberOfByte(iv[0]);
  }

  /** The outcome of a packet at distance d: the plaintext, unless its history slot collides. */
  lemma DecryptsWithinWindow(c: Cipher, r: Receiver, n: int, d: int, plain: seq<bv8>)
    requires Inverts(c) && r.iv == Le(n, 16) && InWindow(n, d)
    ensures var slot, mark := (n + d) % 256, (n + d) / 256 % 256;
      DecryptStep(c, r, Packet(c, Le(n + d, 16), plain))
      == if d != 1 && r.history[slot] == mark then (r, None)
         else (Receiver(if d < 0 then r.iv else Le(n + d, 16), r.history[slot := mark],
                        r.stats.(good := r.stats.good + 1,
                                 late := if d < 0 then r.stats.late + 1 else r.stats.late,
                                 lost := if d < 0 then 1 else d - 1)),
               Some(plain))
  {
    var iv: Iv := Le(n + d, 16);
    var packet := Packet(c, iv, plain);
    TwoLowOctets(n + d);
    PacketParts(c, iv, plain);
    Rebuilds(n, d);
    DecryptUndoesEncrypt(c, NonceBlock(iv), plain);
    AcceptedStep(c, r, packet, iv[0], Right(n, d), plain, Encrypt(c, NonceBlock(iv), plain).tag);
    RightCounts(n, d, r.stats);
  }

  lemma RightCounts(n: int, d: int, s: Stats)
    requires d != 0
    ensures var g := Right(n, d);
      Accept(s, g.late, g.lost)
      == s.(good := s.good + 1, late := if d < 0 then s.late + 1 else s.late, lost := if d < 0 then 1 else d - 1)
  {
  }

  /** The step on a packet whose guessed nonce decrypts it with the right tag. */
  lemma AcceptedStep(c: Cipher, r: Receiver, packet: seq<bv8>, ivbyte: Octet, g: Guess, plain: seq<bv8>, tag: Block)
    requires |packet| >= 4 && ToNumber(packet[0]) == ivbyte && g.Guess? && g == GuessIv(r.iv, ivbyte)
    requires Decrypt(c, NonceBlock(g.iv), packet[4..]) == Sealed(plain, tag) && tag[..3] == packet[1..4]
    ensures DecryptStep(c, r, packet)
      == if g.checked && r.history[g.iv[0]] == g.iv[1] then (r, None)
         else (Receiver(if g.restore then r.iv else g.iv, r.history[g.iv[0] := g.iv[1]], Accept(r.stats, g.late, g.lost)), Some(plain))
  {
    ByteOfNumber(packet[0]);
  }

  /**
   * The history starts as zeros and an IV whose second octet is zero looks as if it had
   * been seen: a receiver that has accepted nothing refuses the packet after a lost one.
   */
  lemma UnseenPacketRefused(c: Cipher, r: Receiver, n: int, d: int, plain: seq<bv8>)
    requires Inverts(c) && r.iv == Le(n, 16) && InWindow(n, d) && d != 1
    requires forall i :: 0 <= i < 256 ==> r.history[i] == 0
    ensures DecryptStep(c, r, Packet(c, Le(n + d, 16), plain)).1.None? <==> (n + d) / 256 % 256 == 0
  {
    DecryptsWithinWindow(c, r, n, d, plain);
  }

  /** A new receiver, and the very first packet is lost: the second one, under counter 2, is refused. */
  lemma SecondPacketRefused(c: Cipher, plain: seq<bv8>)
    requires Inverts(c)
    ensures var r := Receiver(Zeros(16), Zeros(256), Stats(0, 0, 0, 0));
      DecryptStep(c, r, Packet(c, [2] + Zeros(15), plain)).1.None?
  {
    var r := Receiver(Zeros(16), Zeros(256), Stats(0, 0, 0, 0));
    var n: int := 0;
    ZeroOctets(n, 16);
    ZeroOctets(n, 15);
    JoinLow(n, 2);
    UnseenPacketRefused(c, r, n, 2, plain);
  }

  function Zeros(k: nat): (s: seq<Octet>)
    ensures |s| == k && forall i :: 0 <= i < k ==> s[i] == 0
  {
    seq(k, i requires 0 <= i < k => 0)
  }

  lemma {:induction false} ZeroOctets(n: int, k: nat)
    requires n == 0
    ensures Le(n, k) == Zeros(k)
    decreases k
  {
    if k > 0 {
      ZeroOctets(n, k - 1);
      assert Zeros(k) == [0] + Zeros(k - 1);
    }
  }
}
