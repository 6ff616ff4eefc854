/**
 * What the packets of packages/common/src/crypto/ocb2-aes128.ts are, byte by byte and by their
 * counter, and that a receiver accepts no others.
 */
module Genuine {
  import opened Wrappers
  import opened Blocks
  import opened Counter
  import opened Ocb
  import opened Packets
  import opened Runs

  // ----- the nonce of a counter -----

  lemma {:induction false} OctetOfCounter(n: int, k: nat, i: nat)
    requires i < k
    ensures Le(n, k)[i] == n / Pow256(i) % 256
    decreases k
  {
    if i > 0 {
      OctetOfCounter(n / 256, k - 1, i - 1);
      DivideTwice(n, Pow256(i - 1));
    }
  }

  lemma DivideTwice(n: int, p: nat)
    requires p > 0
    ensures n / 256 / p == n / (256 * p)
  {
    var q, r := n / 256, n % 256;
    var s, t := q / p, q % p;
    assert n == 256 * q + r && q == p * s + t;
    assert 256 * (p * s) == (256 * p) * s;
    assert n == (256 * p) * s + (256 * t + r);
    QuotientUnique(n, 256 * p, s, 256 * t + r);
  }

  lemma QuotientUnique(n: int, m: nat, s: int, r: int)
    requires m > 0 && n == m * s + r && 0 <= r < m
    ensures n / m == s
  {
    var q := n / m;
    assert n == m * q + n % m;
    assert m * s == s * m && m * q == q * m;
    MulMonotone(q + 1, s, m);
    MulMonotone(s + 1, q, m);
  }

  /** The nonce under counter n: byte i stands for the i-th digit of n in base 256, lowest first. */
  lemma NonceBytes(n: int, i: nat)
    requires i < BLOCK_SIZE
    ensures NonceBlock(Le(n, 16))[i] as int == n / Pow256(i) % 256
  {
    OctetOfCounter(n, 16, i);
    NumberOfByte(Le(n, 16)[i]);
  }

  lemma NonceBlockInjective(a: Iv, b: Iv)
    ensures NonceBlock(a) == NonceBlock(b) <==> a == b
  {
    if NonceBlock(a) == NonceBlock(b) {
      forall i | 0 <= i < BLOCK_SIZE
        ensures a[i] == b[i]
      {
        NumberOfByte(a[i]);
        NumberOfByte(b[i]);
        assert NonceBlock(a)[i] == NonceBlock(b)[i];
      }
    }
  }

  /** Two counters have the same nonce exactly when they are whole turns of 2^128 apart. */
  lemma NonceSameExactly(a: int, b: int)
    ensures NonceBlock(Le(a, 16)) == NonceBlock(Le(b, 16)) <==> a % Pow256(16) == b % Pow256(16)
  {
    NonceBlockInjective(Le(a, 16), Le(b, 16));
    LeSame(a, b, 16);
  }

  /** So over any run too short to turn the counter around, no block is ever accepted as a nonce twice. */
  lemma NoNonceBlockTwice(c: Cipher, r: Receiver, packets: seq<seq<bv8>>, i: nat, j: nat)
    requires i < j < |Nonces(c, r, packets)|
    ensures NonceBlock(Nonces(c, r, packets)[i]) == NonceBlock(Nonces(c, r, packets)[j]) ==> 128 * |packets| + 29 >= Pow256(16)
  {
    NonceBlockInjective(Nonces(c, r, packets)[i], Nonces(c, r, packets)[j]);
    NoNonceTwice(c, r, packets, i, j);
  }

  // ----- the bytes of a packet -----

  /**
   * The packet under counter n: the low octet of n, the first three bytes of the tag, and the
   * ciphertext, both under the nonce of n.
   */
  lemma PacketLayout(c: Cipher, n: int, plain: seq<bv8>)
    ensures var packet, s := Packet(c, Le(n, 16), plain), Encrypt(c, NonceBlock(Le(n, 16)), plain);
      |packet| == |plain| + 4 && packet[0] as int == n % 256 && packet[1] == s.tag[0] && packet[2] == s.tag[1]
      && packet[3] == s.tag[2] && packet[4..] == s.text
  {
    NumberOfByte(Le(n, 16)[0]);
    TwoLowOctets(n);
  }

  /** The i-th block of ciphertext in the packet of counter n, from the nonce of n alone. */
  lemma PacketBlock(c: Cipher, n: int, plain: seq<bv8>, i: nat)
    requires i < FullBlocks(|plain|)
    ensures BLOCK_SIZE * (i + 1) <= |plain|
    ensures var mask := Times2(i + 1, c.enc(NonceBlock(Le(n, 16))));
      BlockAt(Packet(c, Le(n, 16), plain)[4..], i) == Xor(mask, c.enc(Xor(mask, BlockAt(plain, i))))
  {
    PacketLayout(c, n, plain);
    CipherBlock(c, c.enc(NonceBlock(Le(n, 16))), Zero(), plain, i);
  }

  // ----- nothing else is accepted -----

  /** An accepted packet is the one that a sender makes of the plaintext under some counter in the window. */
  lemma AcceptedIsGenuine(c: Cipher, r: Receiver, n: int, packet: seq<bv8>) returns (d: int)
    requires Bijective(c) && r.iv == Le(n, 16) && DecryptStep(c, r, packet).1.Some?
    ensures InWindow(n, d) && packet == Packet(c, Le(n + d, 16), DecryptStep(c, r, packet).1.value)
    ensures d != 1 ==> r.history[(n + d) % 256] != (n + d) / 256 % 256
  {
    d := AcceptedAt(c, r, packet, n);
    var iv: Iv := Le(n + d, 16);
    var text := packet[4..];
    AcceptedOpens(c, r, packet, iv);
    EncryptUndoesDecrypt(c, NonceBlock(iv), text);
    assert packet == [packet[0]] + packet[1..4] + text;
  }

  /** The nonce that was guessed decrypts the packet, and its tag is the packet's. */
  lemma AcceptedOpens(c: Cipher, r: Receiver, packet: seq<bv8>, iv: Iv)
    requires AcceptedNonce(c, r, packet) == Some(iv)
    ensures |packet| >= 4 && packet[0] == ToByte(iv[0])
    ensures var o := Decrypt(c, NonceBlock(iv), packet[4..]); DecryptStep(c, r, packet).1 == Some(o.text) && o.tag[..3] == packet[1..4]
  {
    ByteOfNumber(packet[0]);
  }

  /**
   * The exact law of the receiver: it accepts a packet as some plaintext exactly when the packet is
   * what a sender makes of that plaintext under a counter in the window that is the next one, or
   * whose history slot does not hold its mark.
   */
  lemma AcceptsExactly(c: Cipher, r: Receiver, n: int, packet: seq<bv8>, plain: seq<bv8>)
    requires Bijective(c) && r.iv == Le(n, 16)
    ensures DecryptStep(c, r, packet).1 == Some(plain) <==>
      exists d :: InWindow(n, d) && packet == Packet(c, Le(n + d, 16), plain) && Free(r, n, d)
  {
    if DecryptStep(c, r, packet).1 == Some(plain) {
      var d := AcceptedIsGenuine(c, r, n, packet);
      assert Free(r, n, d);
    }
    if d :| InWindow(n, d) && packet == Packet(c, Le(n + d, 16), plain) && Free(r, n, d) {
      RefusedOnCollision(c, r, n, d, plain);
    }
  }

  predicate Free(r: Receiver, n: int, d: int) {
    d == 1 || r.history[(n + d) % 256] != (n + d) / 256 % 256
  }

  /** A genuine packet with one of its three tag bytes changed is refused, and changes nothing. */
  lemma ChangedTagRefused(c: Cipher, r: Receiver, n: int, d: int, plain: seq<bv8>, i: nat, b: bv8)
    requires Inverts(c) && r.iv == Le(n, 16) && InWindow(n, d) && 1 <= i < 4
    requires b != Packet(c, Le(n + d, 16), plain)[i]
    ensures DecryptStep(c, r, Packet(c, Le(n + d, 16), plain)[i := b]) == (r, None)
  {
    var iv: Iv := Le(n + d, 16);
    var packet := Packet(c, iv, plain);
    var changed := packet[i := b];
    PacketParts(c, iv, plain);
    TwoLowOctets(n + d);
    Rebuilds(n, d);
    DecryptUndoesEncrypt(c, NonceBlock(iv), plain);
    TagMustFit(c, r, changed, iv);
    assert changed[4..] == packet[4..] && changed[0] == packet[0];
    assert changed[1..4][i - 1] == b && packet[1..4][i - 1] == packet[i];
  }

  /** A packet under a guessed nonce is refused unless its tag fits. */
  lemma TagMustFit(c: Cipher, r: Receiver, packet: seq<bv8>, iv: Iv)
    requires |packet| >= 4 && ToNumber(packet[0]) < 256
    requires var g := GuessIv(r.iv, ToNumber(packet[0])); g.Guess? && g.iv == iv
    ensures Decrypt(c, NonceBlock(iv), packet[4..]).tag[..3] != packet[1..4] ==> DecryptStep(c, r, packet) == (r, None)
  {
  }
}
