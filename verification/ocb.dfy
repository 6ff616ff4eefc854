/**
 * The OCB 2.0 mode of packages/common/src/crypto/ocb2-aes128.ts. The block cipher
 * is a parameter: any pair of block functions of which the second undoes the first.
 */
module Ocb {
  import opened Blocks

  datatype Cipher = Cipher(enc: Block -> Block, dec: Block -> Block)

  ghost predicate Inverts(c: Cipher) {
    forall b: Block :: c.dec(c.enc(b)) == b
  }

  datatype Sealed = Sealed(text: seq<bv8>, tag: Block)

  /** The block whose last byte is the length, in bits, of the last partial block. */
  function LengthBlock(len: nat): Block
    requires len <= BLOCK_SIZE
  {
    Zero()[BLOCK_SIZE - 1 := ToByte(8 * len)]
  }

  /** The mode from an offset and a checksum onwards; the last block holds 0 to 16 bytes. */
  function Seal(c: Cipher, delta: Block, checksum: Block, plain: seq<bv8>): (r: Sealed)
    ensures |r.text| == |plain|
    decreases |plain|
  {
    var d := S2(delta);
    if |plain| > BLOCK_SIZE then
      var p: Block := plain[..BLOCK_SIZE];
      var rest := Seal(c, d, Xor(checksum, p), plain[BLOCK_SIZE..]);
      Sealed(Xor(d, c.enc(Xor(d, p))) + rest.text, rest.tag)
    else
      var pad := c.enc(Xor(LengthBlock(|plain|), d));
      var last: Block := plain + pad[|plain|..];
      Sealed(Xor(pad, last)[..|plain|], c.enc(Xor(S3(d), Xor(checksum, last))))
  }

  function Open(c: Cipher, delta: Block, checksum: Block, text: seq<bv8>): (r: Sealed)
    ensures |r.text| == |text|
    decreases |text|
  {
    var d := S2(delta);
    if |text| > BLOCK_SIZE then
      var p := Xor(d, c.dec(Xor(d, text[..BLOCK_SIZE])));
      var rest := Open(c, d, Xor(checksum, p), text[BLOCK_SIZE..]);
      Sealed(p + rest.text, rest.tag)
    else
      var pad := c.enc(Xor(LengthBlock(|text|), d));
      var last := Xor(text + Zero()[|text|..], pad);
      Sealed(last[..|text|], c.enc(Xor(S3(d), Xor(checksum, last))))
  }

  function Encrypt(c: Cipher, nonce: Block, plain: seq<bv8>): (r: Sealed)
    ensures |r.text| == |plain|
  {
    Seal(c, c.enc(nonce), Zero(), plain)
  }

  function Decrypt(c: Cipher, nonce: Block, text: seq<bv8>): (r: Sealed)
    ensures |r.text| == |text|
  {
    Open(c, c.enc(nonce), Zero(), text)
  }

  lemma {:induction false} OpenUndoesSeal(c: Cipher, delta: Block, checksum: Block, plain: seq<bv8>)
    requires Inverts(c)
    ensures var s := Seal(c, delta, checksum, plain);
      Open(c, delta, checksum, s.text) == Sealed(plain, s.tag)
    decreases |plain|
  {
    var d := S2(delta);
    var s := Seal(c, delta, checksum, plain);
    if |plain| > BLOCK_SIZE {
      var p: Block := plain[..BLOCK_SIZE];
      var e := c.enc(Xor(d, p));
      var rest := Seal(c, d, Xor(checksum, p), plain[BLOCK_SIZE..]);
      assert s.text[..BLOCK_SIZE] == Xor(d, e) && s.text[BLOCK_SIZE..] == rest.text;
      XorCancels(d, e);
      XorCancels(d, p);
      OpenUndoesSeal(c, d, Xor(checksum, p), plain[BLOCK_SIZE..]);
    } else {
      var n := |plain|;
      var pad := c.enc(Xor(LengthBlock(n), d));
      var last: Block := plain + pad[n..];
      LastBlockAgrees(pad, last, n);
      assert last[..n] == plain;
    }
  }

  /** Past its end, the receiver's padded ciphertext decrypts to the pad itself. */
  lemma LastBlockAgrees(pad: Block, last: Block, n: nat)
    requires n <= BLOCK_SIZE && last[n..] == pad[n..]
    ensures Xor(Xor(pad, last)[..n] + Zero()[n..], pad) == last
  {
    var t := Xor(pad, last)[..n] + Zero()[n..];
    forall i | 0 <= i < BLOCK_SIZE
      ensures t[i] ^ pad[i] == last[i]
    {
      if i >= n {
        assert last[i] == last[n..][i - n] == pad[n..][i - n] == pad[i];
        assert (0 as bv8) ^ pad[i] == pad[i];
      } else {
        assert (pad[i] ^ last[i]) ^ pad[i] == last[i];
      }
    }
  }

  /** What the mode is for: the receiver gets the plaintext back and computes the sender's tag. */
  lemma DecryptUndoesEncrypt(c: Cipher, nonce: Block, plain: seq<bv8>)
    requires Inverts(c)
    ensures var s := Encrypt(c, nonce, plain);
      |s.text| == |plain| && Decrypt(c, nonce, s.text) == Sealed(plain, s.tag)
  {
    OpenUndoesSeal(c, c.enc(nonce), Zero(), plain);
  }

  /** The cipher undoes its inverse as well: a bijection on blocks. */
  ghost predicate Bijective(c: Cipher) {
    Inverts(c) && forall b: Block :: c.enc(c.dec(b)) == b
  }

  /** Conversely every ciphertext is that of the plaintext it decrypts to, with the tag computed for it. */
  lemma {:induction false} SealUndoesOpen(c: Cipher, delta: Block, checksum: Block, text: seq<bv8>)
    requires Bijective(c)
    ensures var o := Open(c, delta, checksum, text); Seal(c, delta, checksum, o.text) == Sealed(text, o.tag)
    decreases |text|
  {
    var d := S2(delta);
    var o := Open(c, delta, checksum, text);
    if |text| > BLOCK_SIZE {
      var e := c.dec(Xor(d, text[..BLOCK_SIZE]));
      var p := Xor(d, e);
      var rest := Open(c, d, Xor(checksum, p), text[BLOCK_SIZE..]);
      assert o.text[..BLOCK_SIZE] == p && o.text[BLOCK_SIZE..] == rest.text;
      XorCancels(d, e);
      XorCancels(d, text[..BLOCK_SIZE]);
      SealUndoesOpen(c, d, Xor(checksum, p), text[BLOCK_SIZE..]);
      assert text == text[..BLOCK_SIZE] + text[BLOCK_SIZE..];
    } else {
      var n := |text|;
      var pad := c.enc(Xor(LengthBlock(n), d));
      var last := Xor(text + Zero()[n..], pad);
      PastTheEnd(text, pad, n);
      assert o.text + pad[n..] == last;
      XorCancels(pad, text + Zero()[n..]);
      assert (text + Zero()[n..])[..n] == text;
    }
  }

  /** Past the ciphertext's end the block that is decrypted is the pad. */
  lemma PastTheEnd(text: seq<bv8>, pad: Block, n: nat)
    requires |text| == n <= BLOCK_SIZE
    ensures var last := Xor(text + Zero()[n..], pad); last[..n] + pad[n..] == last
  {
    var last := Xor(text + Zero()[n..], pad);
    forall i | n <= i < BLOCK_SIZE
      ensures last[i] == pad[i]
    {
      assert (text + Zero()[n..])[i] == 0;
      assert (0 as bv8) ^ pad[i] == pad[i];
    }
  }

  /** Encrypting what a ciphertext decrypts to gives the ciphertext and its tag. */
  lemma EncryptUndoesDecrypt(c: Cipher, nonce: Block, text: seq<bv8>)
    requires Bijective(c)
    ensures var o := Decrypt(c, nonce, text); Encrypt(c, nonce, o.text) == Sealed(text, o.tag)
  {
    SealUndoesOpen(c, c.enc(nonce), Zero(), text);
  }

  // ----- the mode in closed form, block by block -----

  /** 2^k times the block, in the field. */
  function Times2(k: nat, b: Block): Block {
    if k == 0 then b else Times2(k - 1, S2(b))
  }

  /** The number of blocks before the last, possibly partial, one. */
  function FullBlocks(len: nat): nat {
    if len == 0 then 0 else (len - 1) / BLOCK_SIZE
  }

  function BlockAt(s: seq<bv8>, i: nat): Block
    requires BLOCK_SIZE * (i + 1) <= |s|
  {
    s[BLOCK_SIZE * i..BLOCK_SIZE * (i + 1)]
  }

  lemma {:induction false} CipherBlock(c: Cipher, delta: Block, checksum: Block, plain: seq<bv8>, i: nat)
    requires i < FullBlocks(|plain|)
    ensures BLOCK_SIZE * (i + 1) <= |plain|
    ensures BlockAt(Seal(c, delta, checksum, plain).text, i)
      == Xor(Times2(i + 1, delta), c.enc(Xor(Times2(i + 1, delta), BlockAt(plain, i))))
    decreases i
  {
    if i == 0 {
      FirstCipherBlock(c, delta, checksum, plain);
    } else {
      var sum, tail := Xor(checksum, BlockAt(plain, 0)), plain[BLOCK_SIZE..];
      CipherBlock(c, S2(delta), sum, tail, i - 1);
      TextOfTail(c, delta, checksum, plain);
      BlockOfTail(Seal(c, delta, checksum, plain).text, i - 1);
      BlockOfTail(plain, i - 1);
    }
  }

  lemma TextOfTail(c: Cipher, delta: Block, checksum: Block, plain: seq<bv8>)
    requires |plain| > BLOCK_SIZE
    ensures Seal(c, delta, checksum, plain).text[BLOCK_SIZE..]
      == Seal(c, S2(delta), Xor(checksum, BlockAt(plain, 0)), plain[BLOCK_SIZE..]).text
  {
  }

  lemma FirstCipherBlock(c: Cipher, delta: Block, checksum: Block, plain: seq<bv8>)
    requires |plain| > BLOCK_SIZE
    ensures var mask := Times2(1, delta);
      BlockAt(Seal(c, delta, checksum, plain).text, 0) == Xor(mask, c.enc(Xor(mask, BlockAt(plain, 0))))
  {
    assert Times2(1, delta) == S2(delta);
  }

  /** The sum of the first n blocks. */
  function BlockSum(s: seq<bv8>, n: nat): Block
    requires BLOCK_SIZE * n <= |s|
  {
    if n == 0 then Zero() else Xor(BlockSum(s, n - 1), BlockAt(s, n - 1))
  }

  /** The last block, filled up from the pad that encrypts the length. */
  function LastBlock(c: Cipher, delta: Block, plain: seq<bv8>): Block {
    var m := FullBlocks(|plain|);
    var tail := plain[BLOCK_SIZE * m..];
    tail + c.enc(Xor(LengthBlock(|tail|), Times2(m + 1, delta)))[|tail|..]
  }

  lemma XorAssociates(a: Block, b: Block, e: Block)
    ensures Xor(Xor(a, b), e) == Xor(a, Xor(b, e))
    ensures Xor(a, Zero()) == a && Xor(Zero(), a) == a
  {
    assert forall i :: 0 <= i < BLOCK_SIZE ==> (a[i] ^ b[i]) ^ e[i] == a[i] ^ (b[i] ^ e[i]);
    assert forall i :: 0 <= i < BLOCK_SIZE ==> a[i] ^ 0 == a[i] && 0 ^ a[i] == a[i];
  }

  lemma BlockOfTail(s: seq<bv8>, i: nat)
    requires BLOCK_SIZE * (i + 2) <= |s|
    ensures BlockAt(s[BLOCK_SIZE..], i) == BlockAt(s, i + 1)
  {
    var tail := s[BLOCK_SIZE..];
    assert forall k :: BLOCK_SIZE * i <= k < BLOCK_SIZE * (i + 1) ==> tail[k] == s[k + BLOCK_SIZE];
  }

  lemma {:induction false} BlockSumSplits(s: seq<bv8>, n: nat)
    requires 0 < n && BLOCK_SIZE * n <= |s|
    ensures BlockSum(s, n) == Xor(BlockAt(s, 0), BlockSum(s[BLOCK_SIZE..], n - 1))
  {
    if n == 1 {
      XorAssociates(BlockAt(s, 0), Zero(), Zero());
    } else {
      BlockSumSplits(s, n - 1);
      BlockOfTail(s, n - 2);
      XorAssociates(BlockAt(s, 0), BlockSum(s[BLOCK_SIZE..], n - 2), BlockAt(s, n - 1));
    }
  }

  lemma LastBlockOfTail(c: Cipher, delta: Block, plain: seq<bv8>)
    requires |plain| > BLOCK_SIZE
    ensures FullBlocks(|plain|) == FullBlocks(|plain| - BLOCK_SIZE) + 1
    ensures LastBlock(c, delta, plain) == LastBlock(c, S2(delta), plain[BLOCK_SIZE..])
  {
    var m := FullBlocks(|plain|);
    assert plain[BLOCK_SIZE..][BLOCK_SIZE * (m - 1)..] == plain[BLOCK_SIZE * m..];
  }

  /** The sum that the tag encrypts: the checksum so far, the full blocks, and the last one. */
  function TagSum(c: Cipher, delta: Block, checksum: Block, plain: seq<bv8>): Block {
    Xor(checksum, Xor(BlockSum(plain, FullBlocks(|plain|)), LastBlock(c, delta, plain)))
  }

  lemma TagSumOfTail(c: Cipher, delta: Block, checksum: Block, plain: seq<bv8>)
    requires |plain| > BLOCK_SIZE
    ensures TagSum(c, delta, checksum, plain)
      == TagSum(c, S2(delta), Xor(checksum, BlockAt(plain, 0)), plain[BLOCK_SIZE..])
  {
    var m := FullBlocks(|plain|);
    var p, last := BlockAt(plain, 0), LastBlock(c, delta, plain);
    var rest := BlockSum(plain[BLOCK_SIZE..], m - 1);
    LastBlockOfTail(c, delta, plain);
    BlockSumSplits(plain, m);
    SumRegroups(checksum, p, rest, last);
  }

  lemma SumRegroups(checksum: Block, p: Block, rest: Block, last: Block)
    ensures Xor(checksum, Xor(Xor(p, rest), last)) == Xor(Xor(checksum, p), Xor(rest, last))
  {
    XorAssociates(p, rest, last);
    XorAssociates(checksum, p, Xor(rest, last));
  }

  /** The tag encrypts 3 * 2^(m+1) times the nonce's block plus the sum of all blocks. */
  lemma {:induction false} TagInClosedForm(c: Cipher, delta: Block, checksum: Block, plain: seq<bv8>)
    ensures Seal(c, delta, checksum, plain).tag
      == c.enc(Xor(S3(Times2(FullBlocks(|plain|) + 1, delta)), TagSum(c, delta, checksum, plain)))
    decreases |plain|
  {
    if |plain| > BLOCK_SIZE {
      var sum, tail := Xor(checksum, BlockAt(plain, 0)), plain[BLOCK_SIZE..];
      TagInClosedForm(c, S2(delta), sum, tail);
      TagCarries(c, delta, checksum, plain);
    } else {
      TagOfLastBlock(c, delta, checksum, plain);
    }
  }

  /** What the tag is said to encrypt stays the same past the first block. */
  lemma TagCarries(c: Cipher, delta: Block, checksum: Block, plain: seq<bv8>)
    requires |plain| > BLOCK_SIZE
    ensures var sum, tail := Xor(checksum, BlockAt(plain, 0)), plain[BLOCK_SIZE..];
      && Seal(c, delta, checksum, plain).tag == Seal(c, S2(delta), sum, tail).tag
      && Times2(FullBlocks(|plain|) + 1, delta) == Times2(FullBlocks(|tail|) + 1, S2(delta))
      && TagSum(c, delta, checksum, plain) == TagSum(c, S2(delta), sum, tail)
  {
    assert TagSum(c, delta, checksum, plain) == TagSum(c, S2(delta), Xor(checksum, BlockAt(plain, 0)), plain[BLOCK_SIZE..]) by {
      TagSumOfTail(c, delta, checksum, plain);
    }
    TagOfTail(c, delta, checksum, plain);
  }

  lemma TagOfTail(c: Cipher, delta: Block, checksum: Block, plain: seq<bv8>)
    requires |plain| > BLOCK_SIZE
    ensures Seal(c, delta, checksum, plain).tag == Seal(c, S2(delta), Xor(checksum, BlockAt(plain, 0)), plain[BLOCK_SIZE..]).tag
    ensures Times2(FullBlocks(|plain|) + 1, delta) == Times2(FullBlocks(|plain| - BLOCK_SIZE) + 1, S2(delta))
  {
    assert FullBlocks(|plain|) == FullBlocks(|plain| - BLOCK_SIZE) + 1;
  }

  lemma TagOfLastBlock(c: Cipher, delta: Block, checksum: Block, plain: seq<bv8>)
    requires |plain| <= BLOCK_SIZE
    ensures Seal(c, delta, checksum, plain).tag
      == c.enc(Xor(S3(Times2(FullBlocks(|plain|) + 1, delta)), TagSum(c, delta, checksum, plain)))
  {
    XorAssociates(LastBlock(c, delta, plain), Zero(), Zero());
    assert FullBlocks(|plain|) == 0 && plain[0..] == plain && Times2(1, delta) == S2(delta);
  }

  // ----- the last block -----

  /** The number that bytes stand for, most significant first. */
  function Number(s: seq<bv8>): nat {
    if s == [] then 0 else 256 * Number(s[..|s| - 1]) + s[|s| - 1] as int
  }

  lemma {:induction false} NumberInjective(a: seq<bv8>, b: seq<bv8>)
    requires |a| == |b| && Number(a) == Number(b)
    ensures a == b
  {
    if a != [] {
      var n := |a| - 1;
      ByteOfNumber(a[n]);
      ByteOfNumber(b[n]);
      assert Number(a) == 256 * Number(a[..n]) + a[n] as int && Number(b) == 256 * Number(b[..n]) + b[n] as int;
      NumberInjective(a[..n], b[..n]);
      assert a == a[..n] + [a[n]] && b == b[..n] + [b[n]];
    }
  }

  lemma {:induction false} NumberOfZeros(s: seq<bv8>)
    requires forall i :: 0 <= i < |s| ==> s[i] == 0
    ensures Number(s) == 0
  {
    if s != [] {
      NumberOfZeros(s[..|s| - 1]);
    }
  }

  /** The block that pads the last one stands for its length in bits. */
  lemma LengthInBits(len: nat)
    requires len <= BLOCK_SIZE
    ensures Number(LengthBlock(len)) == 8 * len
  {
    var b := LengthBlock(len);
    NumberOfZeros(b[..15]);
    NumberOfByte(8 * len);
  }

  /** The plaintext's last bytes under the pad. */
  function Padded(c: Cipher, mask: Block, tail: seq<bv8>): seq<bv8>
    requires |tail| <= BLOCK_SIZE
  {
    var pad := c.enc(Xor(LengthBlock(|tail|), mask));
    Xor(pad, tail + pad[|tail|..])[..|tail|]
  }

  /** After the full blocks come the bytes of the last, padded under its own mask. */
  ghost predicate EndsPadded(c: Cipher, delta: Block, checksum: Block, plain: seq<bv8>) {
    var m := FullBlocks(|plain|);
    Seal(c, delta, checksum, plain).text[BLOCK_SIZE * m..] == Padded(c, Times2(m + 1, delta), plain[BLOCK_SIZE * m..])
  }

  lemma {:induction false} TextAfterBlocks(c: Cipher, delta: Block, checksum: Block, plain: seq<bv8>)
    ensures EndsPadded(c, delta, checksum, plain)
    decreases |plain|
  {
    if |plain| > BLOCK_SIZE {
      TextAfterBlocks(c, S2(delta), Xor(checksum, BlockAt(plain, 0)), plain[BLOCK_SIZE..]);
      OneBlockMore(c, delta, checksum, plain);
    } else {
      OnlyBlock(c, delta, checksum, plain);
    }
  }

  lemma OneBlockMore(c: Cipher, delta: Block, checksum: Block, plain: seq<bv8>)
    requires |plain| > BLOCK_SIZE
    requires EndsPadded(c, S2(delta), Xor(checksum, BlockAt(plain, 0)), plain[BLOCK_SIZE..])
    ensures EndsPadded(c, delta, checksum, plain)
  {
    var m := FullBlocks(|plain|);
    var rest, later := plain[BLOCK_SIZE..], Seal(c, S2(delta), Xor(checksum, BlockAt(plain, 0)), plain[BLOCK_SIZE..]).text;
    LaterTail(plain, m);
    assert later[BLOCK_SIZE * (m - 1)..] == Padded(c, Times2(m, S2(delta)), rest[BLOCK_SIZE * (m - 1)..]);
    TimesNext(m, delta);
    LaterText(c, delta, checksum, plain);
  }

  lemma TimesNext(k: nat, b: Block)
    ensures Times2(k + 1, b) == Times2(k, S2(b))
  {
  }

  lemma LaterText(c: Cipher, delta: Block, checksum: Block, plain: seq<bv8>)
    requires |plain| > BLOCK_SIZE
    ensures var m := FullBlocks(|plain|);
      var sum, rest := Xor(checksum, BlockAt(plain, 0)), plain[BLOCK_SIZE..];
      m > 0 && Seal(c, delta, checksum, plain).text[BLOCK_SIZE * m..] == Seal(c, S2(delta), sum, rest).text[BLOCK_SIZE * (m - 1)..]
  {
    LaterTail(Seal(c, delta, checksum, plain).text, FullBlocks(|plain|));
    TextOfTail(c, delta, checksum, plain);
  }

  lemma OnlyBlock(c: Cipher, delta: Block, checksum: Block, plain: seq<bv8>)
    requires |plain| <= BLOCK_SIZE
    ensures Seal(c, delta, checksum, plain).text[0..] == Padded(c, Times2(1, delta), plain[0..])
  {
    assert Times2(1, delta) == S2(delta) && plain[0..] == plain;
  }

  lemma LaterTail(s: seq<bv8>, m: nat)
    requires |s| > BLOCK_SIZE && m == FullBlocks(|s|)
    ensures m == FullBlocks(|s| - BLOCK_SIZE) + 1 && BLOCK_SIZE * m <= |s|
    ensures s[BLOCK_SIZE * m..] == s[BLOCK_SIZE..][BLOCK_SIZE * (m - 1)..]
  {
  }

  /**
   * The last 0 to 16 bytes of ciphertext are those of the plaintext, each xored with its byte of
   * the pad that encrypts their number of bits, masked with a power of two times the nonce's block.
   */
  lemma LastCipherBytes(c: Cipher, delta: Block, checksum: Block, plain: seq<bv8>, bits: Block, i: nat)
    requires var m := FullBlocks(|plain|); Number(bits) == 8 * (|plain| - BLOCK_SIZE * m) && BLOCK_SIZE * m <= i < |plain|
    ensures var m := FullBlocks(|plain|);
      Seal(c, delta, checksum, plain).text[i] == plain[i] ^ c.enc(Xor(bits, Times2(m + 1, delta)))[i - BLOCK_SIZE * m]
  {
    var m := FullBlocks(|plain|);
    var tail := plain[BLOCK_SIZE * m..];
    var pad := c.enc(Xor(LengthBlock(|tail|), Times2(m + 1, delta)));
    LengthInBits(|tail|);
    NumberInjective(bits, LengthBlock(|tail|));
    TextAfterBlocks(c, delta, checksum, plain);
    var j := i - BLOCK_SIZE * m;
    assert Seal(c, delta, checksum, plain).text[i] == Seal(c, delta, checksum, plain).text[BLOCK_SIZE * m..][j];
    assert (tail + pad[|tail|..])[j] == plain[i];
    assert pad[j] ^ plain[i] == plain[i] ^ pad[j];
  }

  // ----- the buffer-filling loops -----

  /** What is still to come completes what has been done. */
  ghost predicate Completes(whole: Sealed, done: seq<bv8>, rest: Sealed) {
    whole == Sealed(done + rest.text, rest.tag)
  }

  lemma AtStart(whole: Sealed)
    ensures Completes(whole, [], whole)
  {
  }

  lemma SealsBlock(c: Cipher, delta: Block, checksum: Block, plain: seq<bv8>, whole: Sealed, done: seq<bv8>)
    requires |plain| > BLOCK_SIZE
    requires Completes(whole, done, Seal(c, delta, checksum, plain))
    ensures var d := S2(delta);
      Completes(whole, done + Xor(d, c.enc(Xor(d, plain[..BLOCK_SIZE]))),
                Seal(c, d, Xor(checksum, plain[..BLOCK_SIZE]), plain[BLOCK_SIZE..]))
  {
    var d := S2(delta);
    var rest := Seal(c, d, Xor(checksum, plain[..BLOCK_SIZE]), plain[BLOCK_SIZE..]);
    var b := Xor(d, c.enc(Xor(d, plain[..BLOCK_SIZE])));
    assert done + (b + rest.text) == (done + b) + rest.text;
  }

  lemma OpensBlock(c: Cipher, delta: Block, checksum: Block, text: seq<bv8>, whole: Sealed, done: seq<bv8>)
    requires |text| > BLOCK_SIZE
    requires Completes(whole, done, Open(c, delta, checksum, text))
    ensures var d := S2(delta);
      var p := Xor(d, c.dec(Xor(d, text[..BLOCK_SIZE])));
      Completes(whole, done + p, Open(c, d, Xor(checksum, p), text[BLOCK_SIZE..]))
  {
    var d := S2(delta);
    var p := Xor(d, c.dec(Xor(d, text[..BLOCK_SIZE])));
    var rest := Open(c, d, Xor(checksum, p), text[BLOCK_SIZE..]);
    assert done + (p + rest.text) == (done + p) + rest.text;
  }

  /** Copies n bytes between two buffers. */
  method Copy(src: array<bv8>, from: nat, dst: array<bv8>, at: nat, n: nat)
    requires src != dst && from + n <= src.Length && at + n <= dst.Length
    modifies dst
    ensures dst[..at] == old(dst[..at]) && dst[at + n..] == old(dst[at + n..])
    ensures dst[at..at + n] == src[from..from + n]
  {
    forall i | 0 <= i < n {
      dst[at + i] := src[from + i];
    }
  }

  /** A new buffer with these bytes, as the cipher returns its blocks. */
  method NewBuffer(bytes: seq<bv8>) returns (buffer: array<bv8>)
    ensures fresh(buffer) && buffer.Length == |bytes| && buffer[..] == bytes
  {
    buffer := new bv8[|bytes|](i requires 0 <= i < |bytes| => bytes[i]);
  }

  /** The private scratch buffers of one call, apart from each other and from its input and output. */
  predicate Scratch(delta: array<bv8>, checksum: array<bv8>, tmp: array<bv8>, input: array<bv8>, output: array<bv8>) {
    && delta.Length == checksum.Length == tmp.Length == BLOCK_SIZE
    && delta != checksum && delta != tmp && checksum != tmp && input != output
    && delta != input && checksum != input && tmp != input
    && delta != output && checksum != output && tmp != output
  }

  /** The xor of two buffers into a third, or into one of the two. */
  method XorWhole(dst: array<bv8>, a: array<bv8>, b: array<bv8>)
    requires dst.Length == a.Length == b.Length == BLOCK_SIZE
    modifies dst
    ensures dst[..] == Xor(old(a[..]), old(b[..]))
  {
    XorInto(dst, 0, a, 0, b, 0);
    assert dst[..] == dst[0..0 + BLOCK_SIZE];
    assert old(a[..]) == old(a[0..0 + BLOCK_SIZE]) && old(b[..]) == old(b[0..0 + BLOCK_SIZE]);
  }

  /** The xor of a buffer and a block of the input. */
  method XorFrom(dst: array<bv8>, a: array<bv8>, input: array<bv8>, at: nat)
    requires dst.Length == a.Length == BLOCK_SIZE && at + BLOCK_SIZE <= input.Length && dst != input
    modifies dst
    ensures dst[..] == Xor(old(a[..]), input[at..at + BLOCK_SIZE])
  {
    XorInto(dst, 0, a, 0, input, at);
    assert dst[..] == dst[0..0 + BLOCK_SIZE] && old(a[..]) == old(a[0..0 + BLOCK_SIZE]);
  }

  /** The xor of two buffers into the output at a place. */
  method XorTo(output: array<bv8>, at: nat, a: array<bv8>, b: array<bv8>)
    requires at + BLOCK_SIZE <= output.Length && a.Length == b.Length == BLOCK_SIZE && output != a && output != b
    modifies output
    ensures output[..at] == old(output[..at]) && output[at..at + BLOCK_SIZE] == Xor(a[..], b[..])
  {
    XorInto(output, at, a, 0, b, 0);
    assert a[..] == a[0..0 + BLOCK_SIZE] && b[..] == b[0..0 + BLOCK_SIZE];
  }

  /** One turn of the encrypting loop, at a place in the buffers. */
  method EncryptBlock(c: Cipher, delta: array<bv8>, checksum: array<bv8>, tmp: array<bv8>,
                      plain: array<bv8>, cipher: array<bv8>, at: nat)
    requires Scratch(delta, checksum, tmp, plain, cipher) && at + BLOCK_SIZE <= plain.Length == cipher.Length
    modifies delta, checksum, tmp, cipher
    ensures delta[..] == S2(old(delta[..])) && checksum[..] == Xor(old(checksum[..]), plain[at..at + BLOCK_SIZE])
    ensures cipher[..at] == old(cipher[..at])
    ensures cipher[at..at + BLOCK_SIZE] == Xor(delta[..], c.enc(Xor(delta[..], plain[at..at + BLOCK_SIZE])))
  {
    DoubleInPlace(delta);
    XorFrom(tmp, delta, plain, at);
    var encrypted := NewBuffer(c.enc(tmp[..]));
    XorTo(cipher, at, delta, encrypted);
    XorFrom(checksum, checksum, plain, at);
  }

  /** One turn of the decrypting loop: the checksum takes in what was just written. */
  method DecryptBlock(c: Cipher, delta: array<bv8>, checksum: array<bv8>, tmp: array<bv8>,
                      text: array<bv8>, plain: array<bv8>, at: nat)
    requires Scratch(delta, checksum, tmp, text, plain) && at + BLOCK_SIZE <= text.Length == plain.Length
    modifies delta, checksum, tmp, plain
    ensures delta[..] == S2(old(delta[..]))
    ensures plain[..at] == old(plain[..at])
    ensures plain[at..at + BLOCK_SIZE] == Xor(delta[..], c.dec(Xor(delta[..], text[at..at + BLOCK_SIZE])))
    ensures checksum[..] == Xor(old(checksum[..]), plain[at..at + BLOCK_SIZE])
  {
    DoubleInPlace(delta);
    XorFrom(tmp, delta, text, at);
    var decrypted := NewBuffer(c.dec(tmp[..]));
    XorTo(plain, at, delta, decrypted);
    XorFrom(checksum, checksum, plain, at);
  }

  lemma Halves(s: seq<bv8>, at: nat)
    requires at + BLOCK_SIZE <= |s|
    ensures s[at..][..BLOCK_SIZE] == s[at..at + BLOCK_SIZE] && s[at..][BLOCK_SIZE..] == s[at + BLOCK_SIZE..]
    ensures s[..at + BLOCK_SIZE] == s[..at] + s[at..at + BLOCK_SIZE]
  {
  }

  /** A turn keeps what is done and what is still to come together. */
  method EncryptTurn(c: Cipher, delta: array<bv8>, checksum: array<bv8>, tmp: array<bv8>,
                     plain: array<bv8>, cipher: array<bv8>, at: nat, ghost whole: Sealed)
    requires Scratch(delta, checksum, tmp, plain, cipher) && at + BLOCK_SIZE < plain.Length == cipher.Length
    requires Completes(whole, cipher[..at], Seal(c, delta[..], checksum[..], plain[at..]))
    modifies delta, checksum, tmp, cipher
    ensures Completes(whole, cipher[..at + BLOCK_SIZE], Seal(c, delta[..], checksum[..], plain[at + BLOCK_SIZE..]))
  {
    SealsBlock(c, delta[..], checksum[..], plain[at..], whole, cipher[..at]);
    Halves(plain[..], at);
    EncryptBlock(c, delta, checksum, tmp, plain, cipher, at);
    Halves(cipher[..], at);
  }

  method DecryptTurn(c: Cipher, delta: array<bv8>, checksum: array<bv8>, tmp: array<bv8>,
                     text: array<bv8>, plain: array<bv8>, at: nat, ghost whole: Sealed)
    requires Scratch(delta, checksum, tmp, text, plain) && at + BLOCK_SIZE < text.Length == plain.Length
    requires Completes(whole, plain[..at], Open(c, delta[..], checksum[..], text[at..]))
    modifies delta, checksum, tmp, plain
    ensures Completes(whole, plain[..at + BLOCK_SIZE], Open(c, delta[..], checksum[..], text[at + BLOCK_SIZE..]))
  {
    OpensBlock(c, delta[..], checksum[..], text[at..], whole, plain[..at]);
    Halves(text[..], at);
    DecryptBlock(c, delta, checksum, tmp, text, plain, at);
    Halves(plain[..], at);
  }

  /** Fills the ciphertext buffer, and returns the tag. */
  method EncryptInto(c: Cipher, plain: array<bv8>, cipher: array<bv8>, nonce: Block) returns (tag: Block)
    requires cipher.Length == plain.Length && plain != cipher
    modifies cipher
    ensures Sealed(cipher[..], tag) == Encrypt(c, nonce, plain[..])
  {
    var checksum := NewBuffer(Zero());
    var tmp := NewBuffer(Zero());
    var delta := NewBuffer(c.enc(nonce));
    var len: nat, at: nat := plain.Length, 0;
    ghost var whole := Seal(c, delta[..], checksum[..], plain[at..]);
    assert plain[at..] == plain[..];
    AtStart(whole);
    while len > BLOCK_SIZE
      invariant at + len == plain.Length
      invariant Completes(whole, cipher[..at], Seal(c, delta[..], checksum[..], plain[at..]))
    {
      EncryptTurn(c, delta, checksum, tmp, plain, cipher, at, whole);
      len := len - BLOCK_SIZE;
      at := at + BLOCK_SIZE;
    }
    tag := EncryptLast(c, delta, checksum, tmp, plain, cipher, at);
    assert cipher[..] == cipher[..at] + cipher[at..];
  }

  /** The pad of the last bytes, from their length. */
  method MakePad(c: Cipher, delta: array<bv8>, tmp: array<bv8>, len: nat) returns (pad: array<bv8>)
    requires delta.Length == tmp.Length == BLOCK_SIZE && delta != tmp && len <= BLOCK_SIZE
    modifies delta, tmp
    ensures fresh(pad) && pad.Length == BLOCK_SIZE
    ensures delta[..] == S2(old(delta[..])) && pad[..] == c.enc(Xor(LengthBlock(len), delta[..]))
  {
    DoubleInPlace(delta);
    FillZero(tmp);
    tmp[BLOCK_SIZE - 1] := ToByte(len * 8);
    assert tmp[..] == LengthBlock(len);
    XorWhole(tmp, tmp, delta);
    pad := NewBuffer(c.enc(tmp[..]));
  }

  /** After the loop: the last 0 to 16 bytes, and the tag. */
  method EncryptLast(c: Cipher, delta: array<bv8>, checksum: array<bv8>, tmp: array<bv8>,
                     plain: array<bv8>, cipher: array<bv8>, at: nat) returns (tag: Block)
    requires Scratch(delta, checksum, tmp, plain, cipher) && plain.Length == cipher.Length && at <= plain.Length <= at + BLOCK_SIZE
    modifies delta, checksum, tmp, cipher
    ensures cipher[..at] == old(cipher[..at])
    ensures Sealed(cipher[at..], tag) == Seal(c, old(delta[..]), old(checksum[..]), plain[at..])
  {
    var len := plain.Length - at;
    ghost var d, sum := delta[..], checksum[..];
    var pad := MakePad(c, delta, tmp, len);
    FillUp(plain, at, pad, tmp);
    SealLast(c, d, sum, plain[at..], pad[..], tmp[..]);
    XorWhole(checksum, checksum, tmp);
    XorWhole(tmp, pad, tmp);
    CopyOut(tmp, cipher, at);
    tag := MakeTag(c, delta, checksum, tmp);
  }

  /** The last bytes of the input, filled up from another buffer. */
  method FillUp(input: array<bv8>, at: nat, pad: array<bv8>, tmp: array<bv8>)
    requires at <= input.Length <= at + BLOCK_SIZE && pad.Length == tmp.Length == BLOCK_SIZE
    requires tmp != input && tmp != pad
    modifies tmp
    ensures tmp[..] == input[at..] + pad[input.Length - at..]
  {
    var len := input.Length - at;
    Copy(input, at, tmp, 0, len);
    Copy(pad, len, tmp, len, BLOCK_SIZE - len);
    assert tmp[..] == tmp[..len] + tmp[len..len + (BLOCK_SIZE - len)];
    assert tmp[..len] == tmp[0..0 + len];
  }

  method CopyOut(tmp: array<bv8>, output: array<bv8>, at: nat)
    requires tmp.Length == BLOCK_SIZE && at <= output.Length <= at + BLOCK_SIZE && tmp != output
    modifies output
    ensures output[..at] == old(output[..at]) && output[at..] == tmp[..output.Length - at]
  {
    var len := output.Length - at;
    Copy(tmp, 0, output, at, len);
    assert output[at..] == output[at..at + len] && tmp[..len] == tmp[0..0 + len];
  }

  lemma SealLast(c: Cipher, delta: Block, checksum: Block, plain: seq<bv8>, pad: Block, last: Block)
    requires |plain| <= BLOCK_SIZE
    requires pad == c.enc(Xor(LengthBlock(|plain|), S2(delta))) && last == plain + pad[|plain|..]
    ensures Seal(c, delta, checksum, plain)
      == Sealed(Xor(pad, last)[..|plain|], c.enc(Xor(S3(S2(delta)), Xor(checksum, last))))
  {
  }

  lemma OpenLast(c: Cipher, delta: Block, checksum: Block, text: seq<bv8>, pad: Block, last: Block)
    requires |text| <= BLOCK_SIZE
    requires pad == c.enc(Xor(LengthBlock(|text|), S2(delta))) && last == Xor(text + Zero()[|text|..], pad)
    ensures Open(c, delta, checksum, text) == Sealed(last[..|text|], c.enc(Xor(S3(S2(delta)), Xor(checksum, last))))
  {
  }

  method MakeTag(c: Cipher, delta: array<bv8>, checksum: array<bv8>, tmp: array<bv8>) returns (tag: Block)
    requires delta.Length == checksum.Length == tmp.Length == BLOCK_SIZE && delta != checksum && delta != tmp && checksum != tmp
    modifies delta, tmp
    ensures tag == c.enc(Xor(S3(old(delta[..])), checksum[..]))
  {
    TripleInPlace(delta);
    XorWhole(tmp, delta, checksum);
    tag := c.enc(tmp[..]);
  }

  method DecryptInto(c: Cipher, text: array<bv8>, plain: array<bv8>, nonce: Block) returns (tag: Block)
    requires plain.Length == text.Length && text != plain
    modifies plain
    ensures Sealed(plain[..], tag) == Decrypt(c, nonce, text[..])
  {
    var checksum := NewBuffer(Zero());
    var tmp := NewBuffer(Zero());
    var delta := NewBuffer(c.enc(nonce));
    var len: nat, at: nat := text.Length, 0;
    ghost var whole := Open(c, delta[..], checksum[..], text[at..]);
    assert text[at..] == text[..];
    AtStart(whole);
    while len > BLOCK_SIZE
      invariant at + len == text.Length
      invariant Completes(whole, plain[..at], Open(c, delta[..], checksum[..], text[at..]))
    {
      DecryptTurn(c, delta, checksum, tmp, text, plain, at, whole);
      len := len - BLOCK_SIZE;
      at := at + BLOCK_SIZE;
    }
    tag := DecryptLast(c, delta, checksum, tmp, text, plain, at);
    assert plain[..] == plain[..at] + plain[at..];
  }

  method DecryptLast(c: Cipher, delta: array<bv8>, checksum: array<bv8>, tmp: array<bv8>,
                     text: array<bv8>, plain: array<bv8>, at: nat) returns (tag: Block)
    requires Scratch(delta, checksum, tmp, text, plain) && text.Length == plain.Length && at <= text.Length <= at + BLOCK_SIZE
    modifies delta, checksum, tmp, plain
    ensures plain[..at] == old(plain[..at])
    ensures Sealed(plain[at..], tag) == Open(c, old(delta[..]), old(checksum[..]), text[at..])
  {
    var len := text.Length - at;
    ghost var d, sum := delta[..], checksum[..];
    var pad := MakePad(c, delta, tmp, len);
    FillZero(tmp);
    CopyIn(text, at, tmp);
    XorWhole(tmp, tmp, pad);
    OpenLast(c, d, sum, text[at..], pad[..], tmp[..]);
    XorWhole(checksum, checksum, tmp);
    CopyOut(tmp, plain, at);
    tag := MakeTag(c, delta, checksum, tmp);
  }

  method FillZero(tmp: array<bv8>)
    requires tmp.Length == BLOCK_SIZE
    modifies tmp
    ensures tmp[..] == Zero()
  {
    forall i | 0 <= i < BLOCK_SIZE {
      tmp[i] := 0;
    }
  }

  method CopyIn(input: array<bv8>, at: nat, tmp: array<bv8>)
    requires at <= input.Length <= at + BLOCK_SIZE && tmp.Length == BLOCK_SIZE && tmp != input
    modifies tmp
    ensures tmp[..] == input[at..] + old(tmp[input.Length - at..])
  {
    var len := input.Length - at;
    Copy(input, at, tmp, 0, len);
    assert tmp[..] == tmp[0..0 + len] + tmp[0 + len..];
  }
}
