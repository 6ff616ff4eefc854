/** The class of packages/common/src/crypto/ocb2-aes128.ts, with its IVs and history in place. */
module Crypt {
  import opened Wrappers
  import opened Blocks
  import opened Counter
  import Ocb
  import opened Packets

  datatype CryptError = NotInitialized | WrongLength

  datatype Decrypted = Decrypted(data: seq<bv8>, valid: bool)

  class OCB2AES128 {
    const aes: seq<bv8> -> Ocb.Cipher  // AES under a key
    var key: Option<seq<bv8>>
    var encryptIV: array?<Octet>
    var decryptIV: array?<Octet>
    const decryptHistory: array<Octet>
    var localStats: Stats

    /** The class invariant: buffers have their sizes and are not shared. */
    ghost predicate Valid()
      reads this, decryptHistory
    {
      && decryptHistory.Length == 256
      && (encryptIV != null ==> encryptIV.Length == BLOCK_SIZE && encryptIV != decryptHistory)
      && (decryptIV != null ==> decryptIV.Length == BLOCK_SIZE && decryptIV != decryptHistory)
      && (encryptIV != null ==> encryptIV != decryptIV)
    }

    predicate Ready()
      reads this
    {
      key.Some? && encryptIV != null && decryptIV != null
    }

    ghost function Cipher(): Ocb.Cipher
      requires Ready()
      reads this
    {
      aes(key.value)
    }

    ghost function Sender(): Iv
      requires Valid() && Ready()
      reads this, decryptHistory, encryptIV
    {
      encryptIV[..]
    }

    ghost function Rx(): Receiver
      requires Valid() && Ready()
      reads this, decryptHistory, decryptIV
    {
      Receiver(decryptIV[..], decryptHistory[..], localStats)
    }

    constructor (aes: seq<bv8> -> Ocb.Cipher)
      ensures Valid() && fresh(decryptHistory) && !Ready()
      ensures this.aes == aes && localStats == Stats(0, 0, 0, 0)
      ensures decryptHistory[..] == seq(256, _ => 0)
    {
      this.aes := aes;
      key := None;
      encryptIV, decryptIV := null, null;
      decryptHistory := new Octet[256](_ => 0);
      localStats := Stats(0, 0, 0, 0);
    }

    /** Installs copies of a key and of both IVs; nothing changes when a length is wrong. */
    method SetKey(newKey: seq<bv8>, newEncryptIV: seq<Octet>, newDecryptIV: seq<Octet>) returns (r: Result<(), CryptError>)
      requires Valid()
      modifies this
      ensures Valid()
      ensures r.Ok? <==> |newKey| == |newEncryptIV| == |newDecryptIV| == BLOCK_SIZE
      ensures r.Ok? ==> Ready() && fresh(encryptIV) && fresh(decryptIV) && key == Some(newKey)
      ensures r.Ok? ==> Sender() == newEncryptIV && Rx() == Receiver(newDecryptIV, old(decryptHistory[..]), old(localStats))
      ensures r.Err? ==> r.error == WrongLength && unchanged(this)
      ensures localStats == old(localStats)
    {
      if |newKey| != BLOCK_SIZE || |newEncryptIV| != BLOCK_SIZE || |newDecryptIV| != BLOCK_SIZE {
        return Err(WrongLength);
      }
      key := Some(newKey);
      encryptIV := new Octet[BLOCK_SIZE](i requires 0 <= i < BLOCK_SIZE => newEncryptIV[i]);
      decryptIV := new Octet[BLOCK_SIZE](i requires 0 <= i < BLOCK_SIZE => newDecryptIV[i]);
      return Ok(());
    }

    /** Replaces the receiver's IV for a resynchronisation; history and statistics stay. */
    method SetDecryptIV(iv: seq<Octet>) returns (r: Result<(), CryptError>)
      requires Valid()
      modifies this`decryptIV
      ensures Valid()
      ensures r.Ok? <==> |iv| == BLOCK_SIZE
      ensures r.Ok? ==> decryptIV != null && fresh(decryptIV) && decryptIV[..] == iv
      ensures r.Err? ==> r.error == WrongLength && decryptIV == old(decryptIV)
    {
      if |iv| != BLOCK_SIZE {
        return Err(WrongLength);
      }
      decryptIV := new Octet[BLOCK_SIZE](i requires 0 <= i < BLOCK_SIZE => iv[i]);
      return Ok(());
    }

    /** Steps the sender's counter in place and emits the packet for the new nonce. */
    method Encrypt(plainText: seq<bv8>) returns (r: Result<seq<bv8>, CryptError>)
      requires Valid()
      modifies encryptIV
      ensures Valid()
      ensures r.Ok? <==> Ready()
      ensures r.Ok? ==> Sender() == Inc(old(encryptIV[..])) && r.value == Packet(Cipher(), Sender(), plainText)
      ensures r.Err? ==> r.error == NotInitialized && (encryptIV != null ==> encryptIV[..] == old(encryptIV[..]))
    {
      if !Ready() {
        return Err(NotInitialized);
      }
      IncrementFrom(encryptIV, 0);
      assert encryptIV[..] == Inc(old(encryptIV[..])) by {
        assert old(encryptIV[0..]) == old(encryptIV[..]);
      }
      var iv: Iv := encryptIV[..];
      var body := new bv8[|plainText|];
      var input := Ocb.NewBuffer(plainText);
      var tag := Ocb.EncryptInto(aes(key.value), input, body, NonceBlock(iv));
      return Ok([ToByte(iv[0])] + tag[..3] + body[..]);
    }

    /** Moves the IV in place to the guessed nonce, or reports that the packet is refused. */
    method Resynchronize(ivbyte: Octet) returns (g: Guess)
      requires Valid() && Ready()
      modifies decryptIV
      ensures Valid()
      ensures g == GuessIv(old(decryptIV[..]), ivbyte)
      ensures decryptIV[..] == if g.Refused? then old(decryptIV[..]) else g.iv
    {
      var iv: array<Octet> := decryptIV;
      ghost var was: Iv := iv[..];
      var low := iv[0] as int;
      var late, lost, restore, checked := 0, 0, false, false;
      if (low + 1) % 256 == ivbyte {
        if ivbyte > low {
          iv[0] := ivbyte;
        } else if ivbyte < low {
          iv[0] := ivbyte;
          assert iv[..1] == [ivbyte] && iv[1..] == was[1..];
          IncrementFrom(iv, 1);
        } else {
          return Refused;
        }
      } else {
        checked := true;
        var diff := ivbyte as int - low;
        if diff > 128 {
          diff := diff - 256;
        } else if diff < -128 {
          diff := diff + 256;
        }
        if ivbyte < low && -30 < diff < 0 {
          late, lost, restore := 1, -1, true;
          iv[0] := ivbyte;
        } else if ivbyte > low && -30 < diff < 0 {
          late, lost, restore := 1, -1, true;
          iv[0] := ivbyte;
          assert iv[..1] == [ivbyte] && iv[1..] == was[1..];
          DecrementFrom(iv, 1);
        } else if ivbyte > low && diff > 0 {
          lost := ivbyte - low - 1;
          iv[0] := ivbyte;
        } else if ivbyte < low && diff > 0 {
          lost := 256 - low + ivbyte - 1;
          iv[0] := ivbyte;
          assert iv[..1] == [ivbyte] && iv[1..] == was[1..];
          IncrementFrom(iv, 1);
        } else {
          return Refused;
        }
      }
      g := Guess(iv[..], late, lost, restore, checked);
    }

    /** Accepts or refuses a packet; a refusal undoes the edits made to the IV in place. */
    method Decrypt(cipherText: seq<bv8>) returns (r: Result<Decrypted, CryptError>)
      requires Valid()
      modifies this`decryptIV, this`localStats, decryptIV, decryptHistory
      ensures Valid()
      ensures r.Ok? <==> old(Ready())
      ensures r.Err? ==> r.error == NotInitialized && unchanged(this) && unchanged(decryptHistory)
      ensures r.Ok? ==> Ready() && (decryptIV == old(decryptIV) || fresh(decryptIV))
      ensures r.Ok? ==> var (after, data) := DecryptStep(old(Cipher()), old(Rx()), cipherText);
        && Rx() == after
        && r.value == match data { case Some(plain) => Decrypted(plain, true) case None => Decrypted([], false) }
    {
      if !Ready() {
        return Err(NotInitialized);
      }
      if |cipherText| < 4 {
        return Ok(Decrypted([], false));
      }
      ghost var before := Rx();
      var saved: Iv := decryptIV[..];
      ByteOfNumber(cipherText[0]);
      var g := Resynchronize(ToNumber(cipherText[0]));
      if g.Refused? {
        return Ok(Decrypted([], false));
      }
      if g.checked && decryptHistory[decryptIV[0]] == decryptIV[1] {
        RestoreIv(saved);
        return Ok(Decrypted([], false));
      }
      var plainText := new bv8[|cipherText| - 4];
      var body := Ocb.NewBuffer(cipherText[4..]);
      var tag := Ocb.DecryptInto(aes(key.value), body, plainText, NonceBlock(decryptIV[..]));
      if tag[..3] != cipherText[1..4] {
        RestoreIv(saved);
        return Ok(Decrypted([], false));
      }
      Record(g, saved);
      return Ok(Decrypted(plainText[..], true));
    }

    /** Books an accepted packet: history, the saved IV of a late packet, statistics. */
    method Record(g: Guess, saved: Iv)
      requires Valid() && Ready() && g.Guess? && decryptIV[..] == g.iv
      modifies this`decryptIV, this`localStats, decryptHistory
      ensures Valid() && Ready() && (decryptIV == old(decryptIV) || fresh(decryptIV))
      ensures Rx() == Receiver(if g.restore then saved else g.iv,
                               old(decryptHistory[..])[g.iv[0] := g.iv[1]],
                               Accept(old(localStats), g.late, g.lost))
    {
      decryptHistory[decryptIV[0]] := decryptIV[1];
      if g.restore {
        RestoreIv(saved);
      }
      localStats := localStats.(good := localStats.good + 1);
      if g.late > 0 {
        localStats := localStats.(late := localStats.late + g.late);
      } else {
        localStats := localStats.(late := localStats.late - -g.late);
      }
      if g.lost > 0 {
        localStats := localStats.(lost := g.lost);
      } else {
        localStats := localStats.(lost := -g.lost);
      }
    }

    /** Puts a saved copy of the IV back in the place of the edited one. */
    method RestoreIv(saved: Iv)
      requires Valid() && Ready()
      modifies this`decryptIV
      ensures Valid() && Ready() && fresh(decryptIV) && decryptIV[..] == saved
    {
      decryptIV := new Octet[BLOCK_SIZE](i requires 0 <= i < BLOCK_SIZE => saved[i]);
    }

    method IncrementResync()
      modifies this`localStats
      ensures localStats == old(localStats).(resync := old(localStats).resync + 1)
    {
      localStats := localStats.(resync := localStats.resync + 1);
    }
  }
}
