/**
 * Voice packets: the Edge's forwarding form (packages/edge-server/src/voice/voice-router.ts,
 * packages/edge-server/src/managers/voice-manager.ts) and the client's own form
 * (packages/client/src/audio/stream.ts, packages/client/src/core/connection.ts).
 */
module Voice {
  import opened Wrappers
  import opened Framing
  import opened Varints

  /** What an Edge makes of a packet from one of its clients. */
  datatype VoicePacket = VoicePacket(sender: int, target: nat, codec: int, data: seq<Octet>)

  method CopyTo(source: seq<Octet>, buffer: array<Octet>, at: nat)
    requires at + |source| <= buffer.Length
    modifies buffer
    ensures buffer[..] == old(buffer[..at]) + source + old(buffer[at + |source|..])
  {
    for i := 0 to |source|
      invariant forall j :: 0 <= j < buffer.Length ==> buffer[j] == if at <= j < at + i then source[j - at] else old(buffer[j])
    {
      buffer[at + i] := source[i];
    }
  }

  // ----- the Edge's form -----

  function ForwardHeader(codec: int): Octet {
    codec * 32 % 256
  }

  function Forwarded(packet: VoicePacket): seq<Octet> {
    [ForwardHeader(packet.codec)] + EncodeMumble(packet.sender) + packet.data
  }

  method SerializeVoicePacket(packet: VoicePacket) returns (buffer: array<Octet>)
    ensures fresh(buffer) && buffer[..] == Forwarded(packet)
  {
    var header, code := ForwardHeader(packet.codec), EncodeMumble(packet.sender);
    buffer := new Octet[1 + |code| + |packet.data|];
    buffer[0] := header;
    CopyTo(code, buffer, 1);
    CopyTo(packet.data, buffer, 1 + |code|);
    assert buffer[..] == ([header] + code) + packet.data;
  }

  /** A client's packet as an Edge reads it: all that follows the first byte is opaque to it. */
  function EdgeParse(data: seq<Octet>, sender: int): Option<VoicePacket> {
    if |data| < 2 then None else
      var kind, target := data[0] as int / 32, data[0] as int % 32;
      if kind == 1 || kind > 4 then None else Some(VoicePacket(sender, target, kind, data[1..]))
  }

  /** A packet is taken iff it is of codec 0 or 2 to 4 and not just a header; its first byte is codec and target. */
  lemma EdgeReadsExactly(data: seq<Octet>, sender: int)
    ensures var r := EdgeParse(data, sender);
      && (r.Some? <==> |data| > 1 && (data[0] < 32 || 64 <= data[0] < 160))
      && (r.Some? ==> var q := r.value;
            q.sender == sender && q.target < 32 && data[0] as int == 32 * q.codec + q.target && [data[0]] + q.data == data)
  {
  }

  function ParseSession(data: seq<Octet>): Option<nat> {
    if |data| < 2 then None else
      var v := data[1] as int;
      if v < 0x80 then Some(v)
      else if v < 0xc0 then
        if |data| < 3 then None else Some(0x100 * (v % 0x40) + data[2] as int)
      else if v >= 0xf0 then
        if |data| < 6 then None else Some(Big32(data, 2))
      else if v < 0xe0 then
        if |data| < 4 then None else Some(0x1_0000 * (v % 0x20) + 0x100 * (data[2] as int) + data[3] as int)
      else None
  }

  /** The short reader and the full one agree on every form that the writer can produce. */
  lemma ReadersAgree(data: seq<Octet>)
    requires |data| >= 2 && (data[1] < 0xe0 || 0xf0 <= data[1] < 0xf4)
    ensures ParseSession(data) == match DecodeMumble(data, 1) { case None => None case Some(d) => Some(d.value) }
  {
  }

  /** Every forwarded packet still carries its sender, its codec and all of its payload; the target is cleared. */
  lemma SenderRecovered(packet: VoicePacket)
    requires 0 <= packet.sender < TWO_32
    ensures ParseSession(Forwarded(packet)) == Some(packet.sender)
    ensures DecodeMumble(Forwarded(packet), 1) == Some(Decoded(packet.sender, 1 + |EncodeMumble(packet.sender)|))
    ensures Forwarded(packet)[1 + |EncodeMumble(packet.sender)|..] == packet.data
    ensures 0 <= packet.codec < 8 ==> Forwarded(packet)[0] as int / 32 == packet.codec && Forwarded(packet)[0] as int % 32 == 0
  {
    var head, code := [ForwardHeader(packet.codec)], EncodeMumble(packet.sender);
    MumbleRoundTrip(packet.sender, head, packet.data);
    assert |Forwarded(packet)| >= 2 && Forwarded(packet)[1] == code[0];
    FirstByte(packet.sender);
    ReadersAgree(Forwarded(packet));
  }

  lemma FirstByte(value: nat)
    requires value < TWO_32
    ensures var first := EncodeMumble(value)[0]; first < 0xe0 || first == 0xf0
  {
  }

  // ----- the client's form -----

  datatype VoiceInfo = VoiceInfo(session: int, sequence: int, target: nat, codec: nat, audio: seq<Octet>)

  const OPUS := 4

  function ClientPacket(session: int, sequence: int, audio: seq<Octet>): seq<Octet> {
    [OPUS * 32] + EncodeClient(session) + EncodeClient(sequence) + audio
  }

  class AudioInputStream {
    var sequenceNumber: nat

    constructor ()
      ensures sequenceNumber == 0
    {
      sequenceNumber := 0;
    }

    method BuildVoicePacket(session: int, audio: seq<Octet>) returns (packet: array<Octet>)
      ensures fresh(packet) && packet[..] == ClientPacket(session, sequenceNumber, audio)
    {
      var header := OPUS * 32;
      var sessionCode := WriteClient(session);
      var sequenceCode := WriteClient(sequenceNumber);
      packet := new Octet[1 + |sessionCode| + |sequenceCode| + |audio|];
      var offset := 0;
      packet[offset] := header;
      offset := offset + 1;
      CopyTo(sessionCode, packet, offset);
      offset := offset + |sessionCode|;
      assert packet[..offset] == [header] + sessionCode;
      CopyTo(sequenceCode, packet, offset);
      offset := offset + |sequenceCode|;
      assert packet[..offset] == [header] + sessionCode + sequenceCode;
      CopyTo(audio, packet, offset);
      assert packet[..] == [header] + sessionCode + sequenceCode + audio;
    }

    /** Every frame of a recording, sent one after another. */
    method SendFrames(session: int, frames: seq<seq<Octet>>) returns (packets: seq<seq<Octet>>)
      modifies this
      ensures sequenceNumber == old(sequenceNumber) + |frames|
      ensures |packets| == |frames|
      ensures forall i :: 0 <= i < |frames| ==> packets[i] == ClientPacket(session, old(sequenceNumber) + i, frames[i])
    {
      packets := [];
      for n := 0 to |frames|
        invariant sequenceNumber == old(sequenceNumber) + n && |packets| == n
        invariant forall i :: 0 <= i < n ==> packets[i] == ClientPacket(session, old(sequenceNumber) + i, frames[i])
      {
        var packet := BuildVoicePacket(session, frames[n]);
        packets := packets + [packet[..]];
        sequenceNumber := sequenceNumber + 1;
      }
    }
  }

  function ParseVoice(data: seq<Octet>): Option<VoiceInfo> {
    if |data| < 1 then None else
      match ReadClient(data, 1)
      case None => None
      case Some(session) =>
        match ReadClient(data, session.offset)
        case None => None
        case Some(sequence) =>
          Some(VoiceInfo(session.value, sequence.value, data[0] as int % 32, data[0] as int / 32, data[sequence.offset..]))
  }

  /** Of any packet that it takes, the client reads codec and target from the first byte and has the audio at the end. */
  lemma ClientReadsHeader(data: seq<Octet>)
    ensures var r := ParseVoice(data); r.Some? ==>
      && data != [] && r.value.target < 32 && data[0] as int == 32 * r.value.codec + r.value.target
      && |r.value.audio| + 3 <= |data| && data[|data| - |r.value.audio|..] == r.value.audio
  {
    if |data| > 0 && ReadClient(data, 1).Some? {
      TakesOne(data[1..], 0, 0);
      TakesOne(data[ReadClient(data, 1).value.offset..], 0, 0);
    }
  }

  lemma TakesOne(s: seq<Octet>, k: nat, value: nat)
    requires k <= 4
    ensures ReadGroups(s, k, value).Some? ==> 1 <= ReadGroups(s, k, value).value.1
  {
    if s != [] {
      ReadGroupsStep(s, k, value);
    }
  }

  method ParseVoicePacket(data: seq<Octet>) returns (r: Option<VoiceInfo>)
    ensures r == ParseVoice(data)
  {
    if |data| < 1 {
      return None;
    }
    var header := data[0] as int;
    var codec, target := header / 32, header % 32;
    var session := ReadVarint(data, 1);
    if session.None? {
      return None;
    }
    var sequence := ReadVarint(data, session.value.offset);
    if sequence.None? {
      return None;
    }
    return Some(VoiceInfo(session.value.value, sequence.value.value, target, codec, data[sequence.value.offset..]));
  }

  lemma ReadsAt(before: seq<Octet>, value: nat, after: seq<Octet>)
    requires value < TWO_31
    ensures var s := before + EncodeClient(value) + after;
      ReadClient(s, |before|) == Some(Decoded(value, |before| + |EncodeClient(value)|))
  {
    var s := before + EncodeClient(value) + after;
    assert s[|before|..] == EncodeClient(value) + after;
    assert (EncodeClient(value) + after)[0..] == EncodeClient(value) + after;
    ClientReadsBack(value, after);
  }

  lemma ParsedIsSigned(data: seq<Octet>)
    ensures ParseVoice(data).Some? ==> ParseVoice(data).value.session < TWO_31 && ParseVoice(data).value.sequence < TWO_31
  {
    if |data| >= 1 && ReadClient(data, 1).Some? {
      ReadsSigned(data, 1);
      ReadsSigned(data, ReadClient(data, 1).value.offset);
    }
  }

  /** The client's parser recovers all five parts of its packet exactly when both numbers are below 2^31. */
  lemma ClientVoiceExactly(session: nat, sequence: nat, audio: seq<Octet>)
    ensures ParseVoice(ClientPacket(session, sequence, audio)) == Some(VoiceInfo(session, sequence, 0, 4, audio))
      <==> session < TWO_31 && sequence < TWO_31
  {
    var packet := ClientPacket(session, sequence, audio);
    ParsedIsSigned(packet);
    if session < TWO_31 && sequence < TWO_31 {
      var head, a, b := [OPUS * 32], EncodeClient(session), EncodeClient(sequence);
      ReadsAt(head, session, b + audio);
      assert packet == head + a + (b + audio);
      ReadsAt(head + a, sequence, audio);
      assert packet == (head + a) + b + audio;
      assert packet[|head + a + b|..] == audio;
    }
  }

  // ----- the two forms meet -----

  /** The client's reader never sums up to 2^32. */
  lemma {:induction false} Unsigned(s: seq<Octet>, k: nat, value: nat)
    requires k <= 4 && value < Place(k)
    ensures ReadGroups(s, k, value).Some? ==> ReadGroups(s, k, value).value.0 < TWO_32
    decreases 4 - k
  {
    if s != [] {
      ReadGroupsStep(s, k, value);
      AddedIsAbove(s[0] as int % 128, k, value);
      if s[0] >= 128 && k < 4 {
        Unsigned(s[1..], k + 1, value + Placed(s[0] as int % 128, k) % TWO_32);
      }
    }
  }

  /** What the client's reader has summed so far stays in the low part of its result. */
  lemma {:induction false} LowPartStays(s: seq<Octet>, k: nat, value: nat)
    requires k <= 4 && value < Place(k)
    ensures ReadGroups(s, k, value).Some? ==> ReadGroups(s, k, value).value.0 % Place(k) == value
    decreases 4 - k
  {
    if s != [] {
      ReadGroupsStep(s, k, value);
      var added := Placed(s[0] as int % 128, k) % TWO_32;
      AddedIsAbove(s[0] as int % 128, k, value);
      if s[0] >= 128 && k < 4 {
        LowPartStays(s[1..], k + 1, value + added);
        if ReadGroups(s[1..], k + 1, value + added).Some? {
          ModOfMod(ReadGroups(s[1..], k + 1, value + added).value.0, k);
        }
      }
    }
  }

  lemma AddedIsAbove(d: nat, k: nat, value: nat)
    requires k <= 4 && value < Place(k) && d < 128
    ensures (value + Placed(d, k) % TWO_32) % Place(k) == value
    ensures k < 4 ==> value + Placed(d, k) % TWO_32 < Place(k + 1)
    ensures value + Placed(d, k) % TWO_32 < TWO_32
  {
    if k == 0 {
    } else if k == 1 {
    } else if k == 2 {
    } else if k == 3 {
    } else {
    }
  }

  lemma ModOfMod(v: nat, k: nat)
    requires k < 4
    ensures v % Place(k + 1) % Place(k) == v % Place(k)
  {
    if k == 0 {
    } else if k == 1 {
    } else if k == 2 {
    } else {
    }
  }

  /** One byte of the client's reader, for the groups that are not cut off. */
  lemma OneGroup(b: Octet, rest: seq<Octet>, k: nat, value: nat)
    requires k <= 3
    ensures ReadGroups([b] + rest, k, value)
      == if b < 128 then Some((value + Placed(b, k), 1)) else Later(ReadGroups(rest, k + 1, value + Placed(b - 128, k)), 1)
  {
    ReadGroupsStep([b] + rest, k, value);
    assert ([b] + rest)[1..] == rest;
    NotCut(b as int % 128, k);
  }

  lemma NotCut(d: nat, k: nat)
    requires k <= 3 && d < 128
    ensures Placed(d, k) % TWO_32 == Placed(d, k)
  {
    if k == 0 {
    } else if k == 1 {
    } else if k == 2 {
    } else {
    }
  }

  /** What the client's reader makes of a first byte that continues, and of the second. */
  lemma FirstGroups(a: Octet, b: Octet, rest: seq<Octet>, v: int)
    requires a >= 128 && Reads([a] + ([b] + rest), v)
    ensures b < 128 ==> v == a - 128 + 0x80 * b
    ensures b >= 128 ==> v % 0x4000 == a - 128 + 0x80 * (b - 128) && ReadsOn(rest, 2, a - 128 + 0x80 * (b - 128), v)
  {
    OneGroup(a, [b] + rest, 0, 0);
    OneGroup(b, rest, 1, a - 128);
    if b >= 128 {
      LowPartStays(rest, 2, a - 128 + 0x80 * (b - 128));
    }
  }

  /** The same for a third byte. */
  lemma ThirdGroup(c: Octet, rest: seq<Octet>, low: nat, v: int)
    requires low < 0x4000 && ReadsOn([c] + rest, 2, low, v)
    ensures c < 128 ==> v == low + 0x4000 * c
    ensures c >= 128 ==> v % 0x20_0000 == low + 0x4000 * (c - 128)
  {
    OneGroup(c, rest, 2, low);
    if c >= 128 {
      LowPartStays(rest, 3, low + 0x4000 * (c - 128));
    }
  }

  lemma TwoBytes(hi: nat, lo: nat, n: nat, after: seq<Octet>)
    requires hi < 0x40 && lo < 256 && n == 0x100 * hi + lo > 0
    ensures !Reads([0x80 + hi] + ([lo] + after), n)
  {
    if Reads([0x80 + hi] + ([lo] + after), n) {
      TwoByteArithmetic(hi, lo);
      assert n % 0x4000 == n;
      FirstGroups(0x80 + hi, lo, after, n);
    }
  }

  /** No two-byte form agrees with the client's reading of it. */
  lemma TwoByteArithmetic(hi: int, lo: int)
    requires 0 <= hi < 0x40 && 0 <= lo < 256 && hi + lo > 0
    ensures 0x100 * hi + lo != hi + 0x80 * lo
    ensures 0x100 * hi + lo != hi + 0x80 * (lo - 128)
    ensures 0x100 * hi + lo < 0x4000
  {
    var q := lo - 2 * hi;
    assert 0x100 * hi + lo - (hi + 0x80 * lo) == hi - 127 * q;
    assert 0x100 * hi + lo - (hi + 0x80 * (lo - 128)) == hi + 1 - 127 * (q - 129);
  }

  lemma TwoByteForm(sender: nat, after: seq<Octet>)
    requires 0x80 <= sender < 0x4000
    ensures !Reads(EncodeMumble(sender) + after, sender)
  {
    var hi, lo := sender / 0x100, sender % 0x100;
    TwoBytes(hi, lo, sender, after);
    assert EncodeMumble(sender) + after == [0x80 + hi] + ([lo] + after);
  }

  lemma ThreeBytes(hi: nat, mid: nat, lo: nat, after: seq<Octet>)
    requires hi < 0x20 && mid < 256 && lo < 256 && 0x1_0000 * hi + 0x100 * mid + lo >= 0x4000
    ensures !Reads([0xc0 + hi] + ([mid] + ([lo] + after)), 0x1_0000 * hi + 0x100 * mid + lo)
  {
    var n := 0x1_0000 * hi + 0x100 * mid + lo;
    if Reads([0xc0 + hi] + ([mid] + ([lo] + after)), n) {
      FirstGroups(0xc0 + hi, mid, [lo] + after, n);
      assert mid >= 128;
      ThirdGroup(lo, after, 64 + hi + 0x80 * (mid - 128), n);
      assert n < 0x20_0000;
      ThreeByteArithmetic(hi, mid, lo);
    }
  }

  /** No three-byte form agrees with the client's reading of it: the difference is never 0. */
  lemma ThreeByteArithmetic(hi: int, mid: int, lo: int)
    requires 0 <= hi < 0x20 && 128 <= mid < 256 && 0 <= lo < 256
    ensures 0x1_0000 * hi + 0x100 * mid + lo != 64 + hi + 0x80 * (mid - 128) + 0x4000 * lo
    ensures 0x1_0000 * hi + 0x100 * mid + lo != 64 + hi + 0x80 * (mid - 128) + 0x4000 * (lo - 128)
  {
    var q := 0x80 * lo - 0x200 * hi - mid - 0x80;
    NeverZero(hi, mid, lo, q);
    NeverZero(hi, mid, lo, q - 0x4000);
  }

  lemma NeverZero(hi: int, mid: int, lo: int, q: int)
    requires 0 <= hi < 0x20 && 128 <= mid < 256 && 0 <= lo < 256
    requires q == 0x80 * lo - 0x200 * hi - mid - 0x80 || q == 0x80 * lo - 0x200 * hi - mid - 0x4080
    ensures lo - 64 - hi != 0x80 * q
  {
    if q == 0 {
    } else if q == 1 {
    } else {
    }
  }

  lemma OneByOne(a: Octet, b: Octet, c: Octet, after: seq<Octet>)
    ensures [a, b, c] + after == [a] + ([b] + ([c] + after))
  {
  }

  lemma ThreeByteForm(sender: nat, after: seq<Octet>)
    requires 0x4000 <= sender < 0x20_0000
    ensures !Reads(EncodeMumble(sender) + after, sender)
  {
    var hi, mid, lo := sender / 0x1_0000, sender / 0x100 % 0x100, sender % 0x100;
    ThreeDigits(sender);
    ThreeBytes(hi, mid, lo, after);
    ThreeCode(sender);
    OneByOne(0xc0 + hi, mid, lo, after);
  }

  lemma FiveByteForm(sender: nat, after: seq<Octet>)
    requires 0x20_0000 <= sender < TWO_31
    ensures !Reads(EncodeMumble(sender) + after, sender)
  {
    var code, a := EncodeMumble(sender), sender / 0x100_0000;
    assert code == [0xf0] + ([a] + code[2..]);
    assert code + after == [0xf0] + ([a] + (code[2..] + after));
    if Reads(code + after, sender) {
      FirstGroups(0xf0, a, code[2..] + after, sender);
    }
  }

  /** The client's reader finds this number at the front of the bytes. */
  predicate Reads(s: seq<Octet>, n: int) {
    ReadsOn(s, 0, 0, n)
  }

  predicate ReadsOn(s: seq<Octet>, k: nat, value: nat, n: int)
    requires k <= 4
  {
    ReadGroups(s, k, value).Some? && ReadGroups(s, k, value).value.0 == n
  }

  /** The client recovers the sender of a packet that an Edge forwards exactly when it is below 128. */
  lemma ForwardReadExactly(packet: VoicePacket)
    requires 0 <= packet.sender < TWO_32
    ensures (exists d :: ReadClient(Forwarded(packet), 1) == Some(d) && d.value == packet.sender) <==> packet.sender < 128
  {
    var data, s := Forwarded(packet), EncodeMumble(packet.sender) + packet.data;
    assert data[1..] == s;
    if packet.sender < 128 {
      OneGroup(packet.sender, packet.data, 0, 0);
      assert ReadClient(data, 1) == Some(Decoded(packet.sender, 2));
    } else {
      LongForms(packet.sender, packet.data);
    }
  }

  lemma SignedOf(v: nat, n: nat)
    requires v < TWO_32 && ToInt32(v) == n
    ensures v == n < TWO_31
  {
  }

  /** From two bytes on, the signed number that the client's reader finds is another one. */
  lemma LongForms(sender: nat, after: seq<Octet>)
    requires 128 <= sender < TWO_32
    ensures var r := ReadGroups(EncodeMumble(sender) + after, 0, 0);
      r.Some? ==> ToInt32(r.value.0) != sender
  {
    var s := EncodeMumble(sender) + after;
    var r := ReadGroups(s, 0, 0);
    if r.Some? && ToInt32(r.value.0) == sender {
      Unsigned(s, 0, 0);
      SignedOf(r.value.0, sender);
      assert Reads(s, sender);
      if sender < 0x4000 {
        TwoByteForm(sender, after);
      } else if sender < 0x20_0000 {
        ThreeByteForm(sender, after);
      } else {
        FiveByteForm(sender, after);
      }
    }
  }

  /** The first byte that does not continue stands at j. */
  predicate EndsAt(s: seq<Octet>, j: nat) {
    j < |s| && s[j] < 128 && forall i :: 0 <= i < j ==> s[i] >= 128
  }

  predicate AllContinue(s: seq<Octet>) {
    forall i :: 0 <= i < |s| ==> s[i] >= 128
  }

  /** The client's reader consumes up to the first byte that does not continue, if that is among five. */
  lemma {:induction false} ReadsToEnd(s: seq<Octet>, k: nat, value: nat, j: nat)
    requires k <= 4 && EndsAt(s, j)
    ensures ReadGroups(s, k, value).Some? <==> j + k <= 4
    ensures ReadGroups(s, k, value).Some? ==> ReadGroups(s, k, value).value.1 == j + 1
    decreases j
  {
    ReadGroupsStep(s, k, value);
    if j > 0 && k < 4 {
      ReadsToEnd(s[1..], k + 1, value + Placed(s[0] as int % 128, k) % TWO_32, j - 1);
    }
  }

  lemma ClientReadsToEnd(data: seq<Octet>, at: nat, j: nat)
    requires at <= |data| && EndsAt(data[at..], j)
    ensures ReadClient(data, at).Some? <==> j <= 4
    ensures ReadClient(data, at).Some? ==> ReadClient(data, at).value.offset == at + j + 1
  {
    ReadsToEnd(data[at..], 0, 0, j);
  }

  lemma {:induction false} FirstEnd(s: seq<Octet>) returns (j: nat)
    requires !AllContinue(s)
    ensures EndsAt(s, j)
  {
    if s[0] < 128 {
      j := 0;
    } else {
      j := FirstEnd(s[1..]);
      assert forall i :: 0 < i <= j ==> s[i] == s[1..][i - 1];
      j := j + 1;
    }
  }

  function Pow128(n: nat): nat {
    if n == 0 then 1 else 128 * Pow128(n - 1)
  }

  lemma {:induction false} GroupsEnd(v: int, n: nat)
    requires 0 < n && v < Pow128(n)
    ensures EndsAt(Groups(v), |Groups(v)| - 1) && |Groups(v)| <= n
    decreases n
  {
    if v >= 128 {
      GroupsEnd(v / 128, n - 1);
      var rest := Groups(v / 128);
      assert Groups(v) == [v % 128 + 128] + rest;
    }
  }

  /** Every number that the client writes ends with its only byte that does not continue, the fifth at the latest. */
  lemma CodeEnds(value: int)
    ensures EndsAt(EncodeClient(value), |EncodeClient(value)| - 1) && |EncodeClient(value)| <= 5
  {
    assert Pow128(5) == 128 * (128 * (128 * (128 * 128)));
    GroupsEnd(ToInt32(value), 5);
  }

  /**
   * The sender that an Edge puts in front and the speaker's own session are read as one number:
   * no byte of the sender's form ends it, and both together are within the reader's five bytes.
   */
  predicate ReadAsOne(sender: int, session: int) {
    AllContinue(EncodeMumble(sender)) && |EncodeMumble(sender)| + |EncodeClient(session)| <= 5
  }

  /** What another client makes of a client's own packet that an Edge has forwarded. */
  function Heard(sender: int, session: int, sequence: int, audio: seq<Octet>): Option<VoiceInfo> {
    match EdgeParse(ClientPacket(session, sequence, audio), sender)
    case None => None
    case Some(packet) => ParseVoice(Forwarded(packet))
  }

  lemma HeardParts(sender: int, session: int, sequence: int, audio: seq<Octet>)
    ensures EdgeParse(ClientPacket(session, sequence, audio), sender)
      == Some(VoicePacket(sender, 0, OPUS, EncodeClient(session) + (EncodeClient(sequence) + audio)))
    ensures Heard(sender, session, sequence, audio)
      == ParseVoice(Cut(EncodeMumble(sender) + EncodeClient(session), EncodeClient(sequence), audio))
  {
    EdgeReadsClient(session, sequence, audio, sender);
    var packet := VoicePacket(sender, 0, OPUS, EncodeClient(session) + (EncodeClient(sequence) + audio));
    assert Forwarded(packet) == Cut(EncodeMumble(sender) + EncodeClient(session), EncodeClient(sequence), audio);
  }

  lemma EndsInside(a: seq<Octet>, j: nat, b: seq<Octet>)
    requires EndsAt(a, j)
    ensures EndsAt(a + b, j)
  {
  }

  lemma EndsAfter(a: seq<Octet>, b: seq<Octet>, j: nat)
    requires AllContinue(a) && EndsAt(b, j)
    ensures EndsAt(a + b, |a| + j)
  {
  }

  /** The packet that the other client reads, cut where its first number should end. */
  function Cut(front: seq<Octet>, code: seq<Octet>, audio: seq<Octet>): seq<Octet> {
    [OPUS * 32] + front + code + audio
  }

  lemma CutParts(front: seq<Octet>, code: seq<Octet>, audio: seq<Octet>)
    ensures Cut(front, code, audio)[1..] == front + (code + audio)
    ensures Cut(front, code, audio)[1 + |front|..] == code + audio
    ensures Cut(front, code, audio)[1 + |front| + |code|..] == audio
  {
  }

  /** When the front ends with its only such byte, both numbers are read in their places. */
  lemma ReadInPlace(front: seq<Octet>, code: seq<Octet>, audio: seq<Octet>)
    requires |front| > 0 && EndsAt(front, |front| - 1) && |code| > 0 && EndsAt(code, |code| - 1) && |code| <= 5
    ensures var data := Cut(front, code, audio);
      ParseVoice(data).Some? <==> |front| <= 5
    ensures var data := Cut(front, code, audio);
      var r, second := ParseVoice(data), ReadClient(data, 1 + |front|);
      r.Some? ==> r.value.audio == audio && second.Some? && r.value.sequence == second.value.value
  {
    var data := Cut(front, code, audio);
    CutParts(front, code, audio);
    EndsInside(front, |front| - 1, code + audio);
    ClientReadsToEnd(data, 1, |front| - 1);
    EndsInside(code, |code| - 1, audio);
    ClientReadsToEnd(data, 1 + |front|, |code| - 1);
  }

  /** When the front has such a byte before its last, the second number is read from within it. */
  lemma ReadTooSoon(front: seq<Octet>, i: nat, code: seq<Octet>, audio: seq<Octet>)
    requires i < |front| - 1 && EndsAt(front, i) && front[|front| - 1] < 128 && |code| > 0
    ensures var r := ParseVoice(Cut(front, code, audio)); r.Some? ==> |r.value.audio| > |audio|
  {
    var data := Cut(front, code, audio);
    CutParts(front, code, audio);
    EndsInside(front, i, code + audio);
    ClientReadsToEnd(data, 1, i);
    if ReadClient(data, 1).Some? {
      var rest := front[i + 1..];
      assert rest[|rest| - 1] == front[|front| - 1];
      assert !AllContinue(rest);
      var j := FirstEnd(rest);
      EndsInside(rest, j, code + audio);
      assert front == front[..i + 1] + rest;
      TailOfCut(front[..i + 1], rest, code, audio);
      ClientReadsToEnd(data, i + 2, j);
    }
  }

  lemma TailOfCut(a: seq<Octet>, b: seq<Octet>, code: seq<Octet>, audio: seq<Octet>)
    ensures Cut(a + b, code, audio)[1 + |a|..] == b + (code + audio)
  {
  }

  /** Which sequence number is read in its place. */
  lemma SequenceInPlace(front: seq<Octet>, sequence: nat, audio: seq<Octet>)
    requires var r := ReadClient(Cut(front, EncodeClient(sequence), audio), 1 + |front|); r.Some?
    ensures var r := ReadClient(Cut(front, EncodeClient(sequence), audio), 1 + |front|);
      r.value.value == sequence <==> sequence < TWO_31
  {
    ReadsSigned(Cut(front, EncodeClient(sequence), audio), 1 + |front|);
    if sequence < TWO_31 {
      ReadsAt([OPUS * 32] + front, sequence, audio);
    }
  }

  /**
   * A client's own packet, forwarded by an Edge and parsed by another client. The Edge puts the
   * sender in front of a session that is already there, so there are three numbers where the
   * parser reads two. The audio comes out exactly when the first two happen to be read as one,
   * and then the sequence number does too, if it is below 2^31.
   */
  lemma ForwardedAudioExactly(sender: int, session: int, sequence: nat, audio: seq<Octet>)
    ensures EdgeParse(ClientPacket(session, sequence, audio), sender).Some?
    ensures var heard := Heard(sender, session, sequence, audio);
      (heard.Some? && heard.value.audio == audio <==> ReadAsOne(sender, session))
      && (heard.Some? && heard.value.audio == audio && heard.value.sequence == sequence
          <==> ReadAsOne(sender, session) && sequence < TWO_31)
  {
    HeardParts(sender, session, sequence, audio);
    var m, c := EncodeMumble(sender), EncodeClient(session);
    CodeEnds(session);
    CodeEnds(sequence);
    if AllContinue(m) {
      EndsAfter(m, c, |c| - 1);
      HeardInPlace(m + c, sequence, audio);
    } else {
      var i := FirstEnd(m);
      EndsInside(m, i, c);
      ReadTooSoon(m + c, i, EncodeClient(sequence), audio);
    }
  }

  lemma HeardInPlace(front: seq<Octet>, sequence: nat, audio: seq<Octet>)
    requires |front| > 0 && EndsAt(front, |front| - 1)
    ensures var r := ParseVoice(Cut(front, EncodeClient(sequence), audio));
      (r.Some? <==> |front| <= 5) && (r.Some? ==> r.value.audio == audio && (r.value.sequence == sequence <==> sequence < TWO_31))
  {
    CodeEnds(sequence);
    ReadInPlace(front, EncodeClient(sequence), audio);
    if |front| <= 5 {
      SequenceInPlace(front, sequence, audio);
    }
  }

  /** Session 200, spoken and forwarded as 200: sequence and audio come out, the speaker does not. */
  lemma ForwardSurvives(audio: seq<Octet>)
    ensures var heard := Heard(200, 200, 5, audio);
      heard.Some? && heard.value.sequence == 5 && heard.value.audio == audio && heard.value.session != 200
  {
    assert EncodeMumble(200) == [0x80, 0xc8] && ToInt32(200) == 200;
    assert Groups(200) == [0xc8, 1] by {
      assert Groups(1) == [1];
    }
    ForwardedAudioExactly(200, 200, 5, audio);
    var packet := VoicePacket(200, 0, OPUS, EncodeClient(200) + (EncodeClient(5) + audio));
    HeardParts(200, 200, 5, audio);
    ForwardReadExactly(packet);
  }

  /** Session 1, forwarded as 1: the sequence is taken for the start of the audio. */
  lemma ForwardShifts(audio: seq<Octet>)
    ensures Heard(1, 1, 5, audio) == Some(VoiceInfo(1, 1, 0, OPUS, [5] + audio))
  {
    ForwardShiftsFields(1, 5, audio, 1);
    assert EncodeClient(5) == [5];
  }

  /**
   * For senders below 128 the fields are always shifted by one: the parsed sequence is the
   * speaker's own session, and the audio starts with the sequence number.
   */
  lemma ForwardShiftsFields(session: nat, sequence: nat, audio: seq<Octet>, sender: nat)
    requires session < TWO_31 && sender < 128
    ensures Heard(sender, session, sequence, audio)
      == Some(VoiceInfo(sender, session, 0, OPUS, EncodeClient(sequence) + audio))
    ensures EncodeClient(sequence) + audio != audio
  {
    var rest := EncodeClient(sequence) + audio;
    assert |rest| > |audio|;
    EdgeReadsClient(session, sequence, audio, sender);
    ClientReadsForward(sender, session, rest);
  }

  lemma EdgeReadsClient(session: int, sequence: int, audio: seq<Octet>, sender: int)
    ensures EdgeParse(ClientPacket(session, sequence, audio), sender)
      == Some(VoicePacket(sender, 0, OPUS, EncodeClient(session) + (EncodeClient(sequence) + audio)))
  {
    var packet := ClientPacket(session, sequence, audio);
    assert packet[1..] == EncodeClient(session) + (EncodeClient(sequence) + audio);
    assert packet[0] == 128 && |packet| >= 2;
  }

  lemma ClientReadsForward(sender: nat, session: nat, rest: seq<Octet>)
    requires session < TWO_31 && sender < 128
    ensures ParseVoice(Forwarded(VoicePacket(sender, 0, OPUS, EncodeClient(session) + rest)))
      == Some(VoiceInfo(sender, session, 0, OPUS, rest))
  {
    var head: seq<Octet>, a, b := [OPUS * 32], EncodeClient(sender), EncodeClient(session);
    var forwarded := Forwarded(VoicePacket(sender, 0, OPUS, b + rest));
    assert a == [sender];
    ReadsAt(head, sender, b + rest);
    assert forwarded == head + a + (b + rest);
    ReadsAt(head + a, session, rest);
    assert forwarded == (head + a) + b + rest;
    assert forwarded[|head + a + b|..] == rest;
  }

  // ----- who hears it -----

  datatype Client = Client(session: nat, userId: int, channel: nat, listening: set<nat>,
    mute: bool, selfMute: bool, suppress: bool, deaf: bool, selfDeaf: bool)

  predicate OneEach(clients: seq<Client>) {
    forall i, j :: 0 <= i < j < |clients| ==> clients[i].session != clients[j].session
  }

  predicate Hears(c: Client) {
    !c.deaf && !c.selfDeaf && c.userId > 0
  }

  /** The one client of a session, if it is connected. */
  function Find(clients: seq<Client>, session: nat): (r: Option<Client>)
    ensures r.Some? ==> r.value in clients && r.value.session == session
    ensures r.None? <==> forall c <- clients :: c.session != session
  {
    if clients == [] then None else if clients[0].session == session then Some(clients[0]) else Find(clients[1..], session)
  }

  predicate Silenced(c: Client) {
    c.mute || c.selfMute || c.suppress
  }

  /** Whether a client gets the packets of this sender spoken into this channel. */
  predicate Recipient(c: Client, sender: int, channel: nat) {
    c.session != sender && Hears(c) && (c.channel == channel || channel in c.listening)
  }

  predicate NoTwice(sent: seq<nat>) {
    forall i, j :: 0 <= i < j < |sent| ==> sent[i] != sent[j]
  }

  /**
   * Two passes over the clients: those in the sender's channel, then those who listen to it
   * from elsewhere. Everyone entitled gets the packet, nobody else does, and nobody gets it twice.
   */
  method RouteToChannel(clients: seq<Client>, packet: VoicePacket) returns (sent: seq<nat>, announced: Option<(nat, seq<Octet>)>)
    requires OneEach(clients) && packet.sender >= 0
    ensures var sender := Find(clients, packet.sender);
      if sender.None? || sender.value.mute || sender.value.selfMute || sender.value.suppress then sent == [] && announced == None else
      announced == Some((sender.value.channel, Forwarded(packet))) && NoTwice(sent)
      && forall c <- clients :: c.session in sent
           <==> c.session != sender.value.session && !c.deaf && !c.selfDeaf && c.userId > 0
                && (c.channel == sender.value.channel || sender.value.channel in c.listening)
    ensures forall s <- sent :: exists c <- clients :: c.session == s
  {
    sent, announced := [], None;
    var found := Find(clients, packet.sender);
    if found.None? || Silenced(found.value) {
      return;
    }
    var channel := found.value.channel;
    var buffer := SerializeVoicePacket(packet);
    sent := InTheChannel(clients, packet.sender, channel);
    sent := FromElsewhere(clients, packet.sender, channel, sent);
    announced := Some((channel, buffer[..]));
  }

  predicate Near(c: Client, sender: int, channel: nat) {
    Recipient(c, sender, channel) && c.channel == channel
  }

  /** The sessions sent to, none twice, are those of the chosen positions. */
  ghost predicate SentTo(sent: seq<nat>, clients: seq<Client>, chosen: set<nat>) {
    NoTwice(sent)
    && (forall i :: 0 <= i < |clients| ==> (i in chosen <==> clients[i].session in sent))
    && (forall s <- sent :: exists i :: 0 <= i < |clients| && clients[i].session == s)
  }

  lemma SendOne(sent: seq<nat>, clients: seq<Client>, chosen: set<nat>, n: nat)
    requires OneEach(clients) && n < |clients| && SentTo(sent, clients, chosen) && n !in chosen
    ensures SentTo(sent + [clients[n].session], clients, chosen + {n})
  {
  }

  method InTheChannel(clients: seq<Client>, sender: int, channel: nat) returns (sent: seq<nat>)
    requires OneEach(clients)
    ensures SentTo(sent, clients, set i | 0 <= i < |clients| && Near(clients[i], sender, channel))
  {
    sent := [];
    ghost var chosen: set<nat> := {};
    for n := 0 to |clients|
      invariant SentTo(sent, clients, chosen)
      invariant chosen == set i | 0 <= i < n && Near(clients[i], sender, channel)
    {
      var c := clients[n];
      if c.channel == channel && c.session != sender && !c.deaf && !c.selfDeaf && c.userId > 0 {
        SendOne(sent, clients, chosen, n);
        sent, chosen := sent + [c.session], chosen + {n};
      }
    }
  }

  method FromElsewhere(clients: seq<Client>, sender: int, channel: nat, already: seq<nat>) returns (sent: seq<nat>)
    requires OneEach(clients)
    requires SentTo(already, clients, set i | 0 <= i < |clients| && Near(clients[i], sender, channel))
    ensures SentTo(sent, clients, set i | 0 <= i < |clients| && Recipient(clients[i], sender, channel))
  {
    sent := already;
    ghost var chosen: set<nat> := set i | 0 <= i < |clients| && Near(clients[i], sender, channel);
    for n := 0 to |clients|
      invariant SentTo(sent, clients, chosen)
      invariant forall i :: i in chosen <==>
        0 <= i < |clients| && Recipient(clients[i], sender, channel) && (i < n || clients[i].channel == channel)
    {
      var c := clients[n];
      if c.session != sender && c.channel != channel && channel in c.listening && !c.deaf && !c.selfDeaf && c.userId > 0 {
        SendOne(sent, clients, chosen, n);
        sent, chosen := sent + [c.session], chosen + {n};
      }
    }
    assert chosen == set i | 0 <= i < |clients| && Recipient(clients[i], sender, channel);
  }

  /** A packet from another Edge goes to all local clients that can hear, but never back to its sender. */
  method HandleRemoteBroadcast(clients: seq<Client>, data: seq<Octet>) returns (sent: seq<nat>)
    requires OneEach(clients)
    ensures ParseSession(data).None? ==> sent == []
    ensures NoTwice(sent)
    ensures ParseSession(data).Some? ==>
      forall c <- clients :: c.session in sent <==> !c.deaf && !c.selfDeaf && c.userId > 0 && c.session != ParseSession(data).value
    ensures forall s <- sent :: exists c <- clients :: c.session == s
  {
    sent := [];
    ghost var chosen: set<nat> := {};
    var sender := ParseSession(data);
    if sender.None? {
      return;
    }
    for n := 0 to |clients|
      invariant SentTo(sent, clients, chosen)
      invariant forall i :: i in chosen <==> 0 <= i < n && Hears(clients[i]) && clients[i].session != sender.value
    {
      var c := clients[n];
      if !c.deaf && !c.selfDeaf && c.userId > 0 && c.session != sender.value {
        SendOne(sent, clients, chosen, n);
        sent, chosen := sent + [c.session], chosen + {n};
      }
    }
  }

  /** A server-wide packet from another Edge goes to all local clients that can hear, whatever their session number. */
  method HandleRemoteServerBroadcast(clients: seq<Client>) returns (sent: seq<nat>)
    requires OneEach(clients)
    ensures NoTwice(sent)
    ensures forall c <- clients :: c.session in sent <==> !c.deaf && !c.selfDeaf && c.userId > 0
    ensures forall s <- sent :: exists c <- clients :: c.session == s
  {
    sent := [];
    ghost var chosen: set<nat> := {};
    for n := 0 to |clients|
      invariant SentTo(sent, clients, chosen)
      invariant forall i :: i in chosen <==> 0 <= i < n && Hears(clients[i])
    {
      var c := clients[n];
      if !c.deaf && !c.selfDeaf && c.userId > 0 {
        SendOne(sent, clients, chosen, n);
        sent, chosen := sent + [c.session], chosen + {n};
      }
    }
  }
}
