/**
 * The variable-length integers of the voice path: the Mumble form of
 * packages/edge-server/src/voice/voice-router.ts, and the base-128 forms of
 * packages/client/src/audio/stream.ts, packages/client/src/core/connection.ts and
 * packages/common/src/utils/varint.ts. Shifts and masks of 32-bit numbers are
 * written as quotients and remainders by powers of two.
 */
module Varints {
  import opened Wrappers
  import opened Framing

  const TWO_31 := 0x8000_0000
  const TWO_32 := 0x1_0000_0000

  /** The signed number that JavaScript's bit operators make of an integer. */
  function ToInt32(n: int): int {
    var u := n % TWO_32;
    if u < TWO_31 then u else u - TWO_32
  }

  // ----- the Mumble form -----

  function EncodeMumble(value: int): (s: seq<Octet>)
    ensures 1 <= |s| <= 5
  {
    var i := value % TWO_32;
    if i < 0x80 then [i]
    else if i < 0x4000 then [0x80 + i / 0x100, i % 0x100]
    else if i < 0x20_0000 then [0xc0 + i / 0x1_0000, i / 0x100 % 0x100, i % 0x100]
    else [0xf0, i / 0x100_0000, i / 0x1_0000 % 0x100, i / 0x100 % 0x100, i % 0x100]
  }

  datatype Decoded = Decoded(value: int, offset: nat)

  function Big32(data: seq<Octet>, at: nat): (n: nat)
    requires at + 4 <= |data|
  {
    0x100_0000 * (data[at] as int) + 0x1_0000 * (data[at + 1] as int) + 0x100 * (data[at + 2] as int) + data[at + 3] as int
  }

  function DecodeMumble(data: seq<Octet>, offset: nat): Option<Decoded>
    decreases |data| - offset
  {
    if offset >= |data| then None else
      var v, at := data[offset] as int, offset + 1;
      if v < 0x80 then Some(Decoded(v, at))
      else if v < 0xc0 then
        if at >= |data| then None else Some(Decoded(0x100 * (v % 0x40) + data[at] as int, at + 1))
      else if v < 0xe0 then
        if at + 1 >= |data| then None
        else Some(Decoded(0x1_0000 * (v % 0x20) + 0x100 * (data[at] as int) + data[at + 1] as int, at + 2))
      else if v < 0xf0 then
        if at + 2 >= |data| then None
        else Some(Decoded(0x100_0000 * (v % 0x10) + 0x1_0000 * (data[at] as int) + 0x100 * (data[at + 1] as int) + data[at + 2] as int, at + 3))
      else if v < 0xf4 then
        if at + 3 >= |data| then None else Some(Decoded(Big32(data, at), at + 4))
      else if v < 0xf8 then
        if at + 7 >= |data| then None else Some(Decoded(Big32(data, at + 4), at + 8))
      else if v < 0xfc then
        match DecodeMumble(data, at)
        case None => None
        case Some(d) => Some(Decoded(-ToInt32(d.value) - 1, d.offset))
      else Some(Decoded(-(v % 4) - 1, at))
  }

  lemma Inside(before: seq<Octet>, code: seq<Octet>, after: seq<Octet>, j: nat)
    requires j < |code|
    ensures (before + code + after)[|before| + j] == code[j]
  {
  }

  lemma MumbleOne(value: nat, before: seq<Octet>, after: seq<Octet>)
    requires value < 0x80
    ensures DecodeMumble(before + EncodeMumble(value) + after, |before|)
      == Some(Decoded(value, |before| + |EncodeMumble(value)|))
  {
    Inside(before, EncodeMumble(value), after, 0);
  }

  lemma MumbleTwo(value: nat, before: seq<Octet>, after: seq<Octet>)
    requires 0x80 <= value < 0x4000
    ensures DecodeMumble(before + EncodeMumble(value) + after, |before|)
      == Some(Decoded(value, |before| + |EncodeMumble(value)|))
  {
    TwoDecoded(value / 0x100, value % 0x100, before, after);
    TwoCode(value);
  }

  lemma TwoDecoded(high: nat, low: Octet, before: seq<Octet>, after: seq<Octet>)
    requires high < 0x40
    ensures DecodeMumble(before + [0x80 + high, low] + after, |before|) == Some(Decoded(0x100 * high + low, |before| + 2))
  {
    var code: seq<Octet> := [0x80 + high, low];
    Inside(before, code, after, 0);
    Inside(before, code, after, 1);
  }

  lemma TwoCode(value: nat)
    requires 0x80 <= value < 0x4000
    ensures EncodeMumble(value) == [0x80 + value / 0x100, value % 0x100] && value / 0x100 < 0x40
  {
    assert value % TWO_32 == value;
  }

  lemma MumbleThree(value: nat, before: seq<Octet>, after: seq<Octet>)
    requires 0x4000 <= value < 0x20_0000
    ensures DecodeMumble(before + EncodeMumble(value) + after, |before|)
      == Some(Decoded(value, |before| + |EncodeMumble(value)|))
  {
    ThreeDigits(value);
    ThreeDecoded(value / 0x1_0000, value / 0x100 % 0x100, value % 0x100, before, after);
    ThreeCode(value);
  }

  lemma ThreeCode(value: nat)
    requires 0x4000 <= value < 0x20_0000
    ensures EncodeMumble(value) == [0xc0 + value / 0x1_0000, value / 0x100 % 0x100, value % 0x100]
  {
    assert value % TWO_32 == value;
  }

  lemma ThreeDecoded(high: nat, mid: Octet, low: Octet, before: seq<Octet>, after: seq<Octet>)
    requires high < 0x20
    ensures DecodeMumble(before + [0xc0 + high, mid, low] + after, |before|)
      == Some(Decoded(0x1_0000 * high + 0x100 * mid + low, |before| + 3))
  {
    var code: seq<Octet> := [0xc0 + high, mid, low];
    Inside(before, code, after, 0);
    Inside(before, code, after, 1);
    Inside(before, code, after, 2);
  }

  lemma MumbleFive(value: nat, before: seq<Octet>, after: seq<Octet>)
    requires 0x20_0000 <= value < TWO_32
    ensures DecodeMumble(before + EncodeMumble(value) + after, |before|)
      == Some(Decoded(value, |before| + |EncodeMumble(value)|))
  {
    var code := EncodeMumble(value);
    Inside(before, code, after, 0);
    Inside(before, code, after, 1);
    Inside(before, code, after, 2);
    Inside(before, code, after, 3);
    Inside(before, code, after, 4);
    BigDigits(value);
  }

  /** Every 32-bit number is read back, whatever stands before and after it. */
  lemma MumbleRoundTrip(value: nat, before: seq<Octet>, after: seq<Octet>)
    requires value < TWO_32
    ensures DecodeMumble(before + EncodeMumble(value) + after, |before|)
      == Some(Decoded(value, |before| + |EncodeMumble(value)|))
  {
    if value < 0x80 {
      MumbleOne(value, before, after);
    } else if value < 0x4000 {
      MumbleTwo(value, before, after);
    } else if value < 0x20_0000 {
      MumbleThree(value, before, after);
    } else {
      MumbleFive(value, before, after);
    }
  }

  lemma BigDigits(n: nat)
    requires n < TWO_32
    ensures n == 0x100_0000 * (n / 0x100_0000) + 0x1_0000 * (n / 0x1_0000 % 0x100) + 0x100 * (n / 0x100 % 0x100) + n % 0x100
  {
    var a, b := n / 0x100, n / 0x1_0000;
    assert n == 0x100 * a + n % 0x100;
    assert a / 0x100 == b && a == 0x100 * b + a % 0x100;
    assert b / 0x100 == n / 0x100_0000 && b == 0x100 * (b / 0x100) + b % 0x100;
  }

  lemma ThreeDigits(n: nat)
    requires n < 0x20_0000
    ensures n == 0x1_0000 * (n / 0x1_0000) + 0x100 * (n / 0x100 % 0x100) + n % 0x100 && n / 0x1_0000 < 0x20
  {
    var a := n / 0x100;
    assert n == 0x100 * a + n % 0x100;
    assert a / 0x100 == n / 0x1_0000 && a == 0x100 * (a / 0x100) + a % 0x100;
  }

  // ----- base 128, low group first -----

  /** Groups of seven bits, low first; a signed number that is negative gives just one. */
  function Groups(v: int): (s: seq<Octet>)
    decreases if v < 0 then 0 else v
  {
    if v >= 128 then [v % 128 + 128] + Groups(v / 128) else [v % 128]
  }

  /** The client's writer: its shift is signed, so a number from 2^31 on stops after one byte. */
  function EncodeClient(value: int): seq<Octet> {
    Groups(ToInt32(value))
  }

  method WriteClient(value: int) returns (bytes: seq<Octet>)
    ensures bytes == EncodeClient(value)
  {
    bytes := [];
    var v := ToInt32(value);
    var more := true;
    ghost var whole := Groups(v);
    while more
      invariant whole == bytes + if more then Groups(v) else []
      decreases more, if v < 0 then 0 else v
    {
      var byte := v % 128;
      v := v / 128;
      if v > 0 {
        byte := byte + 128;
      }
      bytes := bytes + [byte];
      more := v > 0;
    }
  }

  /** The place value of the k-th group. */
  function Place(k: nat): nat
    requires k <= 4
  {
    if k == 0 then 1 else if k == 1 then 0x80 else if k == 2 then 0x4000 else if k == 3 then 0x20_0000 else 0x1000_0000
  }

  /** A group at its place. */
  function Placed(v: nat, k: nat): nat
    requires k <= 4
  {
    if k == 0 then v else if k == 1 then 0x80 * v else if k == 2 then 0x4000 * v else if k == 3 then 0x20_0000 * v else 0x1000_0000 * v
  }

  /**
   * The client's reader from its k-th byte on: the unsigned 32-bit value and the bytes
   * read. It gives up after five bytes and at the end of the data.
   */
  function ReadGroups(s: seq<Octet>, k: nat, value: nat): (r: Option<(nat, nat)>)
    requires k <= 4
    ensures r.Some? ==> r.value.1 <= |s|
    decreases 5 - k, s
  {
    if s == [] then None else
      var next := value + Placed(s[0] as int % 128, k) % TWO_32;
      if s[0] < 128 then Some((next, 1))
      else if k == 4 then None
      else match ReadGroups(s[1..], k + 1, next)
        case None => None
        case Some((v, n)) => Some((v, n + 1))
  }

  function ReadClient(buffer: seq<Octet>, offset: nat): (r: Option<Decoded>)
    requires offset <= |buffer|
    ensures r.Some? ==> r.value.offset <= |buffer|
  {
    match ReadGroups(buffer[offset..], 0, 0)
    case None => None
    case Some((v, n)) => Some(Decoded(ToInt32(v), offset + n))
  }

  lemma {:induction false} GroupsRoundTrip(v: nat, k: nat, value: nat, after: seq<Octet>)
    requires k <= 4 && Placed(v, k) < TWO_31
    ensures ReadGroups(Groups(v) + after, k, value) == Some((value + Placed(v, k), |Groups(v)|))
    decreases v
  {
    if v >= 128 {
      PlaceSteps(v, k);
      GroupsRoundTrip(v / 128, k + 1, value + Placed(v % 128, k), after);
      MoreGroups(v, k, value, after);
    } else {
      LastGroup(v, k, value, after);
    }
  }

  lemma MoreGroups(v: nat, k: nat, value: nat, after: seq<Octet>)
    requires k < 4 && Placed(v, k) < TWO_31 && v >= 128
    requires ReadGroups(Groups(v / 128) + after, k + 1, value + Placed(v % 128, k))
      == Some((value + Placed(v % 128, k) + Placed(v / 128, k + 1), |Groups(v / 128)|))
    ensures ReadGroups(Groups(v) + after, k, value) == Some((value + Placed(v, k), |Groups(v)|))
  {
    PlaceSteps(v, k);
    ReadFirstGroup(v % 128 + 128, Groups(v / 128) + after, k, value, value + Placed(v % 128, k));
    FirstAndRest(v, after);
  }

  lemma LastGroup(v: nat, k: nat, value: nat, after: seq<Octet>)
    requires k <= 4 && Placed(v, k) < TWO_31 && v < 128
    ensures ReadGroups(Groups(v) + after, k, value) == Some((value + Placed(v, k), |Groups(v)|))
  {
    assert Groups(v) == [v] && v % 128 == v;
    PlaceSteps(v, k);
    ReadFirstGroup(v, after, k, value, value + Placed(v, k));
  }

  lemma FirstAndRest(v: nat, after: seq<Octet>)
    requires v >= 128
    ensures Groups(v) + after == [v % 128 + 128] + (Groups(v / 128) + after)
    ensures |Groups(v)| == |Groups(v / 128)| + 1
  {
    assert Groups(v) == [v % 128 + 128] + Groups(v / 128);
  }

  lemma ReadFirstGroup(b: Octet, rest: seq<Octet>, k: nat, value: nat, next: nat)
    requires k <= 4 && next == value + Placed(b as int % 128, k) % TWO_32
    ensures ReadGroups([b] + rest, k, value)
      == if b < 128 then Some((next, 1)) else if k == 4 then None else Later(ReadGroups(rest, k + 1, next), 1)
  {
    assert ([b] + rest)[1..] == rest;
  }

  lemma ReadGroupsStep(s: seq<Octet>, k: nat, value: nat)
    requires k <= 4 && s != []
    ensures var next := value + Placed(s[0] as int % 128, k) % TWO_32;
      ReadGroups(s, k, value)
      == if s[0] < 128 then Some((next, 1)) else if k == 4 then None else
         match ReadGroups(s[1..], k + 1, next) { case None => None case Some((v, n)) => Some((v, n + 1)) }
  {
  }

  lemma PlaceSteps(v: nat, k: nat)
    requires k <= 4 && Placed(v, k) < TWO_31
    ensures Placed(v % 128, k) % TWO_32 == Placed(v % 128, k)
    ensures k == 4 ==> v < 128
    ensures k < 4 ==> Placed(v / 128, k + 1) + Placed(v % 128, k) == Placed(v, k)
  {
    var q, r := v / 128, v % 128;
    assert v == 128 * q + r;
    if k == 0 {
    } else if k == 1 {
    } else if k == 2 {
    } else if k == 3 {
    } else {
    }
  }

  lemma ClientReadsBack(value: nat, after: seq<Octet>)
    requires value < TWO_31
    ensures ReadClient(EncodeClient(value) + after, 0) == Some(Decoded(value, |EncodeClient(value)|))
  {
    var s := EncodeClient(value) + after;
    assert s[0..] == s && ToInt32(value) == value;
    GroupsRoundTrip(value, 0, 0, after);
  }

  lemma ReadsSigned(s: seq<Octet>, at: nat)
    requires at <= |s|
    ensures ReadClient(s, at).Some? ==> -TWO_31 <= ReadClient(s, at).value.value < TWO_31
  {
  }

  /** The client reads back what it wrote exactly for numbers below 2^31. */
  lemma ClientRoundTripExactly(value: nat, after: seq<Octet>)
    ensures ReadClient(EncodeClient(value) + after, 0) == Some(Decoded(value, |EncodeClient(value)|)) <==> value < TWO_31
  {
    ReadsSigned(EncodeClient(value) + after, 0);
    if value < TWO_31 {
      ClientReadsBack(value, after);
    }
  }

  method ReadVarint(buffer: seq<Octet>, offset: nat) returns (r: Option<Decoded>)
    requires offset <= |buffer|
    ensures r == ReadClient(buffer, offset)
  {
    var value: nat, k: nat := 0, 0;
    while offset + k < |buffer|
      invariant k <= 4 && offset + k <= |buffer|
      invariant ReadGroups(buffer[offset..], 0, 0) == Later(ReadGroups(buffer[offset + k..], k, value), k)
    {
      var byte := buffer[offset + k];
      ReadGroupsStep(buffer[offset + k..], k, value);
      assert buffer[offset + k..][1..] == buffer[offset + k + 1..];
      value := value + Placed(byte as int % 128, k) % TWO_32;
      k := k + 1;
      if byte < 128 {
        return Some(Decoded(ToInt32(value), offset + k));
      }
      if 7 * k >= 32 {
        return None;
      }
    }
    assert ReadGroups([], k, value) == None;
    return None;
  }

  /** A result found after k more bytes. */
  function Later(r: Option<(nat, nat)>, k: nat): Option<(nat, nat)> {
    match r
    case None => None
    case Some((v, n)) => Some((v, n + k))
  }

  // ----- the shared utility: the same groups, another reader -----

  /** Bitwise or. */
  function Or(a: nat, b: nat): nat
    decreases a + b
  {
    if a == 0 && b == 0 then 0 else (if a % 2 == 1 || b % 2 == 1 then 1 else 0) + 2 * Or(a / 2, b / 2)
  }

  function Pow2(j: nat): nat
    decreases j
  {
    if j == 0 then 1 else 2 * Pow2(j - 1)
  }

  lemma {:induction false} OrAbove(a: nat, c: nat, j: nat)
    requires a < Pow2(j)
    ensures Or(a, c * Pow2(j)) == a + c * Pow2(j)
    decreases j
  {
    if j == 0 {
      OrZero(c);
    } else {
      var p := Pow2(j - 1);
      assert c * Pow2(j) == 2 * (c * p);
      OrAbove(a / 2, c, j - 1);
    }
  }

  lemma {:induction false} OrZero(c: nat)
    ensures Or(0, c) == c
  {
    if c > 0 {
      OrZero(c / 2);
    }
  }

  /** The shift count of the k-th byte, taken modulo 32 as JavaScript does. */
  function ShiftOf(k: nat): nat {
    7 * k % 32
  }

  /** The value after one more byte: from the fifth on only four bits of it count. */
  function CommonNext(byte: Octet, k: nat, value: nat): nat {
    var bits := if k < 4 then byte as int % 128 else byte as int % 16;
    Or(value, bits * Pow2(ShiftOf(k)) % TWO_32)
  }

  /** Up to nine bytes. None when the data ends. */
  function ReadCommonGroups(s: seq<Octet>, k: nat, value: nat): Option<(nat, nat)>
    requires k <= 9
    decreases 9 - k, s
  {
    if k == 9 then Some((value, 0))
    else if s == [] then None
    else
      var next := CommonNext(s[0], k, value);
      if s[0] < 128 then Some((next, 1)) else Later(ReadCommonGroups(s[1..], k + 1, next), 1)
  }

  function ReadCommon(buffer: seq<Octet>, offset: nat): Option<(int, nat)>
    requires offset <= |buffer|
  {
    match ReadCommonGroups(buffer[offset..], 0, 0)
    case None => None
    case Some((v, n)) => Some((ToInt32(v), n))
  }

  method ReadVarintCommon(buffer: seq<Octet>, offset: nat) returns (r: Option<(int, nat)>)
    requires offset <= |buffer|
    ensures r == ReadCommon(buffer, offset)
  {
    var value: nat, k: nat := 0, 0;
    ghost var whole := ReadCommonGroups(buffer[offset..], 0, 0);
    while k < 9
      invariant k <= 9 && offset + k <= |buffer|
      invariant whole == Later(ReadCommonGroups(buffer[offset + k..], k, value), k)
    {
      if offset + k >= |buffer| {
        CommonShort(buffer, offset + k, k, value);
        return None;
      }
      var byte := buffer[offset + k];
      CommonByte(buffer, offset + k, k, value, whole);
      value := CommonNext(byte, k, value);
      k := k + 1;
      if byte < 128 {
        return Some((ToInt32(value), k));
      }
    }
    CommonFull(buffer, offset + k, value);
    return Some((ToInt32(value), k));
  }

  lemma CommonShort(buffer: seq<Octet>, at: nat, k: nat, value: nat)
    requires at == |buffer| && k < 9
    ensures ReadCommonGroups(buffer[at..], k, value) == None
  {
  }

  lemma CommonFull(buffer: seq<Octet>, at: nat, value: nat)
    requires at <= |buffer|
    ensures ReadCommonGroups(buffer[at..], 9, value) == Some((value, 0))
  {
  }

  lemma CommonByte(buffer: seq<Octet>, at: nat, k: nat, value: nat, whole: Option<(nat, nat)>)
    requires at < |buffer| && k < 9 && whole == Later(ReadCommonGroups(buffer[at..], k, value), k)
    ensures var next := CommonNext(buffer[at], k, value);
      whole == if buffer[at] < 128 then Some((next, k + 1)) else Later(ReadCommonGroups(buffer[at + 1..], k + 1, next), k + 1)
  {
    assert buffer[at..][1..] == buffer[at + 1..];
  }

  /** The writer: its shift is unsigned, so every 32-bit number is written in full. */
  function EncodeCommon(value: int): seq<Octet> {
    if value >= 128 then [value % 128 + 128] + Groups(value % TWO_32 / 128) else [value % 128]
  }

  method WriteVarint(value: int) returns (bytes: seq<Octet>)
    ensures bytes == EncodeCommon(value)
  {
    bytes := [];
    var v := value;
    while v > 127
      invariant EncodeCommon(value) == bytes + EncodeCommon(v)
      decreases v
    {
      CommonStep(v, bytes);
      bytes := bytes + [v % 128 + 128];
      v := v % TWO_32 / 128;
    }
    assert EncodeCommon(v) == [v % 128];
    bytes := bytes + [v % 128];
  }

  lemma CommonStep(v: nat, bytes: seq<Octet>)
    requires v >= 128
    ensures bytes + EncodeCommon(v) == bytes + [v % 128 + 128] + EncodeCommon(v % TWO_32 / 128)
  {
    var rest := v % TWO_32 / 128;
    SmallGroups(rest);
    assert EncodeCommon(v) == [v % 128 + 128] + EncodeCommon(rest);
  }

  lemma SmallGroups(v: nat)
    requires v < TWO_32
    ensures EncodeCommon(v) == Groups(v)
  {
    assert v % TWO_32 == v;
  }

  method VarintLength(value: int) returns (length: nat)
    ensures length == |EncodeCommon(value)|
  {
    length := 1;
    var v := value;
    while v > 127
      invariant |EncodeCommon(value)| == length - 1 + |EncodeCommon(v)|
      decreases v
    {
      CommonStep(v, []);
      length := length + 1;
      v := v % TWO_32 / 128;
    }
  }

  lemma ShiftsArePlaces(k: nat)
    requires k <= 4
    ensures Pow2(ShiftOf(k)) == Place(k)
  {
    assert Pow2(7) == 0x80;
    assert Pow2(14) == 0x4000;
    assert Pow2(21) == 0x20_0000;
    assert Pow2(28) == 0x1000_0000;
  }

  lemma CommonSteps(v: nat, k: nat)
    requires k <= 4 && Placed(v, k) < TWO_32
    ensures Placed(v % 128, k) % TWO_32 == Placed(v % 128, k)
    ensures k == 4 ==> v < 16
    ensures k < 4 ==> Placed(v / 128, k + 1) + Placed(v % 128, k) == Placed(v, k) && 128 * Place(k) == Place(k + 1)
  {
    if k == 0 {
    } else if k == 1 {
    } else if k == 2 {
    } else if k == 3 {
    } else {
    }
  }

  lemma ReadCommonStep(b: Octet, rest: seq<Octet>, k: nat, value: nat, next: nat)
    requires k <= 4 && next == CommonNext(b, k, value)
    ensures ReadCommonGroups([b] + rest, k, value)
      == if b < 128 then Some((next, 1)) else Later(ReadCommonGroups(rest, k + 1, next), 1)
  {
    assert ([b] + rest)[1..] == rest;
  }

  /** A group is added at its place. */
  lemma CommonNextAdds(v: nat, b: Octet, k: nat, value: nat)
    requires k <= 4 && value < Place(k) && Placed(v, k) < TWO_32 && b as int % 128 == v % 128
    ensures CommonNext(b, k, value) == value + Placed(v % 128, k)
  {
    var bits := if k < 4 then b as int % 128 else b as int % 16;
    BitsKept(v, b, k);
    PlacedBits(bits, k);
    OrAbove(value, bits, ShiftOf(k));
  }

  /** The fifth byte's cut to four bits loses nothing of a 32-bit number. */
  lemma BitsKept(v: nat, b: Octet, k: nat)
    requires k <= 4 && Placed(v, k) < TWO_32 && b as int % 128 == v % 128
    ensures (if k < 4 then b as int % 128 else b as int % 16) == v % 128 && Placed(v % 128, k) < TWO_32
  {
    CommonSteps(v, k);
  }

  lemma PlacedBits(bits: nat, k: nat)
    requires k <= 4 && Placed(bits, k) < TWO_32
    ensures Place(k) == Pow2(ShiftOf(k)) && bits * Pow2(ShiftOf(k)) == Placed(bits, k)
    ensures bits * Pow2(ShiftOf(k)) % TWO_32 == bits * Pow2(ShiftOf(k))
  {
    ShiftsArePlaces(k);
    var p := Pow2(ShiftOf(k));
    assert bits * p == Placed(bits, k);
  }

  lemma {:induction false} CommonGroupsRoundTrip(v: nat, k: nat, value: nat, after: seq<Octet>)
    requires k <= 4 && value < Place(k) && Placed(v, k) < TWO_32
    ensures ReadCommonGroups(Groups(v) + after, k, value) == Some((value + Placed(v, k), |Groups(v)|))
    decreases v
  {
    if v >= 128 {
      var next := value + Placed(v % 128, k);
      Onwards(v, k, value);
      CommonGroupsRoundTrip(v / 128, k + 1, next, after);
      ReadCommonStep(v % 128 + 128, Groups(v / 128) + after, k, value, next);
      FirstAndRest(v, after);
    } else {
      CommonLast(v, k, value, after);
    }
  }

  lemma CommonLast(v: nat, k: nat, value: nat, after: seq<Octet>)
    requires k <= 4 && value < Place(k) && Placed(v, k) < TWO_32 && v < 128
    ensures ReadCommonGroups(Groups(v) + after, k, value) == Some((value + Placed(v, k), |Groups(v)|))
  {
    assert Groups(v) == [v] && v % 128 == v;
    CommonNextAdds(v, v, k, value);
    ReadCommonStep(v, after, k, value, value + Placed(v, k));
  }

  lemma Onwards(v: nat, k: nat, value: nat)
    requires k <= 4 && value < Place(k) && Placed(v, k) < TWO_32 && v >= 128
    ensures k < 4 && value + Placed(v % 128, k) < Place(k + 1)
    ensures value + Placed(v % 128, k) + Placed(v / 128, k + 1) == value + Placed(v, k)
    ensures CommonNext(v % 128 + 128, k, value) == value + Placed(v % 128, k)
  {
    CommonNextAdds(v, v % 128 + 128, k, value);
    CommonSteps(v, k);
    RoomForMore(v, k, value);
  }

  lemma RoomForMore(v: nat, k: nat, value: nat)
    requires k < 4 && value < Place(k)
    ensures value + Placed(v % 128, k) < Place(k + 1)
  {
    var d := v % 128;
    if k == 0 {
    } else if k == 1 {
    } else if k == 2 {
    } else {
    }
  }

  lemma CommonReads(value: nat, after: seq<Octet>)
    requires value < TWO_32
    ensures ReadCommonGroups(Groups(value) + after, 0, 0) == Some((value, |Groups(value)|))
  {
    CommonGroupsRoundTrip(value, 0, 0, after);
  }

  lemma CommonReadsBack(value: nat, after: seq<Octet>)
    requires value < TWO_32
    ensures ReadCommon(EncodeCommon(value) + after, 0) == Some((ToInt32(value), |EncodeCommon(value)|))
  {
    SmallGroups(value);
    CommonReads(value, after);
    var s := Groups(value) + after;
    assert s[0..] == s;
  }

  /** The utility's reader undoes its writer exactly for numbers below 2^31: above, the sign flips. */
  lemma CommonRoundTripExactly(value: nat, after: seq<Octet>)
    requires value < TWO_32
    ensures ReadCommon(EncodeCommon(value) + after, 0) == Some((value, |EncodeCommon(value)|)) <==> value < TWO_31
  {
    CommonReadsBack(value, after);
    SignedSame(value);
  }

  lemma SignedSame(value: nat)
    requires value < TWO_32
    ensures ToInt32(value) == value <==> value < TWO_31
  {
  }

  /** At 2^31 the client's writer writes the single byte 0, and the utility's reader turns negative. */
  lemma HighNumbersLost()
    ensures EncodeClient(TWO_31) == [0]
    ensures ReadCommon(EncodeCommon(TWO_31), 0) == Some((-TWO_31, 5))
  {
    assert ToInt32(TWO_31) == -TWO_31;
    CommonReadsBack(TWO_31, []);
    var code := EncodeCommon(TWO_31);
    assert code + [] == code;
    SmallGroups(TWO_31);
    FirstAndRest(0x8000_0000, []);
    FirstAndRest(0x100_0000, []);
    FirstAndRest(0x2_0000, []);
    FirstAndRest(0x400, []);
  }
}
