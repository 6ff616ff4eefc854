/**
 * What the variable-length integers of the voice path look like, byte by byte, and what their
 * readers make of bytes that no writer made.
 */
module VarintForms {
  import opened Wrappers
  import opened Framing
  import opened Varints
  import opened Voice

  // ----- the Mumble form -----

  lemma ReadsShort(before: seq<Octet>, h: nat, a: Octet, b: Octet, c: Octet, after: seq<Octet>)
    ensures h < 0x80 ==> DecodeMumble(before + [h] + after, |before|) == Some(Decoded(h, |before| + 1))
    ensures h < 0x40 ==> DecodeMumble(before + [0x80 + h, a] + after, |before|) == Some(Decoded(256 * h + a, |before| + 2))
    ensures h < 0x20 ==>
      DecodeMumble(before + [0xc0 + h, a, b] + after, |before|) == Some(Decoded(256 * (256 * h + a) + b, |before| + 3))
    ensures h < 0x10 ==>
      DecodeMumble(before + [0xe0 + h, a, b, c] + after, |before|) == Some(Decoded(256 * (256 * (256 * h + a) + b) + c, |before| + 4))
  {
    if h < 0x10 {
      FourDecoded(before, h, a, b, c, after);
    }
    if h < 0x20 {
      ThreeDecoded(h, a, b, before, after);
    }
    if h < 0x40 {
      TwoDecoded(h, a, before, after);
    }
    if h < 0x80 {
      Inside(before, [h], after, 0);
    }
  }

  lemma FourDecoded(before: seq<Octet>, h: nat, a: Octet, b: Octet, c: Octet, after: seq<Octet>)
    requires h < 0x10
    ensures DecodeMumble(before + [0xe0 + h, a, b, c] + after, |before|)
      == Some(Decoded(256 * (256 * (256 * h + a) + b) + c, |before| + 4))
  {
    var code: seq<Octet> := [0xe0 + h, a, b, c];
    Inside(before, code, after, 0);
    Inside(before, code, after, 1);
    Inside(before, code, after, 2);
    Inside(before, code, after, 3);
  }

  /** A 32-bit number, and a 64-bit one of which only the low half is kept. */
  lemma ReadsLong(before: seq<Octet>, h: nat, high: nat, n: nat, after: seq<Octet>)
    requires h < 4 && high < TWO_32 && n < TWO_32
    ensures DecodeMumble(before + ([0xf0 + h] + Be32(n)) + after, |before|) == Some(Decoded(n, |before| + 5))
    ensures DecodeMumble(before + ([0xf4 + h] + Be32(high) + Be32(n)) + after, |before|) == Some(Decoded(n, |before| + 9))
  {
    var short: seq<Octet>, long: seq<Octet> := [0xf0 + h] + Be32(n), [0xf4 + h] + Be32(high) + Be32(n);
    BigOfBe(n);
    var s := before + short + after;
    assert s[|before|] == 0xf0 + h && s[|before| + 1..|before| + 5] == Be32(n);
    SameBig(s, |before| + 1, Be32(n));
    var t := before + long + after;
    assert t[|before|] == 0xf4 + h && t[|before| + 5..|before| + 9] == Be32(n);
    SameBig(t, |before| + 5, Be32(n));
  }

  lemma SameBig(s: seq<Octet>, at: nat, digits: seq<Octet>)
    requires at + 4 <= |s| && |digits| == 4 && s[at..at + 4] == digits
    ensures Big32(s, at) == Big32(digits, 0)
  {
    assert s[at] == digits[0] && s[at + 1] == digits[1] && s[at + 2] == digits[2] && s[at + 3] == digits[3];
  }

  lemma BigOfBe(n: nat)
    requires n < TWO_32
    ensures Big32(Be32(n), 0) == n
  {
    ReadBe32Writes(n);
    var d := Be32(n);
    assert d[..2] == [d[0], d[1]] && d[2..] == [d[2], d[3]];
  }

  /** The complement of the number that follows, as a signed one. */
  lemma ReadsNegative(before: seq<Octet>, h: nat, n: nat, after: seq<Octet>)
    requires h < 4 && n < TWO_32
    ensures DecodeMumble(before + ([0xf8 + h] + EncodeMumble(n)) + after, |before|)
      == Some(Decoded(if n < TWO_31 then -1 - n else TWO_32 - 1 - n, |before| + 1 + |EncodeMumble(n)|))
  {
    var lead: seq<Octet>, code := [0xf8 + h], EncodeMumble(n);
    MumbleRoundTrip(n, before + lead, after);
    Rebracket(before, lead, code, after);
    Complement(before + (lead + code) + after, |before|, n, |before| + 1 + |code|);
  }

  lemma Rebracket(before: seq<Octet>, lead: seq<Octet>, code: seq<Octet>, after: seq<Octet>)
    requires |lead| == 1
    ensures before + (lead + code) + after == (before + lead) + code + after
    ensures (before + (lead + code) + after)[|before|] == lead[0]
  {
  }

  lemma Complement(data: seq<Octet>, at: nat, n: nat, end: nat)
    requires at < |data| && 0xf8 <= data[at] < 0xfc && n < TWO_32 && DecodeMumble(data, at + 1) == Some(Decoded(n, end))
    ensures DecodeMumble(data, at) == Some(Decoded(if n < TWO_31 then -1 - n else TWO_32 - 1 - n, end))
  {
  }

  /** The four small negative numbers. */
  lemma ReadsSmallNegative(before: seq<Octet>, h: nat, after: seq<Octet>)
    requires h < 4
    ensures DecodeMumble(before + [0xfc + h] + after, |before|) == Some(Decoded(-1 - h, |before| + 1))
  {
    Inside(before, [0xfc + h], after, 0);
  }

  /** The reader gives up exactly when bytes of the form are missing. */
  lemma GivesUpExactly(data: seq<Octet>, at: nat)
    ensures at >= |data| ==> DecodeMumble(data, at) == None
    ensures at < |data| && !(0xf8 <= data[at] < 0xfc) ==>
      var b := data[at];
      var length := if b < 0x80 then 1 else if b < 0xc0 then 2 else if b < 0xe0 then 3 else if b < 0xf0 then 4
                    else if b < 0xf4 then 5 else if b < 0xf8 then 9 else 1;
      DecodeMumble(data, at) == None <==> |data| - at < length
    ensures at < |data| && 0xf8 <= data[at] < 0xfc ==> (DecodeMumble(data, at) == None <==> DecodeMumble(data, at + 1) == None)
  {
  }

  /** The short reader of a remote Edge takes the one-, two-, three- and five-byte forms, and every longer one for the last. */
  lemma ShortReader(kind: Octet, h: nat, a: Octet, b: Octet, after: seq<Octet>, n: nat)
    requires n < TWO_32
    ensures h < 0x80 ==> ParseSession([kind, h] + after) == Some(h)
    ensures h < 0x40 ==> ParseSession([kind, 0x80 + h, a] + after) == Some(256 * h + a)
    ensures h < 0x20 ==> ParseSession([kind, 0xc0 + h, a, b] + after) == Some(256 * (256 * h + a) + b)
    ensures h < 0x10 ==> ParseSession([kind, 0xe0 + h] + after) == None
    ensures h < 0x10 ==> ParseSession([kind, 0xf0 + h] + Be32(n) + after) == Some(n)
  {
    if h < 0x10 {
      var s := [kind, 0xf0 + h] + Be32(n) + after;
      assert s[2..6] == Be32(n);
      SameBig(s, 2, Be32(n));
      BigOfBe(n);
    }
  }

  /** Which form is written: the shortest of four, the last with a fixed first byte. */
  lemma WritesExactly(value: int)
    ensures var n, s := value % TWO_32, EncodeMumble(value);
      if n < 0x80 then s == [n]
      else if n < 0x4000 then |s| == 2 && 0x80 <= s[0] < 0xc0 && 256 * (s[0] as int - 0x80) + s[1] as int == n
      else if n < 0x20_0000 then |s| == 3 && 0xc0 <= s[0] < 0xe0 && 256 * (256 * (s[0] as int - 0xc0) + s[1] as int) + s[2] as int == n
      else |s| == 5 && s[0] == 0xf0 && Big32(s, 1) == n
  {
    var n := value % TWO_32;
    if 0x4000 <= n < 0x20_0000 {
      ThreeDigits(n);
    } else if n >= 0x20_0000 {
      BigDigits(n);
    }
  }

  // ----- base 128 -----

  /** What groups of seven bits stand for, low first. */
  function Sum(s: seq<Octet>): nat {
    if s == [] then 0 else s[0] as int % 128 + 128 * Sum(s[1..])
  }

  /** One number, in no more groups than it needs. */
  predicate Spells(s: seq<Octet>, n: int) {
    |s| > 0 && EndsAt(s, |s| - 1) && Sum(s) == n && (|s| > 1 ==> s[|s| - 1] > 0)
  }

  lemma {:induction false} GroupsSpell(v: nat)
    ensures Spells(Groups(v), v)
    decreases v
  {
    if v >= 128 {
      GroupsSpell(v / 128);
      var rest := Groups(v / 128);
      assert Groups(v) == [v % 128 + 128] + rest && Groups(v)[1..] == rest;
    } else {
      assert Groups(v) == [v] && Groups(v)[1..] == [];
    }
  }

  /** The client spells numbers below 2^31; of others it writes the low seven bits. */
  lemma ClientWritesExactly(value: int)
    ensures if value % TWO_32 < TWO_31 then Spells(EncodeClient(value), value % TWO_32) else EncodeClient(value) == [value % 128]
  {
    var n := value % TWO_32;
    if n < TWO_31 {
      GroupsSpell(n);
    } else {
      LowBits(value, value / TWO_32 + 1);
    }
  }

  lemma LowBits(value: int, turns: int)
    ensures (value - TWO_32 * turns) % 128 == value % 128
  {
    assert TWO_32 * turns == 128 * (0x200_0000 * turns);
  }

  /** The utility spells all 32-bit numbers. */
  lemma CommonWritesExactly(value: nat)
    requires value < TWO_32
    ensures Spells(EncodeCommon(value), value)
  {
    SmallGroups(value);
    GroupsSpell(value);
  }

  /** The signed number congruent to n. */
  lemma Signed(n: int)
    ensures -TWO_31 <= ToInt32(n) < TWO_31 && (ToInt32(n) - n) % TWO_32 == 0
  {
  }

  lemma SignedOfSame(a: int, b: int)
    requires a % TWO_32 == b % TWO_32
    ensures ToInt32(a) == ToInt32(b)
  {
  }

  /** One more group, modulo 2^32. */
  lemma GroupModulo(value: nat, d: nat, rest: nat, k: nat)
    requires k < 4
    ensures Placed(d, k) + Placed(rest, k + 1) == Placed(d + 128 * rest, k)
    ensures (value + Placed(d, k) % TWO_32 + Placed(rest, k + 1)) % TWO_32 == (value + Placed(d + 128 * rest, k)) % TWO_32
  {
    var p := Placed(d, k);
    assert p == TWO_32 * (p / TWO_32) + p % TWO_32;
    assert value + p + Placed(rest, k + 1) == value + p % TWO_32 + Placed(rest, k + 1) + TWO_32 * (p / TWO_32);
    if k == 0 {
    } else if k == 1 {
    } else if k == 2 {
    } else {
    }
  }

  /** The reader's sum is congruent to that of the groups at their places. */
  predicate Congruent(r: Option<(nat, nat)>, n: nat, total: nat) {
    r.Some? && r.value.1 == n && r.value.0 % TWO_32 == total % TWO_32
  }

  lemma {:induction false} ClientSums(s: seq<Octet>, k: nat, value: nat, j: nat)
    requires k + j <= 4 && EndsAt(s, j)
    ensures Congruent(ReadGroups(s, k, value), j + 1, value + Placed(Sum(s[..j + 1]), k))
    decreases j
  {
    var d, rest := s[0] as int % 128, s[1..];
    SumOfFront(s, j);
    ReadGroupsStep(s, k, value);
    if j > 0 {
      ClientSums(rest, k + 1, value + Placed(d, k) % TWO_32, j - 1);
      GroupModulo(value, d, Sum(rest[..j]), k);
    } else {
      LastModulo(value, d, k);
    }
  }

  lemma SumOfFront(s: seq<Octet>, j: nat)
    requires j < |s|
    ensures Sum(s[..j + 1]) == s[0] as int % 128 + 128 * Sum(s[1..][..j])
  {
    assert s[..j + 1][1..] == s[1..][..j];
  }

  lemma LastModulo(value: nat, d: nat, k: nat)
    requires k <= 4
    ensures (value + Placed(d, k) % TWO_32) % TWO_32 == (value + Placed(d, k)) % TWO_32
  {
    var p := Placed(d, k);
    assert p == TWO_32 * (p / TWO_32) + p % TWO_32;
    assert value + p == value + p % TWO_32 + TWO_32 * (p / TWO_32);
  }

  /**
   * The client's reader on any bytes: if one of the first five does not continue, the groups so
   * far as a signed number, and otherwise nothing.
   */
  lemma ClientReadsExactly(s: seq<Octet>, at: nat, j: nat)
    requires at <= |s| && EndsAt(s[at..], j)
    ensures ReadClient(s, at) == if j <= 4 then Some(Decoded(ToInt32(Sum(s[at..][..j + 1])), at + j + 1)) else None
  {
    ClientReadsToEnd(s, at, j);
    if j <= 4 {
      ClientSums(s[at..], 0, 0, j);
      SignedOfSame(ReadGroups(s[at..], 0, 0).value.0, Sum(s[at..][..j + 1]));
    }
  }

  lemma {:induction false} NothingEnds(s: seq<Octet>, k: nat, value: nat)
    requires k <= 4 && AllContinue(s)
    ensures ReadGroups(s, k, value) == None
    decreases |s|
  {
    if s != [] && k < 4 {
      ReadGroupsStep(s, k, value);
      NothingEnds(s[1..], k + 1, value + Placed(s[0] as int % 128, k) % TWO_32);
    }
  }

  // ----- the utility's reader, bit by bit -----

  predicate Bit(n: nat, i: nat) {
    if i == 0 then n % 2 == 1 else Bit(n / 2, i - 1)
  }

  lemma {:induction false} OrBits(a: nat, b: nat, i: nat)
    ensures Bit(Or(a, b), i) <==> Bit(a, i) || Bit(b, i)
    decreases i
  {
    OrHalf(a, b);
    if i > 0 {
      OrBits(a / 2, b / 2, i - 1);
    }
  }

  lemma OrHalf(a: nat, b: nat)
    ensures Or(a, b) / 2 == Or(a / 2, b / 2)
    ensures Or(a, b) % 2 == 1 <==> a % 2 == 1 || b % 2 == 1
  {
    if a == 0 && b == 0 {
    } else {
    }
  }

  lemma {:induction false} ShiftedBits(n: nat, shift: nat, i: nat)
    ensures Bit(n * Pow2(shift), i) <==> i >= shift && Bit(n, i - shift)
    decreases shift
  {
    if shift > 0 {
      var half := n * Pow2(shift - 1);
      assert n * Pow2(shift) == 2 * half;
      if i > 0 {
        ShiftedBits(n, shift - 1, i - 1);
      }
    }
  }

  lemma {:induction false} CutBits(n: nat, width: nat, p: nat, i: nat)
    requires p == Pow2(width)
    ensures p > 0 && (Bit(n % p, i) <==> i < width && Bit(n, i))
    decreases width
  {
    if width == 0 {
      NoBits(i);
    } else {
      CutBits(n / 2, width - 1, Pow2(width - 1), i - if i > 0 then 1 else 0);
      HalfOfCut(n, Pow2(width - 1));
    }
  }

  lemma HalfOfCut(n: nat, p: nat)
    requires p > 0
    ensures n % (2 * p) % 2 == n % 2 && n % (2 * p) / 2 == n / 2 % p
  {
    var q, r := n / 2 / p, n / 2 % p;
    assert n / 2 == p * q + r;
    assert n == (2 * p) * q + (2 * r + n % 2);
    Remainder(n, 2 * p, q, 2 * r + n % 2);
  }

  lemma Remainder(n: nat, d: nat, q: nat, r: nat)
    requires d > 0 && n == d * q + r && r < d
    ensures n % d == r
  {
    var e := n / d - q;
    assert n == d * (n / d) + n % d;
    assert d * e == r - n % d;
    AtLeast(d, e);
  }

  lemma AtLeast(d: nat, e: int)
    ensures e >= 1 ==> d * e >= d
    ensures e <= -1 ==> d * e + d <= 0
  {
    if e >= 1 {
      assert d * (e - 1) >= 0;
    } else if e <= -1 {
      assert d * (-1 - e) >= 0;
    }
  }

  lemma {:induction false} NoBits(i: nat)
    ensures !Bit(0, i)
    decreases i
  {
    if i > 0 {
      NoBits(i - 1);
    }
  }

  /** The m-th byte brings the i-th bit: seven bits of each of the first four, four of any later, 7 * m places up modulo 32. */
  predicate Brings(byte: Octet, m: nat, i: nat) {
    var shift := 7 * m % 32;
    shift <= i < 32 && i - shift < (if m < 4 then 7 else 4) && Bit(byte as int, i - shift)
  }

  lemma NextBits(byte: Octet, k: nat, value: nat, i: nat)
    ensures Bit(CommonNext(byte, k, value), i) <==> Bit(value, i) || Brings(byte, k, i)
  {
    assert Pow2(4) == 16;
    assert Pow2(7) == 128;
    var bits := if k < 4 then byte as int % 128 else byte as int % 16;
    OrBits(value, bits * Pow2(ShiftOf(k)) % TWO_32, i);
    BroughtBits(byte as int, bits, if k < 4 then 7 else 4, ShiftOf(k), i);
  }

  /** The low bits of a number, shifted up and cut to 32. */
  lemma BroughtBits(n: nat, bits: nat, width: nat, shift: nat, i: nat)
    requires Pow2(width) > 0 && bits == n % Pow2(width)
    ensures Bit(bits * Pow2(shift) % TWO_32, i) <==> shift <= i < 32 && i - shift < width && Bit(n, i - shift)
  {
    Power32();
    CutBits(bits * Pow2(shift), 32, TWO_32, i);
    ShiftedBits(bits, shift, i);
    if i >= shift {
      CutBits(n, width, Pow2(width), i - shift);
    }
  }

  lemma Power32()
    ensures Pow2(32) == TWO_32
  {
    assert Pow2(8) == 0x100;
    assert Pow2(16) == 0x1_0000;
    assert Pow2(24) == 0x100_0000;
  }

  /** Some of the first n bytes, the k-th and later ones of a number, brings the bit. */
  predicate SomeBrings(s: seq<Octet>, n: nat, k: nat, i: nat) {
    exists m :: 0 <= m < n && m < |s| && BringsAt(s[m], k, m, i)
  }

  predicate BringsAt(byte: Octet, k: nat, m: nat, i: nat) {
    Brings(byte, k + m, i)
  }

  lemma FirstBrings(s: seq<Octet>, n: nat, k: nat, i: nat)
    requires 0 < n <= |s|
    ensures SomeBrings(s, n, k, i) <==> Brings(s[0], k, i) || SomeBrings(s[1..], n - 1, k + 1, i)
  {
    if Brings(s[0], k, i) {
      assert BringsAt(s[0], k, 0, i);
    }
    if SomeBrings(s[1..], n - 1, k + 1, i) {
      var m :| 0 <= m < n - 1 && m < |s[1..]| && BringsAt(s[1..][m], k + 1, m, i);
      assert BringsAt(s[m + 1], k, m + 1, i);
    }
    if SomeBrings(s, n, k, i) && !Brings(s[0], k, i) {
      var m :| 0 <= m < n && m < |s| && BringsAt(s[m], k, m, i);
      assert BringsAt(s[1..][m - 1], k + 1, m - 1, i);
    }
  }

  /** Where a number ends that starts with its k-th byte. */
  predicate CommonEnd(s: seq<Octet>, k: nat, n: nat) {
    n <= |s| && k + n <= 9 && (forall m :: 0 <= m < n - 1 ==> s[m] >= 128) && (k + n == 9 || (n > 0 && s[n - 1] < 128))
  }

  lemma {:induction false} CommonSums(s: seq<Octet>, k: nat, value: nat, n: nat, i: nat)
    requires k <= 9 && CommonEnd(s, k, n)
    ensures var r := ReadCommonGroups(s, k, value);
      r.Some? && r.value.1 == n && (Bit(r.value.0, i) <==> Bit(value, i) || SomeBrings(s, n, k, i))
    decreases n
  {
    if n > 0 {
      var next := CommonNext(s[0], k, value);
      NextBits(s[0], k, value, i);
      FirstBrings(s, n, k, i);
      if s[0] >= 128 {
        CommonSums(s[1..], k + 1, next, n - 1, i);
      }
    }
  }

  /**
   * The utility's reader on any bytes: it takes them up to the first that does not continue, at
   * most nine, and the bits of its unsigned value are those that some byte brings.
   */
  lemma CommonReadsExactly(s: seq<Octet>, at: nat, n: nat, i: nat)
    requires at <= |s| && CommonEnd(s[at..], 0, n)
    ensures var r := ReadCommonGroups(s[at..], 0, 0);
      r.Some? && ReadCommon(s, at) == Some((ToInt32(r.value.0), n)) && (Bit(r.value.0, i) <==> SomeBrings(s[at..], n, 0, i))
  {
    CommonSums(s[at..], 0, 0, n, i);
    NoBits(i);
  }
}
