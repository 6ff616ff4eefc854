/**
 * The IV of packages/common/src/crypto/ocb2-aes128.ts: 16 octets that count packets,
 * least significant octet first. `Le(n, 16)` is the IV after n packets, for any integer n.
 */
module Counter {
  import opened Blocks

  /** The k low-order octets of n, least significant first. */
  function Le(n: int, k: nat): (s: seq<Octet>)
    ensures |s| == k
    decreases k, n
  {
    if k == 0 then [] else [n % 256] + Le(n / 256, k - 1)
  }

  function Pow256(k: nat): (p: nat)
    ensures p > 0
  {
    if k == 0 then 1 else 256 * Pow256(k - 1)
  }

  /** Two counters give the same octets exactly when they agree modulo 256^k. */
  lemma {:induction false} LeSame(a: int, b: int, k: nat)
    ensures Le(a, k) == Le(b, k) <==> a % Pow256(k) == b % Pow256(k)
    decreases k
  {
    if k == 0 {
    } else {
      LeSame(a / 256, b / 256, k - 1);
      ModStep(a, Pow256(k - 1));
      ModStep(b, Pow256(k - 1));
      assert Le(a, k)[1..] == Le(a / 256, k - 1) && Le(b, k)[1..] == Le(b / 256, k - 1);
    }
  }

  lemma ModStep(a: int, p: nat)
    requires p > 0
    ensures a % (256 * p) == 256 * ((a / 256) % p) + a % 256
  {
    var q, r := (a / 256) / p, (a / 256) % p;
    assert a / 256 == q * p + r;
    assert a == q * (256 * p) + (256 * r + a % 256) by {
      assert a == 256 * (a / 256) + a % 256;
      assert 256 * (q * p) == q * (256 * p);
    }
    ModUnique(a, 256 * p, q, 256 * r + a % 256);
  }

  lemma ModUnique(a: int, m: nat, q: int, r: int)
    requires m > 0 && 0 <= r < m && a == q * m + r
    ensures a % m == r
  {
    var p := a / m;
    assert a == p * m + a % m;
    MulMonotone(p + 1, q, m);
    MulMonotone(q + 1, p, m);
  }

  lemma MulMonotone(x: int, y: int, m: nat)
    ensures x <= y ==> x * m <= y * m
    ensures (x - 1) * m + m == x * m
  {
  }

  /** Every octet string is the encoding of some counter. */
  function Value(s: seq<Octet>): (n: nat)
    ensures Le(n, |s|) == s
  {
    if s == [] then 0 else s[0] + 256 * Value(s[1..])
  }

  // ----- the carry and borrow loops -----

  function Inc(s: seq<Octet>): (r: seq<Octet>)
    ensures |r| == |s|
  {
    if s == [] then [] else if s[0] == 255 then [0] + Inc(s[1..]) else [s[0] + 1] + s[1..]
  }

  function Dec(s: seq<Octet>): (r: seq<Octet>)
    ensures |r| == |s|
  {
    if s == [] then [] else if s[0] == 0 then [255] + Dec(s[1..]) else [s[0] - 1] + s[1..]
  }

  lemma {:induction false} IncCounts(n: int, k: nat)
    ensures Inc(Le(n, k)) == Le(n + 1, k)
    decreases k
  {
    if k == 0 {
    } else {
      assert Le(n, k)[1..] == Le(n / 256, k - 1);
      if n % 256 == 255 {
        assert (n + 1) / 256 == n / 256 + 1 && (n + 1) % 256 == 0;
        IncCounts(n / 256, k - 1);
      } else {
        assert (n + 1) / 256 == n / 256 && (n + 1) % 256 == n % 256 + 1;
      }
    }
  }

  lemma {:induction false} DecCounts(n: int, k: nat)
    ensures Dec(Le(n, k)) == Le(n - 1, k)
    decreases k
  {
    if k == 0 {
    } else {
      assert Le(n, k)[1..] == Le(n / 256, k - 1);
      if n % 256 == 0 {
        assert (n - 1) / 256 == n / 256 - 1 && (n - 1) % 256 == 255;
        DecCounts(n / 256, k - 1);
      } else {
        assert (n - 1) / 256 == n / 256 && (n - 1) % 256 == n % 256 - 1;
      }
    }
  }

  lemma IncStep(low: seq<Octet>, s: seq<Octet>)
    requires s != []
    ensures low + Inc(s) == if s[0] == 255 then low + [0] + Inc(s[1..]) else low + [s[0] + 1] + s[1..]
  {
    assert low + ([0] + Inc(s[1..])) == low + [0] + Inc(s[1..]);
    assert s[0] < 255 ==> low + ([s[0] + 1] + s[1..]) == low + [s[0] + 1] + s[1..];
  }

  lemma DecStep(low: seq<Octet>, s: seq<Octet>)
    requires s != []
    ensures low + Dec(s) == if s[0] == 0 then low + [255] + Dec(s[1..]) else low + [s[0] - 1] + s[1..]
  {
    assert low + ([255] + Dec(s[1..])) == low + [255] + Dec(s[1..]);
    assert s[0] > 0 ==> low + ([s[0] - 1] + s[1..]) == low + [s[0] - 1] + s[1..];
  }

  method SetOctet(iv: array<Octet>, i: nat, b: Octet)
    requires i < iv.Length
    modifies iv
    ensures iv[..i + 1] == old(iv[..i]) + [b] && iv[i + 1..] == old(iv[i..])[1..]
  {
    iv[i] := b;
  }

  /** Adds one to the octets from `start` on; one that reaches 256 becomes 0 and carries. */
  method IncrementFrom(iv: array<Octet>, start: nat)
    requires start <= iv.Length
    modifies iv
    ensures iv[..] == old(iv[..start]) + Inc(old(iv[start..]))
  {
    var i := start;
    ghost var result := iv[..start] + Inc(iv[start..]);
    while i < iv.Length
      invariant start <= i <= iv.Length
      invariant result == iv[..i] + Inc(iv[i..])
    {
      ghost var low, rest := iv[..i], iv[i..];
      IncStep(low, rest);
      var unwrapped := iv[i] as int + 1;
      SetOctet(iv, i, if unwrapped == 256 then 0 else unwrapped);
      i := i + 1;
      if unwrapped != 256 {
        assert iv[..] == iv[..i] + iv[i..];
        return;
      }
    }
    assert iv[..] == iv[..i] && iv[i..] == [];
  }

  /** Takes one from the octets from `start` on; one that falls below 0 becomes 255 and borrows. */
  method DecrementFrom(iv: array<Octet>, start: nat)
    requires start <= iv.Length
    modifies iv
    ensures iv[..] == old(iv[..start]) + Dec(old(iv[start..]))
  {
    var i := start;
    ghost var result := iv[..start] + Dec(iv[start..]);
    while i < iv.Length
      invariant start <= i <= iv.Length
      invariant result == iv[..i] + Dec(iv[i..])
    {
      ghost var low, rest := iv[..i], iv[i..];
      DecStep(low, rest);
      var unwrapped := iv[i] as int - 1;
      SetOctet(iv, i, if unwrapped == -1 then 255 else unwrapped);
      i := i + 1;
      if unwrapped != -1 {
        assert iv[..] == iv[..i] + iv[i..];
        return;
      }
    }
    assert iv[..] == iv[..i] && iv[i..] == [];
  }
}
