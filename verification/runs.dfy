/** Whole runs of packets through one receiver: no replay, and in-order delivery. */
module Runs {
  import opened Wrappers
  import opened Blocks
  import opened Counter
  import opened Ocb
  import opened Packets

  // ----- no nonce is accepted twice -----

  /** The receiver after any packets, accepted or not. */
  function After(c: Cipher, r: Receiver, packets: seq<seq<bv8>>): Receiver {
    if packets == [] then r else DecryptStep(c, After(c, r, packets[..|packets| - 1]), packets[|packets| - 1]).0
  }

  /** The nonce under which a packet is accepted, if it is. */
  function AcceptedNonce(c: Cipher, r: Receiver, packet: seq<bv8>): Option<Iv> {
    if DecryptStep(c, r, packet).1.None? then None else
      ByteOfNumber(packet[0]);
      Some(GuessIv(r.iv, ToNumber(packet[0])).iv)
  }

  /**
   * A receiver started at counter n0, followed by integers: its counter is n, and
   * `seen` are the counters accepted so far. The history slots of those still within
   * a turn of the low octet are intact.
   */
  ghost predicate Tracks(r: Receiver, n0: int, n: int, seen: set<int>) {
    && r.iv == Le(n, 16)
    && n0 <= n
    && (forall a <- seen :: n0 - 29 <= a <= n)
    && (forall a <- seen :: n - 256 < a ==> r.history[a % 256] == a / 256 % 256)
  }

  /** How integers follow one step: a fresh counter is added exactly when the packet is accepted. */
  ghost predicate StepTracked(c: Cipher, r: Receiver, packet: seq<bv8>, n: int, seen: set<int>, n': int, seen': set<int>) {
    match AcceptedNonce(c, r, packet)
    case None => n' == n && seen' == seen && DecryptStep(c, r, packet).0 == r
    case Some(iv) =>
      exists a :: Recorded(DecryptStep(c, r, packet).0, r, a)
        && a !in seen && seen' == seen + {a} && iv == Le(a, 16) && n <= n' <= n + 128 && (n' == n || n' == a)
  }

  ghost predicate Recorded(after: Receiver, before: Receiver, a: int) {
    after.history == before.history[a % 256 := a / 256 % 256]
  }

  lemma SameSlot(n: int, a: int, b: int)
    requires n - 256 < a <= n && n - 256 < b <= n && a % 256 == b % 256
    ensures a == b
  {
  }

  /** Accepting counter a, at distance d from n, keeps the slots of the others intact. */
  lemma RecordKeeps(r: Receiver, n0: int, n: int, seen: set<int>, d: int)
    requires Tracks(r, n0, n, seen) && InWindow(n, d)
    requires d != 1 ==> r.history[(n + d) % 256] != (n + d) / 256 % 256
    ensures n + d !in seen
    ensures var n' := if d < 0 then n else n + d;
      Tracks(r.(iv := Le(n', 16), history := r.history[(n + d) % 256 := (n + d) / 256 % 256]), n0, n', seen + {n + d})
  {
    var a, n' := n + d, if d < 0 then n else n + d;
    var h := r.history[a % 256 := a / 256 % 256];
    forall b | b in seen + {a} && n' - 256 < b
      ensures h[b % 256] == b / 256 % 256
    {
      if b != a && b % 256 == a % 256 {
        SameSlot(n', a, b);
      }
    }
  }

  /** What an accepted packet does: it stands for the counter at some distance in the window. */
  lemma AcceptedAt(c: Cipher, r: Receiver, packet: seq<bv8>, n: int) returns (d: int)
    requires r.iv == Le(n, 16) && DecryptStep(c, r, packet).1.Some?
    ensures InWindow(n, d) && AcceptedNonce(c, r, packet) == Some(Le(n + d, 16))
    ensures d != 1 ==> r.history[(n + d) % 256] != (n + d) / 256 % 256
    ensures var r' := DecryptStep(c, r, packet).0;
      r'.iv == Le(if d < 0 then n else n + d, 16) && r'.history == r.history[(n + d) % 256 := (n + d) / 256 % 256]
  {
    ByteOfNumber(packet[0]);
    var ivbyte: Octet := ToNumber(packet[0]);
    DistanceDecides(n, ivbyte);
    DistanceInWindow(n, ivbyte);
    d := Distance(n, ivbyte).value;
    Rebuilds(n, d);
    TwoLowOctets(n + d);
  }

  lemma StepKeepsTrack(c: Cipher, r: Receiver, packet: seq<bv8>, n0: int, n: int, seen: set<int>)
    returns (n': int, seen': set<int>)
    requires Tracks(r, n0, n, seen)
    ensures Tracks(DecryptStep(c, r, packet).0, n0, n', seen')
    ensures StepTracked(c, r, packet, n, seen, n', seen')
  {
    n', seen' := n, seen;
    if DecryptStep(c, r, packet).1.Some? {
      var d := AcceptedAt(c, r, packet, n);
      RecordKeeps(r, n0, n, seen, d);
      n', seen' := if d < 0 then n else n + d, seen + {n + d};
      assert Recorded(DecryptStep(c, r, packet).0, r, n + d);
    }
  }

  /** The nonces accepted over a run, in order. */
  function Nonces(c: Cipher, r: Receiver, packets: seq<seq<bv8>>): seq<Iv> {
    if packets == [] then [] else
      var front := packets[..|packets| - 1];
      var before := Nonces(c, r, front);
      match AcceptedNonce(c, After(c, r, front), packets[|packets| - 1])
      case None => before
      case Some(iv) => before + [iv]
  }

  /** The counter accepted last among those that share a history slot. */
  function LastIn(counters: seq<int>, slot: int): Option<int> {
    if counters == [] then None else
      var a := counters[|counters| - 1];
      if a % 256 == slot then Some(a) else LastIn(counters[..|counters| - 1], slot)
  }

  /** Every history slot holds the mark of the counter accepted last in it, or what it held at the start. */
  ghost predicate HistoryIs(now: History, start: History, counters: seq<int>) {
    forall slot :: 0 <= slot < 256 ==>
      now[slot] == match LastIn(counters, slot) { case None => start[slot] case Some(a) => a / 256 % 256 }
  }

  lemma RecordedIs(now: History, start: History, counters: seq<int>, a: int)
    requires HistoryIs(now, start, counters)
    ensures HistoryIs(now[a % 256 := a / 256 % 256], start, counters + [a])
  {
    assert (counters + [a])[..|counters|] == counters;
  }

  /** The integers behind the nonces of a run: pairwise different, within reach of the start. */
  lemma {:induction false} RunTracked(c: Cipher, r: Receiver, n0: int, packets: seq<seq<bv8>>)
    returns (n: int, seen: set<int>, counters: seq<int>)
    requires r.iv == Le(n0, 16)
    ensures Tracks(After(c, r, packets), n0, n, seen) && n <= n0 + 128 * |packets|
    ensures |counters| == |Nonces(c, r, packets)|
    ensures forall i :: 0 <= i < |counters| ==> counters[i] in seen && Nonces(c, r, packets)[i] == Le(counters[i], 16)
    ensures forall i, j :: 0 <= i < j < |counters| ==> counters[i] != counters[j]
    ensures HistoryIs(After(c, r, packets).history, r.history, counters)
  {
    if packets == [] {
      n, seen, counters := n0, {}, [];
    } else {
      var front, last := packets[..|packets| - 1], packets[|packets| - 1];
      n, seen, counters := RunTracked(c, r, n0, front);
      var r', n', seen' := After(c, r, front), n, seen;
      n', seen' := StepKeepsTrack(c, r', last, n0, n, seen);
      match AcceptedNonce(c, r', last)
      case None =>
      case Some(iv) =>
        var a :| Recorded(DecryptStep(c, r', last).0, r', a)
          && a !in seen && seen' == seen + {a} && iv == Le(a, 16) && n <= n' <= n + 128 && (n' == n || n' == a);
        RecordedIs(r'.history, r.history, counters, a);
        counters := counters + [a];
      n, seen := n', seen';
    }
  }

  /**
   * No replay: over any run of arbitrary packets, a nonce can be accepted again only after the
   * 128-bit counter has turned around, which takes at least 2^128 / 128 packets. Nothing is
   * assumed about tags.
   */
  lemma NoNonceTwice(c: Cipher, r: Receiver, packets: seq<seq<bv8>>, i: nat, j: nat)
    requires i < j < |Nonces(c, r, packets)|
    ensures Nonces(c, r, packets)[i] == Nonces(c, r, packets)[j] ==> 128 * |packets| + 29 >= Pow256(16)
  {
    var n0 := Value(r.iv);
    var n, seen, counters := RunTracked(c, r, n0, packets);
    var a, b := counters[i], counters[j];
    LeSame(a, b, 16);
    if 128 * |packets| + 29 < Pow256(16) {
      CloseCountersDiffer(a, b, Pow256(16));
    }
  }

  lemma CloseCountersDiffer(a: int, b: int, m: nat)
    requires a != b && -(m as int) < a - b < m
    ensures a % m != b % m
  {
    if a % m == b % m {
      var p, q := a / m, b / m;
      assert a == p * m + a % m && b == q * m + b % m;
      MulMonotone(p + 1, q, m);
      MulMonotone(q + 1, p, m);
    }
  }

  // ----- which packets a run makes the receiver refuse -----

  /** The slot of a counter looks as if the counter had been accepted. */
  ghost predicate SlotTaken(start: History, counters: seq<int>, m: int) {
    match LastIn(counters, m % 256)
    case None => start[m % 256] == m / 256 % 256
    case Some(a) => a % 65536 == m % 65536
  }

  lemma {:induction false} LastInSlot(counters: seq<int>, slot: int)
    ensures LastIn(counters, slot).Some? ==> LastIn(counters, slot).value % 256 == slot && LastIn(counters, slot).value in counters
  {
    if counters != [] && counters[|counters| - 1] % 256 != slot {
      LastInSlot(counters[..|counters| - 1], slot);
    }
  }

  /** What the receiver makes of the packet made under counter m. */
  function Received(c: Cipher, r: Receiver, m: int, plain: seq<bv8>): Option<seq<bv8>> {
    DecryptStep(c, r, Packet(c, Le(m, 16), plain)).1
  }

  lemma RefusedOnCollision(c: Cipher, r: Receiver, n: int, d: int, plain: seq<bv8>)
    requires Inverts(c) && r.iv == Le(n, 16) && InWindow(n, d)
    ensures Received(c, r, n + d, plain)
      == if d != 1 && r.history[(n + d) % 256] == (n + d) / 256 % 256 then None else Some(plain)
  {
    DecryptsWithinWindow(c, r, n, d, plain);
  }

  lemma TwoOctets(a: int, m: int)
    requires a % 256 == m % 256
    ensures a / 256 % 256 == m / 256 % 256 <==> a % 65536 == m % 65536
  {
    assert a % 65536 == 256 * (a / 256 % 256) + a % 256;
    assert m % 65536 == 256 * (m / 256 % 256) + m % 256;
  }

  lemma MarkBySlot(start: History, now: History, counters: seq<int>, m: int)
    requires HistoryIs(now, start, counters)
    ensures now[m % 256] == m / 256 % 256 <==> SlotTaken(start, counters, m)
  {
    LastInSlot(counters, m % 256);
    if LastIn(counters, m % 256).Some? {
      TwoOctets(LastIn(counters, m % 256).value, m);
    }
  }

  /** A packet at distance d is refused exactly when it is not the next one and its slot is taken, else accepted. */
  ghost predicate AsSlotSays(c: Cipher, start: History, r: Receiver, n: int, counters: seq<int>, d: int, plain: seq<bv8>) {
    Received(c, r, n + d, plain) == if d != 1 && SlotTaken(start, counters, n + d) then None else Some(plain)
  }

  lemma DecidedBySlot(c: Cipher, start: History, r: Receiver, n: int, counters: seq<int>, d: int, plain: seq<bv8>)
    requires Inverts(c) && r.iv == Le(n, 16) && HistoryIs(r.history, start, counters) && InWindow(n, d)
    ensures AsSlotSays(c, start, r, n, counters, d, plain)
  {
    RefusedOnCollision(c, r, n, d, plain);
    MarkBySlot(start, r.history, counters, n + d);
  }

  /**
   * After any run of arbitrary packets, a genuine packet in the window is refused exactly when it
   * is not the next one and the counter accepted last in its slot agrees with it modulo 65536, or
   * the slot is untouched and held its mark from the start; else it is accepted. So a packet that
   * never came can be refused.
   */
  lemma RefusedInRunExactly(c: Cipher, r: Receiver, n0: int, packets: seq<seq<bv8>>) returns (n: int, counters: seq<int>)
    requires Inverts(c) && r.iv == Le(n0, 16)
    ensures After(c, r, packets).iv == Le(n, 16) && |counters| == |Nonces(c, r, packets)|
    ensures forall i :: 0 <= i < |counters| ==> Nonces(c, r, packets)[i] == Le(counters[i], 16)
    ensures forall i, j :: 0 <= i < j < |counters| ==> counters[i] != counters[j]
    ensures forall d, plain :: InWindow(n, d) ==> AsSlotSays(c, r.history, After(c, r, packets), n, counters, d, plain)
  {
    var seen;
    n, seen, counters := RunTracked(c, r, n0, packets);
    forall d, plain | InWindow(n, d)
      ensures AsSlotSays(c, r.history, After(c, r, packets), n, counters, d, plain)
    {
      DecidedBySlot(c, r.history, After(c, r, packets), n, counters, d, plain);
    }
  }

  // ----- in-order delivery -----

  datatype Event = Send(plain: seq<bv8>) | Inject(packet: seq<bv8>)

  datatype Link = Link(sender: Iv, receiver: Receiver, delivered: seq<Option<seq<bv8>>>)

  /** A packet is encrypted under the next counter and handed over, or a foreign packet arrives. */
  function LinkStep(c: Cipher, l: Link, e: Event): Link {
    match e
    case Send(plain) =>
      var iv: Iv := Inc(l.sender);
      var (r, data) := DecryptStep(c, l.receiver, Packet(c, iv, plain));
      Link(iv, r, l.delivered + [data])
    case Inject(packet) => l.(receiver := DecryptStep(c, l.receiver, packet).0)
  }

  function LinkRun(c: Cipher, l: Link, events: seq<Event>): Link {
    if events == [] then l else LinkStep(c, LinkRun(c, l, events[..|events| - 1]), events[|events| - 1])
  }

  /** Every injected packet is one that the receiver rejects when it arrives. */
  ghost predicate AllRejected(c: Cipher, l: Link, events: seq<Event>) {
    forall i :: 0 <= i < |events| && events[i].Inject? ==>
      DecryptStep(c, LinkRun(c, l, events[..i]).receiver, events[i].packet).1.None?
  }

  function Sent(events: seq<Event>): seq<Option<seq<bv8>>> {
    if events == [] then [] else
      var before := Sent(events[..|events| - 1]);
      match events[|events| - 1]
      case Send(plain) => before + [Some(plain)]
      case Inject(_) => before
  }

  /** A refused packet leaves IV, history and statistics as they were. */
  lemma RefusedChangesNothing(c: Cipher, r: Receiver, packet: seq<bv8>)
    requires DecryptStep(c, r, packet).1.None?
    ensures DecryptStep(c, r, packet).0 == r
  {
  }

  lemma SendDelivers(c: Cipher, l: Link, n: int, plain: seq<bv8>)
    requires Inverts(c) && l.sender == l.receiver.iv == Le(n, 16)
    ensures var m, s := LinkStep(c, l, Send(plain)), l.receiver.stats;
      && m.sender == m.receiver.iv == Le(n + 1, 16)
      && m.delivered == l.delivered + [Some(plain)]
      && m.receiver.stats == s.(good := s.good + 1, lost := 0)
  {
    IncCounts(n, 16);
    DecryptsWithinWindow(c, l.receiver, n, 1, plain);
  }

  /** The link after n packets sent: counters equal, all delivered, statistics advanced. */
  ghost predicate InStep(start: Link, n: int, sent: seq<Option<seq<bv8>>>, m: Link) {
    var s := start.receiver.stats;
    && m.sender == m.receiver.iv == Le(n + |sent|, 16)
    && m.delivered == start.delivered + sent
    && m.receiver.stats == s.(good := s.good + |sent|, lost := if sent == [] then s.lost else 0)
  }

  lemma InjectKeeps(c: Cipher, l: Link, packet: seq<bv8>)
    requires DecryptStep(c, l.receiver, packet).1.None?
    ensures LinkStep(c, l, Inject(packet)) == l
  {
    RefusedChangesNothing(c, l.receiver, packet);
  }

  lemma InStepSend(c: Cipher, start: Link, n: int, sent: seq<Option<seq<bv8>>>, m: Link, plain: seq<bv8>)
    requires Inverts(c) && InStep(start, n, sent, m)
    ensures InStep(start, n, sent + [Some(plain)], LinkStep(c, m, Send(plain)))
  {
    SendDelivers(c, m, n + |sent|, plain);
  }

  lemma RejectedBefore(c: Cipher, l: Link, events: seq<Event>)
    requires events != [] && AllRejected(c, l, events)
    ensures AllRejected(c, l, events[..|events| - 1])
    ensures var last := events[|events| - 1];
      last.Inject? ==> DecryptStep(c, LinkRun(c, l, events[..|events| - 1]).receiver, last.packet).1.None?
  {
    var front := events[..|events| - 1];
    forall i | 0 <= i < |front| && front[i].Inject?
      ensures DecryptStep(c, LinkRun(c, l, front[..i]).receiver, front[i].packet).1.None?
    {
      assert front[..i] == events[..i];
    }
  }

  /**
   * Packets from a shared IV, delivered in order with any refused packets between
   * them, all decrypt to the originals, and the two counters stay equal.
   */
  lemma {:induction false} InOrderDelivers(c: Cipher, l: Link, n: int, events: seq<Event>)
    requires Inverts(c) && l.sender == l.receiver.iv == Le(n, 16) && AllRejected(c, l, events)
    ensures InStep(l, n, Sent(events), LinkRun(c, l, events))
  {
    if events == [] {
      assert l.delivered + [] == l.delivered;
    } else {
      var k := |events| - 1;
      var front := events[..k];
      RejectedBefore(c, l, events);
      InOrderDelivers(c, l, n, front);
      var m := LinkRun(c, l, front);
      match events[k]
      case Send(plain) =>
        InStepSend(c, l, n, Sent(front), m, plain);
      case Inject(packet) =>
        InjectKeeps(c, m, packet);
    }
  }
}
