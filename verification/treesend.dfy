/**
 * `sendChannelTree` of packages/edge-server/src/handlers/message-handlers.ts: the
 * channel tree goes to a client in two passes, and the client applies each message at once.
 */
module TreeSend {
  import opened Wrappers
  import opened Forest

  datatype ChannelInfo = ChannelInfo(id: int, parent: Option<int>)

  /** A ChannelState message, as far as the tree goes. */
  datatype ChannelState = ChannelState(id: int, parent: Option<int>)

  /** The root has no parent; a missing or self-pointing parent becomes the root. */
  function ParentForProtocol(c: ChannelInfo): Option<int> {
    if c.id == 0 then None else if c.parent.None? || c.parent == Some(c.id) then Some(0) else c.parent
  }

  function FirstPass(channels: seq<ChannelInfo>): seq<ChannelState> {
    if channels == [] then [] else
      var c := channels[|channels| - 1];
      FirstPass(channels[..|channels| - 1]) + [ChannelState(c.id, if c.id == 0 then None else Some(0))]
  }

  function SecondPass(channels: seq<ChannelInfo>): seq<ChannelState> {
    if channels == [] then [] else
      var c := channels[|channels| - 1];
      var before := SecondPass(channels[..|channels| - 1]);
      if c.id == 0 then before else before + [ChannelState(c.id, ParentForProtocol(c))]
  }

  method SendChannelTree(channels: seq<ChannelInfo>) returns (sent: seq<ChannelState>)
    ensures sent == FirstPass(channels) + SecondPass(channels)
  {
    sent := [];
    if |channels| == 0 {
      return;
    }
    for i := 0 to |channels|
      invariant sent == FirstPass(channels[..i])
    {
      var c := channels[i];
      assert channels[..i + 1][..i] == channels[..i];
      sent := sent + [ChannelState(c.id, if c.id == 0 then None else Some(0))];
    }
    assert channels[..|channels|] == channels;
    ghost var first := sent;
    for i := 0 to |channels|
      invariant sent == first + SecondPass(channels[..i])
    {
      var c := channels[i];
      assert channels[..i + 1][..i] == channels[..i];
      if c.id == 0 {
        continue;
      }
      sent := sent + [ChannelState(c.id, ParentForProtocol(c))];
    }
  }

  // ----- the receiving client -----

  /** The client's parent links after a message. */
  function Receive(view: map<int, int>, m: ChannelState): map<int, int> {
    match m.parent
    case Some(q) => view[m.id := q]
    case None => if m.id in view then view else view[m.id := 0]
  }

  function After(view: map<int, int>, ms: seq<ChannelState>): map<int, int> {
    if ms == [] then view else Receive(After(view, ms[..|ms| - 1]), ms[|ms| - 1])
  }

  /** The client can apply the message: the parent exists and is neither the channel nor below it. */
  ghost predicate Applicable(view: map<int, int>, m: ChannelState) {
    match m.parent
    case None => true
    case Some(q) => q in view && !Below(view, q, m.id)
  }

  ghost predicate AllApplicable(view: map<int, int>, ms: seq<ChannelState>) {
    forall i :: 0 <= i < |ms| ==> Applicable(After(view, ms[..i]), ms[i])
  }

  lemma {:induction false} AfterConcat(view: map<int, int>, ms: seq<ChannelState>, ns: seq<ChannelState>)
    ensures After(view, ms + ns) == After(After(view, ms), ns)
  {
    if ns == [] {
      assert ms + ns == ms;
    } else {
      var k := |ns| - 1;
      AfterConcat(view, ms, ns[..k]);
      assert (ms + ns)[..|ms| + k] == ms + ns[..k] && (ms + ns)[|ms| + k] == ns[k];
    }
  }

  lemma ApplicableConcat(view: map<int, int>, ms: seq<ChannelState>, ns: seq<ChannelState>)
    ensures AllApplicable(view, ms + ns) <==> AllApplicable(view, ms) && AllApplicable(After(view, ms), ns)
  {
    var all := ms + ns;
    forall i | 0 <= i < |ms|
      ensures all[..i] == ms[..i] && all[i] == ms[i]
    {
    }
    forall j | 0 <= j < |ns|
      ensures all[..|ms| + j] == ms + ns[..j] && all[|ms| + j] == ns[j]
      ensures After(view, all[..|ms| + j]) == After(After(view, ms), ns[..j])
    {
      AfterConcat(view, ms, ns[..j]);
    }
    if AllApplicable(view, all) {
      forall i | 0 <= i < |ms|
        ensures Applicable(After(view, ms[..i]), ms[i])
      {
        assert Applicable(After(view, all[..i]), all[i]);
      }
      forall j | 0 <= j < |ns|
        ensures Applicable(After(After(view, ms), ns[..j]), ns[j])
      {
        assert Applicable(After(view, all[..|ms| + j]), all[|ms| + j]);
      }
    }
    if AllApplicable(view, ms) && AllApplicable(After(view, ms), ns) {
      forall i | 0 <= i < |all|
        ensures Applicable(After(view, all[..i]), all[i])
      {
        if i >= |ms| {
          assert Applicable(After(After(view, ms), ns[..i - |ms|]), ns[i - |ms|]);
        }
      }
    }
  }

  lemma ApplicableSnoc(view: map<int, int>, ms: seq<ChannelState>, m: ChannelState)
    ensures AllApplicable(view, ms + [m]) <==> AllApplicable(view, ms) && Applicable(After(view, ms), m)
  {
    ApplicableConcat(view, ms, [m]);
    assert [m][..0] == [];
  }

  // ----- the server's tree -----

  function Ids(channels: seq<ChannelInfo>): set<int> {
    set c <- channels :: c.id
  }

  ghost predicate Distinct(channels: seq<ChannelInfo>) {
    forall i, j :: 0 <= i < j < |channels| ==> channels[i].id != channels[j].id
  }

  /** The client's links with those of the listed channels replaced by the server's. */
  function Overlay(view: map<int, int>, channels: seq<ChannelInfo>): map<int, int> {
    if channels == [] then view else
      var c := channels[|channels| - 1];
      var before := Overlay(view, channels[..|channels| - 1]);
      if c.id == 0 then before else before[c.id := ParentForProtocol(c).value]
  }

  /** The view after the first pass: every listed channel hangs under the root. */
  ghost predicate Flattened(view: map<int, int>, channels: seq<ChannelInfo>, flat: map<int, int>) {
    && flat.Keys == view.Keys + Ids(channels)
    && forall x <- flat :: if x in Ids(channels) && x != 0 then flat[x] == 0 else x in view && flat[x] == view[x]
  }

  lemma RootStays(view: map<int, int>, x: int)
    requires x != 0
    ensures !Below(view, 0, x)
  {
    forall k: nat
      ensures Up(view, 0, k) == 0
    {
      Stays(view, 0, k);
    }
  }

  lemma IdsSnoc(channels: seq<ChannelInfo>)
    requires channels != []
    ensures Ids(channels) == Ids(channels[..|channels| - 1]) + {channels[|channels| - 1].id}
  {
    var front, c := channels[..|channels| - 1], channels[|channels| - 1];
    assert channels == front + [c];
  }

  lemma UnderRoot(view: map<int, int>, c: int)
    requires Tree(view) && c > 0
    ensures Tree(view[c := 0]) && !Below(view, 0, c)
  {
    RootStays(view, c);
    if c in view {
      MoveKeepsTree(view, c, 0);
    } else {
      AddKeepsTree(view, c, 0);
    }
  }

  lemma {:induction false} FirstPassSafe(view: map<int, int>, channels: seq<ChannelInfo>)
    requires Tree(view) && forall c <- channels :: c.id >= 0
    ensures AllApplicable(view, FirstPass(channels))
    ensures var flat := After(view, FirstPass(channels)); Tree(flat) && Flattened(view, channels, flat)
  {
    if channels != [] {
      var front, c := channels[..|channels| - 1], channels[|channels| - 1];
      FirstPassSafe(view, front);
      var flat := After(view, FirstPass(front));
      var m := ChannelState(c.id, if c.id == 0 then None else Some(0));
      ApplicableSnoc(view, FirstPass(front), m);
      AfterConcat(view, FirstPass(front), [m]);
      assert After(view, FirstPass(channels)) == Receive(flat, m);
      if c.id != 0 {
        UnderRoot(flat, c.id);
      }
      FlattenedSnoc(view, channels, flat);
    }
  }

  lemma FlattenedSnoc(view: map<int, int>, channels: seq<ChannelInfo>, flat: map<int, int>)
    requires channels != [] && 0 in view && Flattened(view, channels[..|channels| - 1], flat)
    ensures var c := channels[|channels| - 1];
      Flattened(view, channels, Receive(flat, ChannelState(c.id, if c.id == 0 then None else Some(0))))
  {
    IdsSnoc(channels);
  }

  /** A view on the way: each link is already the final one, or still points to the root. */
  ghost predicate OnTheWay(view: map<int, int>, final: map<int, int>) {
    view.Keys == final.Keys && forall x <- view :: x != 0 ==> view[x] == final[x] || view[x] == 0
  }

  lemma {:induction false} ClimbOnTheWay(view: map<int, int>, final: map<int, int>, x: int, c: int, k: nat)
    requires OnTheWay(view, final) && c != 0 && Up(view, x, k) == c
    ensures Below(final, x, c)
    decreases k
  {
    BelowSelf(final, x);
    if x != c {
      if view[x] == final[x] {
        ClimbOnTheWay(view, final, view[x], c, k - 1);
        BelowStep(final, x, c);
      }
    }
  }

  /** On the way to a tree, hanging c where it belongs never closes a cycle. */
  lemma LastMileSafe(view: map<int, int>, final: map<int, int>, c: int)
    requires OnTheWay(view, final) && Tree(final) && c in final && c != 0
    ensures !Below(view, final[c], c)
  {
    if Below(view, final[c], c) {
      var k: nat :| Up(view, final[c], k) == c;
      ClimbOnTheWay(view, final, final[c], c, k);
      NoCycle(final, c);
    }
  }

  /** The views of the second pass, as long as the messages apply. */
  lemma {:induction false} SecondPassViews(flat: map<int, int>, channels: seq<ChannelInfo>)
    ensures After(flat, SecondPass(channels)) == Overlay(flat, channels)
  {
    if channels != [] {
      var front, c := channels[..|channels| - 1], channels[|channels| - 1];
      SecondPassViews(flat, front);
      if c.id != 0 {
        AfterConcat(flat, SecondPass(front), [ChannelState(c.id, ParentForProtocol(c))]);
      }
    }
  }

  lemma {:induction false} OverlayAt(view: map<int, int>, channels: seq<ChannelInfo>, x: int)
    requires Distinct(channels)
    ensures Overlay(view, channels).Keys == view.Keys + (Ids(channels) - {0})
    ensures x != 0 && x in Ids(channels) ==> exists c <- channels :: c.id == x && Overlay(view, channels)[x] == ParentForProtocol(c).value
    ensures x in view && (x == 0 || x !in Ids(channels)) ==> Overlay(view, channels)[x] == view[x]
  {
    if channels != [] {
      OverlayAt(view, channels[..|channels| - 1], x);
      IdsSnoc(channels);
    }
  }

  /** The views of the second pass are on the way to the final one. */
  lemma OverlayOnTheWay(flat: map<int, int>, channels: seq<ChannelInfo>, i: nat)
    requires Distinct(channels) && i <= |channels| && 0 in flat
    requires Ids(channels) <= flat.Keys && forall x <- Ids(channels) :: x != 0 ==> flat[x] == 0
    ensures OnTheWay(Overlay(flat, channels[..i]), Overlay(flat, channels))
  {
    var view, final := Overlay(flat, channels[..i]), Overlay(flat, channels);
    OverlayAt(flat, channels[..i], 0);
    OverlayAt(flat, channels, 0);
    assert Ids(channels[..i]) <= Ids(channels);
    forall x | x in view && x != 0
      ensures view[x] == final[x] || view[x] == 0
    {
      OverlayAt(flat, channels[..i], x);
      OverlayAt(flat, channels, x);
    }
  }

  lemma {:induction false} SecondPassSafe(flat: map<int, int>, channels: seq<ChannelInfo>, i: nat)
    requires Distinct(channels) && i <= |channels| && Tree(flat)
    requires Ids(channels) <= flat.Keys && forall x <- Ids(channels) :: x != 0 ==> flat[x] == 0
    requires Tree(Overlay(flat, channels))
    ensures AllApplicable(flat, SecondPass(channels[..i]))
    decreases i
  {
    if i > 0 {
      var c := channels[i - 1];
      var front := channels[..i - 1];
      assert channels[..i][..i - 1] == front;
      SecondPassSafe(flat, channels, i - 1);
      if c.id != 0 {
        var final := Overlay(flat, channels);
        OverlayOnTheWay(flat, channels, i - 1);
        OverlayAt(flat, channels, c.id);
        assert c in channels && c.id in Ids(channels);
        SecondPassViews(flat, front);
        LastMileSafe(Overlay(flat, front), final, c.id);
        ApplicableSnoc(flat, SecondPass(front), ChannelState(c.id, ParentForProtocol(c)));
      }
    }
  }

  /** Conversely, messages that all apply leave a tree. */
  lemma {:induction false} ApplicableKeepsTree(view: map<int, int>, ms: seq<ChannelState>)
    requires Tree(view) && AllApplicable(view, ms)
    requires forall m <- ms :: m.parent.Some? && m.id != 0 && m.id in view
    ensures Tree(After(view, ms)) && After(view, ms).Keys == view.Keys
  {
    if ms != [] {
      var front, m := ms[..|ms| - 1], ms[|ms| - 1];
      assert ms == front + [m];
      ApplicableSnoc(view, front, m);
      ApplicableKeepsTree(view, front);
      MoveKeepsTree(After(view, front), m.id, m.parent.value);
    }
  }

  lemma {:induction false} SecondPassMessages(channels: seq<ChannelInfo>)
    ensures forall m <- SecondPass(channels) :: m.parent.Some? && m.id != 0 && m.id in Ids(channels)
  {
    if channels != [] {
      SecondPassMessages(channels[..|channels| - 1]);
      IdsSnoc(channels);
    }
  }

  /**
   * The two passes are safe exactly when the server's links make a tree: then, and only
   * then, every message applies to the view it meets. For any channel order and any view before.
   */
  lemma TwoPassesSafeExactly(view: map<int, int>, channels: seq<ChannelInfo>)
    requires Tree(view) && Distinct(channels) && forall c <- channels :: c.id >= 0
    ensures AllApplicable(view, FirstPass(channels) + SecondPass(channels)) <==> Tree(Overlay(view, channels))
  {
    FirstPassSafe(view, channels);
    var flat := After(view, FirstPass(channels));
    ApplicableConcat(view, FirstPass(channels), SecondPass(channels));
    SameOverlay(view, channels, flat);
    SecondPassViews(flat, channels);
    if Tree(Overlay(view, channels)) {
      assert channels[..|channels|] == channels;
      SecondPassSafe(flat, channels, |channels|);
    }
    if AllApplicable(flat, SecondPass(channels)) {
      SecondPassMessages(channels);
      ApplicableKeepsTree(flat, SecondPass(channels));
    }
  }

  lemma SameOverlay(view: map<int, int>, channels: seq<ChannelInfo>, flat: map<int, int>)
    requires Distinct(channels) && 0 in view && Flattened(view, channels, flat)
    ensures Overlay(flat, channels) == Overlay(view, channels)
  {
    var a, b := Overlay(flat, channels), Overlay(view, channels);
    OverlayAt(flat, channels, 0);
    OverlayAt(view, channels, 0);
    forall x | x in a
      ensures a[x] == b[x]
    {
      OverlayAt(flat, channels, x);
      OverlayAt(view, channels, x);
      if x != 0 && x in Ids(channels) {
        var c :| c in channels && c.id == x && a[x] == ParentForProtocol(c).value;
        var d :| d in channels && d.id == x && b[x] == ParentForProtocol(d).value;
        SameChannel(channels, c, d);
      }
    }
  }

  lemma SameChannel(channels: seq<ChannelInfo>, c: ChannelInfo, d: ChannelInfo)
    requires Distinct(channels) && c in channels && d in channels && c.id == d.id
    ensures c == d
  {
  }

  /**
   * After both passes the client has the server's parent for every listed channel, the root where
   * that is missing or the channel itself; links of other channels stay.
   */
  lemma TwoPassesDeliver(view: map<int, int>, channels: seq<ChannelInfo>)
    requires Tree(view) && Distinct(channels) && forall c <- channels :: c.id >= 0
    ensures After(view, FirstPass(channels) + SecondPass(channels)) == Overlay(view, channels)
    ensures Overlay(view, channels).Keys == view.Keys + set c <- channels :: c.id
    ensures forall c <- channels :: c.id != 0 ==>
      Overlay(view, channels)[c.id] == if c.parent == None || c.parent.value == c.id then 0 else c.parent.value
    ensures forall x <- view :: x == 0 || (forall c <- channels :: c.id != x) ==> Overlay(view, channels)[x] == view[x]
  {
    FirstPassSafe(view, channels);
    var flat := After(view, FirstPass(channels));
    AfterConcat(view, FirstPass(channels), SecondPass(channels));
    SecondPassViews(flat, channels);
    SameOverlay(view, channels, flat);
    OverlayAt(view, channels, 0);
    OverlayParents(view, channels);
    forall x | x in view && (x == 0 || forall c <- channels :: c.id != x)
      ensures Overlay(view, channels)[x] == view[x]
    {
      OverlayAt(view, channels, x);
    }
  }

  lemma OverlayParents(view: map<int, int>, channels: seq<ChannelInfo>)
    requires Distinct(channels)
    ensures forall c <- channels :: c.id != 0 ==>
      c.id in Overlay(view, channels) && Overlay(view, channels)[c.id] == ParentForProtocol(c).value
  {
    forall c | c in channels && c.id != 0
      ensures c.id in Overlay(view, channels) && Overlay(view, channels)[c.id] == ParentForProtocol(c).value
    {
      OverlayAt(view, channels, c.id);
      var d :| d in channels && d.id == c.id && Overlay(view, channels)[c.id] == ParentForProtocol(d).value;
      SameChannel(channels, c, d);
    }
  }

  /** Sending parents at once would not do: turning 2-under-1 into 1-under-2 starts with a refusal. */
  lemma OnePassUnsafe()
    ensures var view, channels := map[0 := -1, 1 := 0, 2 := 1], [ChannelInfo(1, Some(2)), ChannelInfo(2, Some(0))];
      !AllApplicable(view, SecondPass(channels)) && Overlay(view, channels) == map[0 := -1, 1 := 2, 2 := 0]
  {
    var view, channels := map[0 := -1, 1 := 0, 2 := 1], [ChannelInfo(1, Some(2)), ChannelInfo(2, Some(0))];
    var one := channels[..1];
    assert one == [channels[0]] && one[..0] == [];
    var ms := SecondPass(channels);
    assert SecondPass(one) == [ChannelState(1, Some(2))];
    assert ms == SecondPass(one) + [ChannelState(2, Some(0))];
    assert ms[..0] == [] && ms[0] == ChannelState(1, Some(2));
    assert Up(view, 2, 1) == Up(view, 1, 0);
    assert Below(view, 2, 1);
    assert !Applicable(After(view, ms[..0]), ms[0]);
    assert Overlay(view, one) == view[1 := 2];
  }
}
