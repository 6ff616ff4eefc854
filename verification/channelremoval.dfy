/**
 * What `removeChannel` of packages/edge-server/src/models/channel.ts removes, on any records whose
 * children lists do not lead back to where they started: the recursion follows the lists, whatever
 * the parent fields say.
 */
module ChannelRemoval {
  import opened Wrappers
  import opened Forest
  import opened ChannelMirror

  /** From c the recursion gets to x, k lists down; the root and missing channels stop it. */
  ghost predicate Leads(channels: map<int, Channel>, c: int, x: int, k: nat)
    decreases k
  {
    c in channels && c != 0 && if k == 0 then x == c else exists d <- channels[c].children :: Leads(channels, d, x, k - 1)
  }

  ghost function Reach(channels: map<int, Channel>, c: int): set<int> {
    set x <- channels | exists k: nat :: Leads(channels, c, x, k)
  }

  /** Nothing that c leads to leads back to itself: the recursion from c ends. */
  ghost predicate NoCircle(channels: map<int, Channel>, c: int) {
    forall x <- Reach(channels, c), d <- channels[x].children :: x !in Reach(channels, d)
  }

  ghost function ReachAll(channels: map<int, Channel>, roots: seq<int>): set<int> {
    if roots == [] then {} else ReachAll(channels, roots[..|roots| - 1]) + Reach(channels, roots[|roots| - 1])
  }

  function Keep(s: seq<int>, out: set<int>): (r: seq<int>)
    ensures forall y :: y in r <==> y in s && y !in out
  {
    if s == [] then [] else
      var front, last := s[..|s| - 1], s[|s| - 1];
      assert s == front + [last];
      if last in out then Keep(front, out) else Keep(front, out) + [last]
  }

  /** The removed channels that name this one as parent. */
  function Orphans(channels: map<int, Channel>, gone: set<int>, parent: int): set<int> {
    set y | y in gone && y in channels && channels[y].parent == Some(parent)
  }

  function Emptied(channels: map<int, Channel>, gone: set<int>): map<int, Channel> {
    map x | x in channels && x !in gone ::
      channels[x].(children := Keep(channels[x].children, Orphans(channels, gone, x)))
  }

  // ----- lists without some entries -----

  lemma {:induction false} KeepAll(s: seq<int>, out: set<int>)
    requires forall y <- s :: y !in out
    ensures Keep(s, out) == s
  {
    if s != [] {
      assert s == s[..|s| - 1] + [s[|s| - 1]];
      KeepAll(s[..|s| - 1], out);
    }
  }

  lemma {:induction false} KeepTwice(s: seq<int>, a: set<int>, b: set<int>)
    ensures Keep(Keep(s, a), b) == Keep(s, a + b)
  {
    if s != [] {
      var front, last := s[..|s| - 1], s[|s| - 1];
      KeepTwice(front, a, b);
      if last !in a {
        assert (Keep(front, a) + [last])[..|Keep(front, a)|] == Keep(front, a);
      }
    }
  }

  lemma {:induction false} KeepOne(s: seq<int>, x: int)
    ensures Keep(s, {x}) == Filter(s, x)
  {
    if s != [] {
      KeepOne(s[..|s| - 1], x);
    }
  }

  // ----- step by step -----

  lemma NothingEmptied(channels: map<int, Channel>)
    ensures Emptied(channels, {}) == channels
  {
    forall x | x in channels
      ensures Keep(channels[x].children, Orphans(channels, {}, x)) == channels[x].children
    {
      KeepAll(channels[x].children, {});
      assert Orphans(channels, {}, x) == {};
    }
  }

  lemma EmptiedTwice(channels: map<int, Channel>, g: set<int>, h: set<int>)
    ensures Emptied(Emptied(channels, g), h) == Emptied(channels, g + h)
  {
    var once := Emptied(channels, g);
    forall x | x in channels && x !in g
      ensures Keep(once[x].children, Orphans(once, h, x)) == Keep(channels[x].children, Orphans(channels, g + h, x))
    {
      KeepTwice(channels[x].children, Orphans(channels, g, x), Orphans(once, h, x));
      assert Orphans(channels, g, x) + Orphans(once, h, x) == Orphans(channels, g + h, x);
    }
    SameMap(Emptied(once, h), Emptied(channels, g + h));
  }

  lemma {:induction false} LeadsShrinks(channels: map<int, Channel>, g: set<int>, c: int, x: int, k: nat)
    requires Leads(Emptied(channels, g), c, x, k)
    ensures Leads(channels, c, x, k) && x in Emptied(channels, g)
    decreases k
  {
    if k > 0 {
      var left := Emptied(channels, g);
      var d :| d in left[c].children && Leads(left, d, x, k - 1);
      LeadsShrinks(channels, g, d, x, k - 1);
      assert d in channels[c].children;
    }
  }

  lemma ReachShrinks(channels: map<int, Channel>, g: set<int>, c: int)
    ensures Reach(Emptied(channels, g), c) <= Reach(channels, c)
  {
    forall x | x in Reach(Emptied(channels, g), c)
      ensures x in Reach(channels, c)
    {
      var k: nat :| Leads(Emptied(channels, g), c, x, k);
      LeadsShrinks(channels, g, c, x, k);
    }
  }

  /** After part of the removal, a child still leads nowhere that leads back, and less far than c did. */
  lemma ChildEnds(channels: map<int, Channel>, g: set<int>, c: int, d: int)
    requires c in channels && c != 0 && NoCircle(channels, c) && d in channels[c].children
    ensures NoCircle(Emptied(channels, g), d)
    ensures |Reach(Emptied(channels, g), d)| < |Reach(channels, c)|
  {
    var left := Emptied(channels, g);
    ReachOfChild(channels, c, d);
    ReachShrinks(channels, g, d);
    SmallerSet(Reach(left, d), Reach(channels, c));
    forall x, e | x in Reach(left, d) && e in left[x].children
      ensures x !in Reach(left, e)
    {
      ReachShrinks(channels, g, e);
      assert x in Reach(channels, c) && e in channels[x].children;
    }
  }

  lemma ReachOfChild(channels: map<int, Channel>, c: int, d: int)
    requires c in channels && c != 0 && NoCircle(channels, c) && d in channels[c].children
    ensures Reach(channels, d) < Reach(channels, c) && c in Reach(channels, c) && c !in Reach(channels, d)
  {
    assert Leads(channels, c, c, 0);
    forall x | x in Reach(channels, d)
      ensures x in Reach(channels, c)
    {
      var k: nat :| Leads(channels, d, x, k);
      assert Leads(channels, c, x, k + 1);
    }
  }

  /** With some channels goes all that their lists lead to. */
  ghost predicate ListClosed(channels: map<int, Channel>, g: set<int>) {
    forall x <- channels, d <- channels[x].children :: x in g && d in channels && d != 0 ==> d in g
  }

  lemma ReachClosed(channels: map<int, Channel>, c: int)
    ensures ListClosed(channels, Reach(channels, c))
  {
    forall x, d | x in channels && d in channels[x].children && x in Reach(channels, c) && d in channels && d != 0
      ensures d in Reach(channels, c)
    {
      var k: nat :| Leads(channels, c, x, k);
      LeadsOn(channels, c, x, d, k);
    }
  }

  lemma {:induction false} LeadsOn(channels: map<int, Channel>, c: int, x: int, d: int, k: nat)
    requires Leads(channels, c, x, k) && x in channels && d in channels[x].children && d in channels && d != 0
    ensures Leads(channels, c, d, k + 1)
    decreases k
  {
    if k == 0 {
      assert Leads(channels, d, d, 0);
    } else {
      var e :| e in channels[c].children && Leads(channels, e, x, k - 1);
      LeadsOn(channels, e, x, d, k - 1);
    }
  }

  lemma {:induction false} ReachAllClosed(channels: map<int, Channel>, roots: seq<int>)
    ensures ListClosed(channels, ReachAll(channels, roots))
  {
    if roots != [] {
      ReachAllClosed(channels, roots[..|roots| - 1]);
      ReachClosed(channels, roots[|roots| - 1]);
    }
  }

  /** From outside, what is left leads to the same places outside. */
  lemma {:induction false} LeadsOutside(channels: map<int, Channel>, g: set<int>, c: int, x: int, k: nat)
    requires ListClosed(channels, g) && x !in g
    ensures Leads(channels, c, x, k) <==> Leads(Emptied(channels, g), c, x, k)
    decreases k
  {
    var left := Emptied(channels, g);
    if k == 0 {
    } else {
      if Leads(channels, c, x, k) {
        var d :| d in channels[c].children && Leads(channels, d, x, k - 1);
        LeadsOutside(channels, g, d, x, k - 1);
        assert d in left;
        assert c !in g;
        assert d in left[c].children;
      }
      if Leads(left, c, x, k) {
        var d :| d in left[c].children && Leads(left, d, x, k - 1);
        LeadsOutside(channels, g, d, x, k - 1);
        assert d in channels[c].children;
      }
    }
  }

  lemma ReachAfter(channels: map<int, Channel>, g: set<int>, d: int)
    requires ListClosed(channels, g)
    ensures g + Reach(Emptied(channels, g), d) == g + Reach(channels, d)
  {
    forall x | x !in g
      ensures x in Reach(Emptied(channels, g), d) <==> x in Reach(channels, d)
    {
      forall k: nat
        ensures Leads(channels, d, x, k) <==> Leads(Emptied(channels, g), d, x, k)
      {
        LeadsOutside(channels, g, d, x, k);
      }
    }
  }

  /** One more child of the list, after those before it. */
  lemma NextEmptied(channels: map<int, Channel>, kids: seq<int>, i: nat)
    requires i < |kids|
    ensures var now := Emptied(channels, ReachAll(channels, kids[..i]));
      Emptied(now, Reach(now, kids[i])) == Emptied(channels, ReachAll(channels, kids[..i + 1]))
  {
    var g := ReachAll(channels, kids[..i]);
    var now := Emptied(channels, g);
    ReachAllClosed(channels, kids[..i]);
    ReachAfter(channels, g, kids[i]);
    EmptiedTwice(channels, g, Reach(now, kids[i]));
    assert kids[..i + 1][..i] == kids[..i];
  }

  lemma {:induction false} InReachAll(channels: map<int, Channel>, roots: seq<int>, x: int)
    ensures x in ReachAll(channels, roots) <==> exists d <- roots :: x in Reach(channels, d)
  {
    if roots != [] {
      InReachAll(channels, roots[..|roots| - 1], x);
      assert roots == roots[..|roots| - 1] + [roots[|roots| - 1]];
    }
  }

  /** What a channel leads to is itself and what its list leads to. */
  lemma ReachSplits(channels: map<int, Channel>, c: int)
    requires c in channels && c != 0
    ensures Reach(channels, c) == {c} + ReachAll(channels, channels[c].children)
  {
    var kids := channels[c].children;
    assert Leads(channels, c, c, 0);
    forall x
      ensures x in Reach(channels, c) <==> x == c || x in ReachAll(channels, kids)
    {
      InReachAll(channels, kids, x);
      if x in Reach(channels, c) && x != c {
        var k: nat :| Leads(channels, c, x, k);
        var d :| d in kids && Leads(channels, d, x, k - 1);
        assert x in Reach(channels, d);
      }
      if d :| d in kids && x in Reach(channels, d) {
        var k: nat :| Leads(channels, d, x, k);
        assert Leads(channels, c, x, k + 1);
      }
    }
  }

  lemma LeadsFrom(channels: map<int, Channel>, c: int, x: int, k: nat)
    requires Leads(channels, c, x, k)
    ensures c in channels && c != 0
  {
  }

  /** The channel itself is still there when its children are gone. */
  lemma StillThere(channels: map<int, Channel>, c: int)
    requires c in channels && c != 0 && NoCircle(channels, c)
    ensures c !in ReachAll(channels, channels[c].children)
  {
    InReachAll(channels, channels[c].children, c);
    if d :| d in channels[c].children && c in Reach(channels, d) {
      ReachOfChild(channels, c, d);
    }
  }

  /** With the children gone, the parent forgets the channel and it goes too. */
  lemma LastStep(channels: map<int, Channel>, g: set<int>, c: int)
    requires c in channels && c !in g
    ensures var now := Emptied(channels, g);
      c in now && Detach(now, c, now[c].parent) - {c} == Emptied(channels, g + {c})
  {
    var now := Emptied(channels, g);
    var parent := channels[c].parent;
    forall x | x in channels && x !in g && x != c
      ensures Keep(channels[x].children, Orphans(channels, g + {c}, x))
        == if Some(x) == parent then Filter(now[x].children, c) else now[x].children
    {
      if Some(x) == parent {
        assert Orphans(channels, g + {c}, x) == Orphans(channels, g, x) + {c};
        KeepTwice(channels[x].children, Orphans(channels, g, x), {c});
        KeepOne(now[x].children, c);
      } else {
        assert Orphans(channels, g + {c}, x) == Orphans(channels, g, x);
      }
    }
    SameMap(Detach(now, c, now[c].parent) - {c}, Emptied(channels, g + {c}));
  }

  lemma RemovalComplete(channels: map<int, Channel>, c: int)
    requires c in channels && c != 0 && NoCircle(channels, c)
    ensures var now := Emptied(channels, ReachAll(channels, channels[c].children));
      c in now && Detach(now, c, now[c].parent) - {c} == Emptied(channels, Reach(channels, c))
  {
    StillThere(channels, c);
    LastStep(channels, ReachAll(channels, channels[c].children), c);
    ReachSplits(channels, c);
    var kids := ReachAll(channels, channels[c].children);
    assert kids + {c} == {c} + kids;
  }

  lemma NothingReached(channels: map<int, Channel>, c: int)
    requires c !in channels || c == 0
    ensures Reach(channels, c) == {}
  {
    forall x, k: nat | Leads(channels, c, x, k)
      ensures false
    {
      LeadsFrom(channels, c, x, k);
    }
  }

  // ----- on good records -----

  /** On a tree with right lists the recursion ends from everywhere. */
  lemma TreeEnds(channels: map<int, Channel>, c: int)
    requires Listed(channels) && Rooted(channels)
    ensures NoCircle(channels, c)
  {
    var p := ParentLinks(channels);
    forall x, d | x in Reach(channels, c) && d in channels[x].children
      ensures x !in Reach(channels, d)
    {
      if k: nat :| Leads(channels, d, x, k) {
        LeadsBelow(channels, d, x, k);
        LeadsFrom(channels, d, x, k);
        assert Lists(channels, x);
        NoCycle(p, d);
      }
    }
  }

  lemma {:induction false} LeadsBelow(channels: map<int, Channel>, c: int, x: int, k: nat)
    requires Listed(channels) && Rooted(channels) && Leads(channels, c, x, k)
    ensures Below(ParentLinks(channels), x, c)
    decreases k
  {
    var p := ParentLinks(channels);
    if k == 0 {
      BelowSelf(p, c);
    } else {
      var d :| d in channels[c].children && Leads(channels, d, x, k - 1);
      LeadsBelow(channels, d, x, k - 1);
      LeadsFrom(channels, d, x, k - 1);
      ListedBelow(channels, c, d);
      BelowTransitive(p, x, d, c);
    }
  }

  lemma ListedBelow(channels: map<int, Channel>, c: int, d: int)
    requires Listed(channels) && c in channels && d in channels[c].children && d != 0
    ensures Below(ParentLinks(channels), d, c)
  {
    var p := ParentLinks(channels);
    assert Lists(channels, c);
    BelowStep(p, d, c);
    BelowSelf(p, c);
  }

  lemma {:induction false} BelowLeads(channels: map<int, Channel>, c: int, x: int, k: nat)
    requires Listed(channels) && Rooted(channels) && c != 0 && c in channels && x in channels && Up(ParentLinks(channels), x, k) == c
    ensures exists j: nat :: Leads(channels, c, x, j)
    decreases k
  {
    var p := ParentLinks(channels);
    if x == c {
      assert Leads(channels, c, c, 0);
    } else {
      assert x != 0 && k > 0;
      BelowLeads(channels, c, p[x], k - 1);
      var j: nat :| Leads(channels, c, p[x], j);
      assert Lists(channels, p[x]) && channels[x].parent == Some(p[x]);
      LeadsOn(channels, c, p[x], x, j);
    }
  }

  lemma ReachIsSubtree(channels: map<int, Channel>, c: int)
    requires Listed(channels) && Rooted(channels) && c in channels && c != 0
    ensures Reach(channels, c) == Subtree(ParentLinks(channels), c)
  {
    var p := ParentLinks(channels);
    forall x | x in channels
      ensures x in Reach(channels, c) <==> x in Subtree(p, c)
    {
      if k: nat :| Leads(channels, c, x, k) {
        LeadsBelow(channels, c, x, k);
      }
      if k: nat :| Up(p, x, k) == c {
        BelowLeads(channels, c, x, k);
      }
    }
  }

  /** There, a removal takes out exactly the subtree, and only the parent's list changes. */
  lemma RemovalOnTree(channels: map<int, Channel>, c: int)
    requires Listed(channels) && Rooted(channels) && c in channels && c != 0
    ensures Emptied(channels, Reach(channels, c)) == Removed(channels, c)
  {
    var p, gone := ParentLinks(channels), Reach(channels, c);
    ReachIsSubtree(channels, c);
    RemovedAt(channels, c);
    forall x | x in channels && x !in gone
      ensures Keep(channels[x].children, Orphans(channels, gone, x)) == Bereft(channels, c, x).children
    {
      forall y | y in Orphans(channels, gone, x)
        ensures y == c
      {
        BelowStep(p, y, c);
      }
      if Some(x) == channels[c].parent {
        assert Orphans(channels, gone, x) == {c};
        KeepOne(channels[x].children, c);
      } else {
        assert Orphans(channels, gone, x) == {};
        KeepAll(channels[x].children, {});
      }
    }
    SameMap(Emptied(channels, gone), Removed(channels, c));
  }

  lemma GoodRemoval(channels: map<int, Channel>, c: int)
    ensures Listed(channels) && Rooted(channels) ==>
      var r := Emptied(channels, Reach(channels, c)); r == Removed(channels, c) && Listed(r) && Rooted(r)
  {
    if Listed(channels) && Rooted(channels) {
      RemovedGood(channels, c);
      if c in channels && c != 0 {
        RemovalOnTree(channels, c);
      } else {
        NothingReached(channels, c);
        NothingEmptied(channels);
      }
    }
  }
}
