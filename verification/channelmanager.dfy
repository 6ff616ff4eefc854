/**
 * The channel manager of packages/edge-server/src/models/channel.ts: its methods against the
 * functions of ChannelMirror, and what a run of them keeps.
 */
module ChannelManagers {
  import opened Wrappers
  import opened Forest
  import opened ChannelMirror
  import opened ChannelRemoval

  class ChannelManager {
    var channels: map<int, Channel>
    var channelLinks: map<int, set<int>>
    var channelCounter: int

    ghost function State(): Mirror
      reads this
    {
      Mirror(channels, channelLinks, channelCounter)
    }

    constructor ()
      ensures State() == Initial() && Good(State())
    {
      channels := map[0 := Channel(0, "Root", None, [], {})];
      channelLinks := map[];
      channelCounter := 1;
      new;
      InitialGood();
    }

    method CreateChannel(data: Channel) returns (channel: Channel)
      modifies this
      ensures State() == Created(old(State()), data)
      ensures channel.id == old(channelCounter) && channels[channel.id].name == data.name
    {
      var id := channelCounter;
      channelCounter := channelCounter + 1;
      channel := data.(id := id);
      channels := channels[id := channel];
      if channel.parent.Some? && channel.parent.value in channels {
        var p := channel.parent.value;
        if id !in channels[p].children {
          channels := channels[p := channels[p].(children := channels[p].children + [id])];
        }
      }
    }

    /**
     * Removes a channel and all that the lists lead to from it; each list that is walked is the
     * one from before. On good records that is the subtree.
     */
    method RemoveChannel(c: int) returns (ok: bool)
      requires NoCircle(channels, c)
      modifies this`channels
      ensures ok <==> c in old(channels) && c != 0
      ensures channels == Emptied(old(channels), Reach(old(channels), c))
      ensures old(Listed(channels) && Rooted(channels)) ==>
        channels == Removed(old(channels), c) && Listed(channels) && Rooted(channels)
      decreases |Reach(channels, c)|, 1
    {
      ghost var was := channels;
      GoodRemoval(was, c);
      if c !in channels || c == 0 {
        NothingReached(was, c);
        NothingEmptied(was);
        return false;
      }
      RemoveChildren(c);
      RemovalComplete(was, c);
      var parent := channels[c].parent;
      if parent.Some? && parent.value in channels {
        channels := channels[parent.value := channels[parent.value].(children := Filter(channels[parent.value].children, c))];
      }
      channels := channels - {c};
      return true;
    }

    /** On a good copy it is the removal of the runs below, and can always be called. */
    method RemoveFromGood(c: int) returns (ok: bool)
      requires Good(State())
      modifies this`channels
      ensures State() == Apply(old(State()), Remove(c)) && Good(State())
      ensures ok <==> c in old(channels) && c != 0
    {
      TreeEnds(channels, c);
      RemoveKeepsLinks(State(), c);
      ok := RemoveChannel(c);
    }

    method RemoveChildren(c: int)
      requires NoCircle(channels, c) && c in channels && c != 0
      modifies this`channels
      ensures channels == Emptied(old(channels), ReachAll(old(channels), old(channels)[c].children))
      decreases |Reach(channels, c)|, 0
    {
      ghost var was := channels;
      var kids := channels[c].children;
      NothingEmptied(was);
      for i := 0 to |kids|
        invariant channels == Emptied(was, ReachAll(was, kids[..i]))
      {
        NextEmptied(was, kids, i);
        ChildEnds(was, ReachAll(was, kids[..i]), c, kids[i]);
        var removed := RemoveChannel(kids[i]);
      }
      assert kids[..|kids|] == kids;
    }

    method UpdateChannel(c: int, u: Updates) returns (ok: bool)
      modifies this`channels
      ensures channels == Updated(old(channels), c, u) && (ok <==> c in old(channels))
    {
      if c !in channels {
        return false;
      }
      var parent := channels[c].parent;
      if u.parent.Some? && u.parent != parent {
        if parent.Some? && parent.value in channels {
          channels := channels[parent.value := channels[parent.value].(children := Filter(channels[parent.value].children, c))];
        }
        var np := u.parent.value;
        if np in channels && c !in channels[np].children {
          channels := channels[np := channels[np].(children := channels[np].children + [c])];
        }
      }
      channels := channels[c := Assigned(channels[c], u)];
      return true;
    }

    method LinkChannels(a: int, b: int) returns (ok: bool)
      modifies this`channels, this`channelLinks
      ensures State() == Linked(old(State()), a, b) && (ok <==> a in old(channels) && b in old(channels))
    {
      if a !in channels || b !in channels {
        return false;
      }
      if a !in channelLinks {
        channelLinks := channelLinks[a := {}];
      }
      if b !in channelLinks {
        channelLinks := channelLinks[b := {}];
      }
      channelLinks := channelLinks[a := channelLinks[a] + {b}];
      channelLinks := channelLinks[b := channelLinks[b] + {a}];
      channels := channels[a := channels[a].(links := channelLinks[a])];
      channels := channels[b := channels[b].(links := channelLinks[b])];
      assert channelLinks == Linked(old(State()), a, b).links;
      return true;
    }

    method UnlinkChannels(a: int, b: int) returns (ok: bool)
      modifies this`channels, this`channelLinks
      ensures State() == Unlinked(old(State()), a, b)
      ensures ok <==> {a, b} <= old(channels).Keys && {a, b} <= old(channelLinks).Keys
    {
      if a !in channelLinks || b !in channelLinks || a !in channels || b !in channels {
        return false;
      }
      channelLinks := channelLinks[a := channelLinks[a] - {b}];
      channelLinks := channelLinks[b := channelLinks[b] - {a}];
      channels := channels[a := channels[a].(links := channelLinks[a])];
      channels := channels[b := channels[b].(links := channelLinks[b])];
      return true;
    }

    /** Gives a channel another number, wherever it is named; to its own number with a link to itself, it never ends. */
    method UpdateChannelId(from: int, to: int) returns (ok: bool)
      requires from == to ==> !Joined(channelLinks, from, from)
      modifies this`channels, this`channelLinks
      ensures State() == Renamed(old(State()), from, to) && (ok <==> from in old(channels))
    {
      if from !in channels {
        return false;
      }
      var channel := channels[from].(id := to);
      channels := (channels - {from})[to := channel];
      if channel.parent.Some? && channel.parent.value in channels {
        var p := channel.parent.value;
        channels := channels[p := channels[p].(children := ReplaceFirst(channels[p].children, from, to))];
      }
      AdoptChildren(to);
      assert channels == RenamedTree(old(channels), from, to);
      if from in channelLinks {
        var which := channelLinks[from];
        channelLinks := (channelLinks - {from})[to := which];
        SwapLinks(from, to, which);
        channels := channels[to := channels[to].(links := channelLinks[to])];
      }
      return true;
    }

    method AdoptChildren(parent: int)
      requires parent in channels
      modifies this`channels
      ensures channels == Adopted(old(channels), Elements(old(channels)[parent].children), parent)
    {
      ghost var was := channels;
      var kids := channels[parent].children;
      for i := 0 to |kids|
        invariant channels == Adopted(was, Elements(kids[..i]), parent)
      {
        assert Elements(kids[..i + 1]) == Elements(kids[..i]) + {kids[i]};
        if kids[i] in channels {
          channels := channels[kids[i] := channels[kids[i]].(parent := Some(parent))];
        }
      }
      assert kids[..|kids|] == kids;
    }

    method SwapOne(x: int, from: int, to: int)
      modifies this`channels, this`channelLinks
      ensures channelLinks == if x in old(channelLinks) then old(channelLinks)[x := old(channelLinks)[x] - {from} + {to}] else old(channelLinks)
      ensures channels == if x in channelLinks && x in old(channels)
        then old(channels)[x := old(channels)[x].(links := channelLinks[x])] else old(channels)
    {
      if x in channelLinks {
        channelLinks := channelLinks[x := channelLinks[x] - {from} + {to}];
        if x in channels {
          channels := channels[x := channels[x].(links := channelLinks[x])];
        }
      }
    }

    method SwapLinks(from: int, to: int, which: set<int>)
      modifies this`channels, this`channelLinks
      ensures channelLinks == Swapped(old(channelLinks), which, from, to)
      ensures channels == LinksShown(old(channels), channelLinks, which)
    {
      ghost var wasChannels, wasLinks := channels, channelLinks;
      ghost var done: set<int> := {};
      var left := which;
      while left != {}
        invariant left + done == which && left !! done
        invariant channelLinks == Swapped(wasLinks, done, from, to)
        invariant channels == LinksShown(wasChannels, channelLinks, done)
        decreases |left|
      {
        NotEmpty(left);
        var x :| x in left;
        SwapStep(wasChannels, wasLinks, done, x, from, to);
        SwapOne(x, from, to);
        left, done := left - {x}, done + {x};
      }
      assert done == which;
    }
  }

  lemma SwapStep(channels: map<int, Channel>, links: map<int, set<int>>, done: set<int>, x: int, from: int, to: int)
    requires x !in done
    ensures var s, next := Swapped(links, done, from, to), Swapped(links, done + {x}, from, to);
      next == (if x in links then s[x := s[x] - {from} + {to}] else s)
      && LinksShown(channels, next, done + {x}) == (if x in links && x in channels
        then LinksShown(channels, s, done)[x := LinksShown(channels, s, done)[x].(links := next[x])] else LinksShown(channels, s, done))
  {
  }

  // ----- runs -----

  datatype Operation =
    | Create(data: Channel)
    | Remove(c: int)
    | Update(c: int, u: Updates)
    | Rename(from: int, to: int)
    | Link(a: int, b: int)
    | Unlink(a: int, b: int)

  ghost function Apply(m: Mirror, op: Operation): Mirror {
    match op
    case Create(data) => Created(m, data)
    case Remove(c) => m.(channels := Removed(m.channels, c))
    case Update(c, u) => m.(channels := Updated(m.channels, c, u))
    case Rename(from, to) => Renamed(m, from, to)
    case Link(a, b) => Linked(m, a, b)
    case Unlink(a, b) => Unlinked(m, a, b)
  }

  /** New numbers are above all numbers in use. */
  ghost predicate Fresh(m: Mirror) {
    m.counter > 0 && (forall c <- m.channels :: c < m.counter) && forall a <- m.links :: a < m.counter
  }

  /** What callers have to see to; removing, linking and unlinking need nothing. */
  ghost predicate Careful(m: Mirror, op: Operation) {
    match op
    case Create(data) => Plain(data) && data.parent.Some? && data.parent.value in m.channels
    case Update(c, u) => c in m.channels ==> Ordinary(u) && MayMove(m.channels, c, u)
    case Rename(from, to) =>
      from in m.channels ==> from != 0 && Unused(m, to) && to < m.counter && !Joined(m.links, from, from)
    case _ => true
  }

  lemma RemoveKeepsLinks(m: Mirror, c: int)
    requires Good(m)
    ensures Good(Apply(m, Remove(c)))
  {
    RemovedGood(m.channels, c);
    if c in m.channels && c != 0 {
      RemovedAt(m.channels, c);
    }
  }

  /** New numbers stay above all others through a renaming exactly when it picks a smaller one. */
  lemma RenameKeepsFreshExactly(m: Mirror, from: int, to: int)
    requires Good(m) && Fresh(m) && from in m.channels && Unused(m, to)
    ensures Fresh(Renamed(m, from, to)) <==> to < m.counter
  {
    forall c
      ensures c in Renamed(m, from, to).channels <==> c == to || (c in m.channels && c != from)
    {
      Apart(m, from, to);
      RenamedAt(m.channels, from, to, c);
    }
  }

  lemma StepKeepsGood(m: Mirror, op: Operation)
    requires Good(m) && Fresh(m) && Careful(m, op)
    ensures Good(Apply(m, op))
  {
    match op
    case Create(data) => CreateKeepsGood(m, data);
    case Remove(c) => RemoveKeepsLinks(m, c);
    case Update(c, u) =>
      if c in m.channels {
        UpdateKeepsGood(m, c, u);
      }
    case Rename(from, to) =>
      if from in m.channels {
        RenameKeepsGood(m, from, to);
      }
    case Link(a, b) => LinkKeepsGood(m, a, b);
    case Unlink(a, b) => LinkKeepsGood(m, a, b);
  }

  lemma StepKeepsFresh(m: Mirror, op: Operation)
    requires Good(m) && Fresh(m) && Careful(m, op)
    ensures Fresh(Apply(m, op))
  {
    match op
    case Create(data) =>
    case Remove(c) =>
    case Update(c, u) =>
    case Rename(from, to) =>
      if from in m.channels {
        RenameKeepsFreshExactly(m, from, to);
      }
    case Link(a, b) => LinkKeepsFresh(m, a, b);
    case Unlink(a, b) => LinkKeepsFresh(m, a, b);
  }

  lemma LinkKeepsFresh(m: Mirror, a: int, b: int)
    requires Fresh(m)
    ensures Fresh(Linked(m, a, b)) && Fresh(Unlinked(m, a, b))
  {
    assert Linked(m, a, b).channels.Keys == Unlinked(m, a, b).channels.Keys == m.channels.Keys;
  }

  ghost function Run(m: Mirror, ops: seq<Operation>): Mirror
    decreases |ops|
  {
    if ops == [] then m else Run(Apply(m, ops[0]), ops[1..])
  }

  ghost predicate AllCareful(m: Mirror, ops: seq<Operation>)
    decreases |ops|
  {
    ops == [] || (Careful(m, ops[0]) && AllCareful(Apply(m, ops[0]), ops[1..]))
  }

  /** Tree, children lists and links stay right over every run of careful calls, from the first root on. */
  lemma {:induction false} RunKeepsGood(m: Mirror, ops: seq<Operation>)
    requires Good(m) && Fresh(m) && AllCareful(m, ops)
    ensures Good(Run(m, ops)) && Fresh(Run(m, ops))
    decreases |ops|
  {
    if ops != [] {
      StepKeepsGood(m, ops[0]);
      StepKeepsFresh(m, ops[0]);
      RunKeepsGood(Apply(m, ops[0]), ops[1..]);
    }
  }

  // ----- where care is needed -----

  /** A renaming to the next number, then a creation: the renamed channel is overwritten. */
  lemma CreateOverwritesRenamed(data: Channel)
    requires Plain(data) && data.parent == Some(0)
    ensures var one := Created(Initial(), data);
      var two := Renamed(one, 1, 2);
      Good(two) && 2 in two.channels && Created(two, data.(name := data.name + "'")).channels.Keys == two.channels.Keys
      && Created(two, data.(name := data.name + "'")).channels[2].name != two.channels[2].name
  {
    InitialGood();
    var one := Created(Initial(), data);
    CreateKeepsGood(Initial(), data);
    assert !Joined(one.links, 1, 1);
    RenameKeepsGood(one, 1, 2);
    var two := Renamed(one, 1, 2);
    RenamedAt(one.channels, 1, 2, 2);
    assert |data.name + "'"| != |data.name|;
  }

  /** Every link leads between channels that exist. */
  ghost predicate LinksAlive(m: Mirror) {
    forall a, b :: Joined(m.links, a, b) ==> a in m.channels && b in m.channels
  }

  /** Removing a channel leaves no link to a missing one exactly when nothing it removes was linked. */
  lemma RemoveLeavesLinksExactly(m: Mirror, c: int)
    requires Good(m) && LinksAlive(m) && c in m.channels && c != 0
    ensures LinksAlive(Apply(m, Remove(c)))
      <==> forall x <- Subtree(ParentLinks(m.channels), c) :: m.channels[x].links == {}
  {
    var gone := Subtree(ParentLinks(m.channels), c);
    RemovedAt(m.channels, c);
    if LinksAlive(Apply(m, Remove(c))) {
      forall x | x in gone
        ensures m.channels[x].links == {}
      {
        forall y | y in m.channels[x].links
          ensures false
        {
          assert Joined(m.links, x, y);
        }
      }
    }
  }

  /** A channel linked to itself and renamed keeps its old number in its links. */
  lemma SelfLinkSurvivesRename(data: Channel)
    requires Plain(data) && data.parent == Some(0)
    ensures var linked := Linked(Created(Initial(), data), 1, 1);
      1 in LinksOf(Renamed(linked, 1, 2).links, 2) && 1 !in Renamed(linked, 1, 2).channels
  {
    var linked := Linked(Created(Initial(), data), 1, 1);
    InitialGood();
    CreateKeepsGood(Initial(), data);
    LinkKeepsGood(Created(Initial(), data), 1, 1);
    assert Joined(linked.links, 1, 1);
    SelfLinkStays(linked, 1, 2);
    Apart(linked, 1, 2);
    RenamedAt(linked.channels, 1, 2, 1);
  }

  /** A removed channel is still linked. */
  lemma RemovedStillLinked(data: Channel)
    requires Plain(data) && data.parent == Some(0)
    ensures var one := Created(Initial(), data);
      var linked := Linked(one, 0, 1);
      LinksAlive(linked) && !LinksAlive(Apply(linked, Remove(1)))
  {
    var one := Created(Initial(), data);
    var linked := Linked(one, 0, 1);
    InitialGood();
    CreateKeepsGood(Initial(), data);
    LinkKeepsGood(one, 0, 1);
    LinkJoins(one, 0, 1);
    assert forall a, b :: Joined(one.links, a, b) ==> false;
    RemoveLeavesLinksExactly(linked, 1);
    var p := ParentLinks(linked.channels);
    BelowSelf(p, 1);
    assert 1 in Subtree(p, 1) && Joined(linked.links, 1, 0) && linked.channels[1].links != {};
  }
}
