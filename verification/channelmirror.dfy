/**
 * The Edge's copy of the channels (packages/edge-server/src/models/channel.ts): records with
 * both parent and children, and links kept twice, in a table of sets and in the records.
 */
module ChannelMirror {
  import opened Wrappers
  import opened Forest

  datatype Channel = Channel(id: int, name: string, parent: Option<int>, children: seq<int>, links: set<int>)

  datatype Mirror = Mirror(channels: map<int, Channel>, links: map<int, set<int>>, counter: int)

  function ParentLinks(channels: map<int, Channel>): map<int, int> {
    map c <- channels :: if channels[c].parent.Some? then channels[c].parent.value else -1
  }

  /** A record's children are, without repeats, the channels that name it as parent. */
  ghost predicate Lists(channels: map<int, Channel>, c: int)
    requires c in channels
  {
    channels[c].id == c && NoRepeats(channels[c].children)
    && forall x :: x in channels[c].children <==> x in channels && channels[x].parent == Some(c)
  }

  ghost predicate Listed(channels: map<int, Channel>) {
    forall c <- channels :: Lists(channels, c)
  }

  ghost predicate Rooted(channels: map<int, Channel>) {
    0 in channels && channels[0].parent == None && Tree(ParentLinks(channels))
  }

  function LinksOf(links: map<int, set<int>>, c: int): set<int> {
    if c in links then links[c] else {}
  }

  predicate Joined(links: map<int, set<int>>, a: int, b: int) {
    b in LinksOf(links, a)
  }

  ghost predicate Symmetric(links: map<int, set<int>>) {
    forall a, b :: Joined(links, a, b) ==> Joined(links, b, a)
  }

  ghost predicate LinksAgree(m: Mirror) {
    Symmetric(m.links) && forall c <- m.channels :: m.channels[c].links == LinksOf(m.links, c)
  }

  ghost predicate Good(m: Mirror) {
    Listed(m.channels) && Rooted(m.channels) && LinksAgree(m)
  }

  function Initial(): Mirror {
    Mirror(map[0 := Channel(0, "Root", None, [], {})], map[], 1)
  }

  lemma InitialGood()
    ensures Good(Initial())
  {
    var p := ParentLinks(Initial().channels);
    BelowSelf(p, 0);
    assert p.Keys == {0};
  }

  // ----- what each operation does -----

  function Filter(s: seq<int>, x: int): (r: seq<int>)
    ensures forall y :: y in r <==> y in s && y != x
  {
    if s == [] then [] else
      var front, last := s[..|s| - 1], s[|s| - 1];
      assert s == front + [last];
      if last == x then Filter(front, x) else Filter(front, x) + [last]
  }

  lemma {:induction false} FilterKeeps(s: seq<int>, x: int)
    requires NoRepeats(s)
    ensures NoRepeats(Filter(s, x))
    ensures x !in s ==> Filter(s, x) == s
  {
    if s != [] {
      var front, last := s[..|s| - 1], s[|s| - 1];
      assert s == front + [last];
      FilterKeeps(front, x);
      if last != x {
        assert forall i :: 0 <= i < |front| ==> front[i] in front && front[i] != last;
        Appended(Filter(front, x), last);
      }
    }
  }

  lemma {:induction false} FilterFirst(s: seq<int>)
    requires NoRepeats(s) && s != []
    ensures Filter(s, s[0]) == s[1..]
  {
    var front, last := s[..|s| - 1], s[|s| - 1];
    if |s| > 1 {
      FilterFirst(front);
      assert front[0] == s[0] && last != s[0] && s[1..] == front[1..] + [last];
    } else {
      assert front == [];
    }
  }

  /** The parent forgets the channel. */
  function Detach(channels: map<int, Channel>, c: int, parent: Option<int>): map<int, Channel> {
    if parent.None? || parent.value !in channels then channels else
      var p := parent.value;
      channels[p := channels[p].(children := Filter(channels[p].children, c))]
  }

  function Attach(channels: map<int, Channel>, c: int, parent: Option<int>): map<int, Channel> {
    if parent.None? || parent.value !in channels || c in channels[parent.value].children then channels else
      var p := parent.value;
      channels[p := channels[p].(children := channels[p].children + [c])]
  }

  function Created(m: Mirror, data: Channel): Mirror {
    var channel := data.(id := m.counter);
    Mirror(Attach(m.channels[m.counter := channel], m.counter, data.parent), m.links, m.counter + 1)
  }

  datatype Updates = Updates(id: Option<int>, name: Option<string>, parent: Option<int>,
    children: Option<seq<int>>, links: Option<set<int>>)

  function Assigned(c: Channel, u: Updates): Channel {
    Channel(if u.id.Some? then u.id.value else c.id, if u.name.Some? then u.name.value else c.name,
      if u.parent.Some? then u.parent else c.parent, if u.children.Some? then u.children.value else c.children,
      if u.links.Some? then u.links.value else c.links)
  }

  function Updated(channels: map<int, Channel>, c: int, u: Updates): map<int, Channel> {
    if c !in channels then channels else
      var parent := channels[c].parent;
      var moved := if u.parent.Some? && u.parent != parent then Attach(Detach(channels, c, parent), c, u.parent) else channels;
      moved[c := Assigned(moved[c], u)]
  }

  ghost function Removed(channels: map<int, Channel>, c: int): map<int, Channel> {
    if c !in channels || c == 0 then channels else
      var gone := Subtree(ParentLinks(channels), c);
      Detach(channels, c, channels[c].parent) - gone
  }

  function Linked(m: Mirror, a: int, b: int): Mirror {
    if a !in m.channels || b !in m.channels then m else
      var one := m.links[a := LinksOf(m.links, a) + {b}];
      var two := one[b := LinksOf(one, b) + {a}];
      var first := m.channels[a := m.channels[a].(links := two[a])];
      Mirror(first[b := first[b].(links := two[b])], two, m.counter)
  }

  function Unlinked(m: Mirror, a: int, b: int): Mirror {
    if a !in m.channels || b !in m.channels || a !in m.links || b !in m.links then m else
      var one := m.links[a := m.links[a] - {b}];
      var two := one[b := one[b] - {a}];
      var first := m.channels[a := m.channels[a].(links := two[a])];
      Mirror(first[b := first[b].(links := two[b])], two, m.counter)
  }

  /** The first place of x in a list replaced by y. */
  function ReplaceFirst(s: seq<int>, x: int, y: int): (r: seq<int>)
    ensures |r| == |s|
  {
    if s == [] then [] else if s[0] == x then [y] + s[1..] else [s[0]] + ReplaceFirst(s[1..], x, y)
  }

  function RenamedInParent(channels: map<int, Channel>, from: int, to: int, parent: Option<int>): map<int, Channel> {
    if parent.None? || parent.value !in channels then channels else
      var p := parent.value;
      channels[p := channels[p].(children := ReplaceFirst(channels[p].children, from, to))]
  }

  function Adopted(channels: map<int, Channel>, children: set<int>, parent: int): map<int, Channel> {
    map c <- channels :: if c in children then channels[c].(parent := Some(parent)) else channels[c]
  }

  function Swapped(links: map<int, set<int>>, which: set<int>, from: int, to: int): map<int, set<int>> {
    map a <- links :: if a in which then links[a] - {from} + {to} else links[a]
  }

  function LinksShown(channels: map<int, Channel>, links: map<int, set<int>>, which: set<int>): map<int, Channel> {
    map c <- channels :: if c in which && c in links then channels[c].(links := links[c]) else channels[c]
  }

  function RenamedTree(channels: map<int, Channel>, from: int, to: int): (r: map<int, Channel>)
    requires from in channels
    ensures to in r
  {
    var channel := channels[from].(id := to);
    var moved := RenamedInParent((channels - {from})[to := channel], from, to, channel.parent);
    Adopted(moved, Elements(moved[to].children), to)
  }

  function Renamed(m: Mirror, from: int, to: int): Mirror {
    if from !in m.channels then m else
      var channels := RenamedTree(m.channels, from, to);
      if from !in m.links then Mirror(channels, m.links, m.counter) else
        var which := m.links[from];
        var links := Swapped((m.links - {from})[to := which], which, from, to);
        var shown := LinksShown(channels, links, which);
        Mirror(shown[to := shown[to].(links := links[to])], links, m.counter)
  }

  // ----- keeping the copy good -----

  predicate Plain(data: Channel) {
    data.children == [] && data.links == {}
  }

  lemma CreateListed(channels: map<int, Channel>, c: int, data: Channel)
    requires Listed(channels) && Plain(data) && c !in channels && data.id == c
    requires data.parent.Some? && data.parent.value in channels
    requires forall x <- channels :: channels[x].parent != Some(c)
    ensures Listed(Attach(channels[c := data], c, data.parent))
  {
    var p := data.parent.value;
    var r := Attach(channels[c := data], c, data.parent);
    forall x | x in r
      ensures Lists(r, x)
    {
      assert x in channels ==> Lists(channels, x);
      if x == p {
        Appended(channels[p].children, c);
      }
    }
  }

  lemma CreateRooted(channels: map<int, Channel>, c: int, data: Channel)
    requires Rooted(channels) && c > 0 && c !in channels
    ensures Rooted(Attach(channels[c := data], c, data.parent)) <==> data.parent.Some? && data.parent.value in channels
  {
    var r := Attach(channels[c := data], c, data.parent);
    var p, q := ParentLinks(channels), ParentLinks(r);
    var parent := if data.parent.Some? then data.parent.value else -1;
    assert q == p[c := parent];
    assert -1 !in p;
    if parent in channels {
      AddKeepsTree(p, c, parent);
    } else {
      assert q[c] == parent;
      BelowSelf(q, c);
      if Tree(q) && parent == c {
        NoCycle(q, c);
      }
    }
  }

  /** A new channel under an unused number keeps the copy good exactly when its parent exists. */
  lemma CreateKeepsGood(m: Mirror, data: Channel)
    requires Good(m) && Plain(data) && m.counter > 0 && m.counter !in m.channels && m.counter !in m.links
    ensures Good(Created(m, data)) <==> data.parent.Some? && data.parent.value in m.channels
  {
    var c := m.counter;
    CreateRooted(m.channels, c, data.(id := c));
    if data.parent.Some? && data.parent.value in m.channels {
      NoParentOutside(m.channels, c);
      CreateListed(m.channels, c, data.(id := c));
    }
  }

  lemma NoParentOutside(channels: map<int, Channel>, c: int)
    requires Rooted(channels) && c !in channels && c > 0
    ensures forall x <- channels :: channels[x].parent != Some(c)
  {
    var p := ParentLinks(channels);
    forall x | x in channels
      ensures channels[x].parent != Some(c)
    {
      assert x != 0 ==> p[x] in p;
    }
  }

  predicate Ordinary(u: Updates) {
    u.id == None && u.children == None && u.links == None
  }

  predicate StaysPut(channels: map<int, Channel>, c: int, u: Updates)
    requires c in channels
  {
    u.parent == None || u.parent == channels[c].parent
  }

  lemma SameLists(channels: map<int, Channel>, r: map<int, Channel>)
    requires Listed(channels) && r.Keys == channels.Keys
    requires forall x <- channels :: r[x].id == x && r[x].parent == channels[x].parent && r[x].children == channels[x].children
    ensures Listed(r)
  {
    forall x | x in r
      ensures Lists(r, x)
    {
      assert Lists(channels, x);
    }
  }

  function ChildrenAfter(channels: map<int, Channel>, c: int, parent: int, x: int): seq<int>
    requires c in channels && x in channels
  {
    if x == parent then channels[x].children + [c]
    else if Some(x) == channels[c].parent then Filter(channels[x].children, c)
    else channels[x].children
  }

  lemma MoveListed(channels: map<int, Channel>, c: int, parent: int, r: map<int, Channel>)
    requires Listed(channels) && c in channels && parent in channels && channels[c].parent != Some(parent)
    requires r.Keys == channels.Keys && r[c].parent == Some(parent)
    requires forall x <- channels :: r[x].id == x && (x != c ==> r[x].parent == channels[x].parent)
    requires forall x <- channels :: r[x].children == ChildrenAfter(channels, c, parent, x)
    ensures Listed(r)
  {
    forall x | x in r
      ensures Lists(r, x)
    {
      assert Lists(channels, x);
      if x == parent {
        Appended(channels[x].children, c);
      } else if Some(x) == channels[c].parent {
        FilterKeeps(channels[x].children, c);
      }
    }
  }

  /** Where a changed parent is an existing record that does not list the channel yet. */
  lemma MoveFields(channels: map<int, Channel>, c: int, u: Updates)
    requires c in channels && Ordinary(u) && u.parent.Some? && u.parent != channels[c].parent
    requires u.parent.value in channels && c !in channels[u.parent.value].children
    ensures var r := Updated(channels, c, u);
      r.Keys == channels.Keys && r[c].parent == u.parent
      && (forall x <- channels :: r[x].children == ChildrenAfter(channels, c, u.parent.value, x))
  {
  }

  lemma MoveKeepsOthers(channels: map<int, Channel>, c: int, u: Updates)
    requires c in channels && Ordinary(u)
    ensures var r := Updated(channels, c, u);
      r.Keys == channels.Keys && forall x <- channels :: Kept(channels, c, r, x)
  {
  }

  /** What no ordinary update changes. */
  predicate Kept(channels: map<int, Channel>, c: int, r: map<int, Channel>, x: int)
    requires x in channels && x in r
  {
    r[x].id == channels[x].id && r[x].links == channels[x].links && (x != c ==> r[x].parent == channels[x].parent)
  }

  /** Any other update leaves lists alone. */
  lemma OtherFields(channels: map<int, Channel>, c: int, u: Updates)
    requires c in channels && Ordinary(u) && StaysPut(channels, c, u)
    ensures var r := Updated(channels, c, u);
      r.Keys == channels.Keys && (forall x <- channels :: r[x].id == channels[x].id && r[x].links == channels[x].links)
      && forall x <- channels :: r[x].children == channels[x].children && r[x].parent == channels[x].parent
  {
  }

  lemma ParentAfter(channels: map<int, Channel>, c: int, u: Updates)
    requires c in channels && Ordinary(u)
    ensures ParentLinks(Updated(channels, c, u))
      == if u.parent.Some? then ParentLinks(channels)[c := u.parent.value] else ParentLinks(channels)
  {
  }

  /** Where an update may put a channel. */
  ghost predicate MayMove(channels: map<int, Channel>, c: int, u: Updates)
    requires c in channels
  {
    StaysPut(channels, c, u)
    || (c != 0 && u.parent.value in channels && !Below(ParentLinks(channels), u.parent.value, c))
  }

  lemma RootedAfter(channels: map<int, Channel>, c: int, u: Updates)
    requires Rooted(channels) && c in channels && Ordinary(u)
    ensures Rooted(Updated(channels, c, u)) <==> MayMove(channels, c, u)
  {
    var p, r := ParentLinks(channels), Updated(channels, c, u);
    ParentAfter(channels, c, u);
    if StaysPut(channels, c, u) {
      assert ParentLinks(r) == p;
    } else if c == 0 {
      assert r[0].parent == u.parent;
    } else if u.parent.value in channels {
      MoveKeepsTree(p, c, u.parent.value);
    } else {
      assert ParentLinks(r)[c] == u.parent.value;
    }
  }

  /** An update keeps the copy good exactly when it does not move, or moves under an existing channel that is not below. */
  lemma UpdateKeepsGood(m: Mirror, c: int, u: Updates)
    requires Good(m) && c in m.channels && Ordinary(u)
    ensures Good(m.(channels := Updated(m.channels, c, u))) <==> MayMove(m.channels, c, u)
  {
    var r := Updated(m.channels, c, u);
    RootedAfter(m.channels, c, u);
    assert forall x <- m.channels :: Lists(m.channels, x);
    if StaysPut(m.channels, c, u) {
      OtherFields(m.channels, c, u);
      SameLists(m.channels, r);
    } else if MayMove(m.channels, c, u) {
      MoveFields(m.channels, c, u);
      MoveKeepsOthers(m.channels, c, u);
      assert forall x <- m.channels :: Kept(m.channels, c, r, x);
      MoveListed(m.channels, c, u.parent.value, r);
    }
  }

  // ----- links -----

  predicate Pair(x: int, y: int, a: int, b: int) {
    (x == a && y == b) || (x == b && y == a)
  }

  /** Linking joins just these two, in both directions; the records show the sets. */
  lemma LinkJoins(m: Mirror, a: int, b: int)
    requires a in m.channels && b in m.channels && LinksAgree(m)
    ensures var n := Linked(m, a, b);
      (forall x, y :: Joined(n.links, x, y) <==> Joined(m.links, x, y) || Pair(x, y, a, b)) && LinksAgree(n)
  {
    var n := Linked(m, a, b);
    assert forall x :: LinksOf(n.links, x) == LinksOf(m.links, x) + (if x == a then {b} else {}) + (if x == b then {a} else {});
    assert forall x <- m.channels :: x != a && x != b ==> n.channels[x] == m.channels[x];
  }

  /** Unlinking undoes exactly that, when both have link sets. */
  lemma UnlinkParts(m: Mirror, a: int, b: int)
    requires a in m.channels && b in m.channels && LinksAgree(m)
    ensures var n := Unlinked(m, a, b);
      (forall x, y :: Joined(n.links, x, y) <==> Joined(m.links, x, y) && !Pair(x, y, a, b)) && LinksAgree(n)
  {
    var n := Unlinked(m, a, b);
    if a in m.links && b in m.links {
      assert forall x :: LinksOf(n.links, x) == LinksOf(m.links, x) - (if x == a then {b} else {}) - (if x == b then {a} else {});
      assert forall x <- m.channels :: x != a && x != b ==> n.channels[x] == m.channels[x];
    } else {
      assert !Joined(m.links, a, b) || !Joined(m.links, b, a);
    }
  }

  lemma LinksKeepLists(channels: map<int, Channel>, r: map<int, Channel>)
    requires Listed(channels) && Rooted(channels) && r.Keys == channels.Keys
    requires forall x <- channels :: r[x] == channels[x].(links := r[x].links)
    ensures Listed(r) && Rooted(r)
  {
    assert forall x <- channels :: r[x].parent == channels[x].parent;
    assert ParentLinks(r) == ParentLinks(channels);
    assert forall x <- channels :: Lists(channels, x);
    SameLists(channels, r);
  }

  lemma LinkKeepsGood(m: Mirror, a: int, b: int)
    requires Good(m)
    ensures Good(Linked(m, a, b)) && Good(Unlinked(m, a, b))
  {
    if a in m.channels && b in m.channels {
      LinkJoins(m, a, b);
      UnlinkParts(m, a, b);
      LinksKeepLists(m.channels, Linked(m, a, b).channels);
      LinksKeepLists(m.channels, Unlinked(m, a, b).channels);
    }
  }

  // ----- renaming -----

  function Swap(x: int, from: int, to: int): int {
    if x == from then to else x
  }

  function SwapSeq(s: seq<int>, from: int, to: int): (r: seq<int>)
    ensures |r| == |s| && forall i :: 0 <= i < |s| ==> r[i] == Swap(s[i], from, to)
  {
    if s == [] then [] else [Swap(s[0], from, to)] + SwapSeq(s[1..], from, to)
  }

  function SwapSet(s: set<int>, from: int, to: int): set<int> {
    if from in s then s - {from} + {to} else s
  }

  /** The same record with one number written for another throughout. */
  function SwapChannel(c: Channel, from: int, to: int): Channel {
    Channel(Swap(c.id, from, to), c.name, if c.parent.Some? then Some(Swap(c.parent.value, from, to)) else None,
      SwapSeq(c.children, from, to), SwapSet(c.links, from, to))
  }

  function ChannelsImage(channels: map<int, Channel>, from: int, to: int): map<int, Channel> {
    map c | c in SwapSet(channels.Keys, from, to) && Swap(c, to, from) in channels ::
      SwapChannel(channels[Swap(c, to, from)], from, to)
  }

  /** The whole copy with one number written for another throughout. */
  function Image(m: Mirror, from: int, to: int): Mirror {
    Mirror(
      ChannelsImage(m.channels, from, to),
      map a | a in SwapSet(m.links.Keys, from, to) && Swap(a, to, from) in m.links ::
        SwapSet(m.links[Swap(a, to, from)], from, to),
      m.counter)
  }

  lemma {:induction false} SwapOnce(s: seq<int>, from: int, to: int)
    requires NoRepeats(s)
    ensures SwapSeq(s, from, to) == ReplaceFirst(s, from, to)
    ensures from !in s ==> SwapSeq(s, from, to) == s
  {
    if s != [] {
      SwapOnce(s[1..], from, to);
      if s[0] == from {
        assert from !in s[1..];
      }
    }
  }

  ghost predicate Unused(m: Mirror, c: int) {
    c !in m.channels && c !in m.links && c >= 0
  }

  /** No record is its own parent, and an unused number is nobody's parent or child. */
  lemma Apart(m: Mirror, from: int, to: int)
    requires Good(m) && from in m.channels && Unused(m, to)
    ensures m.channels[from].parent != Some(from) && from !in m.channels[from].children
    ensures forall c <- m.channels :: m.channels[c].parent != Some(to) && to !in m.channels[c].children
  {
    var p := ParentLinks(m.channels);
    assert Lists(m.channels, from);
    if from != 0 {
      NoCycle(p, from);
      BelowSelf(p, from);
      assert p[from] != from;
    }
    forall c | c in m.channels
      ensures m.channels[c].parent != Some(to) && to !in m.channels[c].children
    {
      assert Lists(m.channels, c);
      assert c != 0 ==> p[c] in p;
    }
  }

  lemma RenamedAt(channels: map<int, Channel>, from: int, to: int, c: int)
    requires from in channels && to !in channels
    requires channels[from].parent != Some(from) && channels[from].parent != Some(to)
    requires to !in channels[from].children
    ensures var r := RenamedTree(channels, from, to);
      (c in r <==> c == to || (c in channels && c != from))
      && (c == to ==> r[c] == channels[from].(id := to))
      && (c in channels && c != from ==> r[c] == NearRenamed(channels, from, to, c))
  {
    var moved := RenamedInParent((channels - {from})[to := channels[from].(id := to)], from, to, channels[from].parent);
    assert moved[to] == channels[from].(id := to);
  }

  /** Another record after the renaming: the parent's list and the children's parent change. */
  function NearRenamed(channels: map<int, Channel>, from: int, to: int, c: int): Channel
    requires from in channels && c in channels
  {
    var channel := channels[c];
    var listed := if channels[from].parent == Some(c) then channel.(children := ReplaceFirst(channel.children, from, to)) else channel;
    if c in channels[from].children then listed.(parent := Some(to)) else listed
  }

  lemma TreeRenamed(m: Mirror, from: int, to: int, c: int)
    requires Good(m) && from in m.channels && Unused(m, to)
    ensures var r, image := RenamedTree(m.channels, from, to), Image(m, from, to).channels;
      (c in r <==> c in image) && (c in r ==> r[c] == image[c].(links := m.channels[Swap(c, to, from)].links))
  {
    Apart(m, from, to);
    RenamedAt(m.channels, from, to, c);
    assert Lists(m.channels, from);
    if c == to {
      SwapOnce(m.channels[from].children, from, to);
    } else if c in m.channels && c != from {
      NearIsSwapped(m, from, to, c);
    }
  }

  lemma NearIsSwapped(m: Mirror, from: int, to: int, c: int)
    requires Good(m) && from in m.channels && Unused(m, to) && c in m.channels && c != from
    ensures NearRenamed(m.channels, from, to, c) == SwapChannel(m.channels[c], from, to).(links := m.channels[c].links)
  {
    assert Lists(m.channels, from) && Lists(m.channels, c);
    SwapOnce(m.channels[c].children, from, to);
  }

  /** The link sets after the renaming, for a channel that is not linked to itself. */
  lemma LinksRenamed(m: Mirror, from: int, to: int, a: int)
    requires Good(m) && from in m.channels && Unused(m, to) && !Joined(m.links, from, from)
    ensures var n, image := Renamed(m, from, to).links, Image(m, from, to).links;
      (a in n <==> a in image) && (a in n ==> n[a] == image[a])
  {
    assert Joined(m.links, from, a) <==> Joined(m.links, a, from);
    assert !Joined(m.links, from, to) by {
      assert !Joined(m.links, to, from);
    }
  }

  lemma ShownRenamed(m: Mirror, from: int, to: int, c: int)
    requires Good(m) && from in m.channels && Unused(m, to) && !Joined(m.links, from, from)
    ensures var n, image := Renamed(m, from, to).channels, Image(m, from, to).channels;
      (c in n <==> c in image) && (c in n ==> n[c] == image[c])
  {
    TreeRenamed(m, from, to, c);
    TreeRenamed(m, from, to, to);
    var preimage := Swap(c, to, from);
    assert Joined(m.links, from, preimage) <==> Joined(m.links, preimage, from);
    LinksRenamed(m, from, to, c);
    assert preimage in m.channels ==> m.channels[preimage].links == LinksOf(m.links, preimage);
    assert !Joined(m.links, from, to) by {
      assert !Joined(m.links, to, from);
    }
  }

  lemma SameMap<T>(a: map<int, T>, b: map<int, T>)
    requires forall c :: (c in a <==> c in b) && (c in a ==> a[c] == b[c])
    ensures a == b
  {
    assert forall c <- a :: c in b && a[c] == b[c];
    assert forall c <- b :: c in a;
    assert a.Keys == b.Keys;
  }

  lemma RenameIsomorphic(m: Mirror, from: int, to: int)
    requires Good(m) && from in m.channels && Unused(m, to) && !Joined(m.links, from, from)
    ensures Renamed(m, from, to) == Image(m, from, to)
  {
    var n, image := Renamed(m, from, to), Image(m, from, to);
    assert n.channels == image.channels by {
      forall c
        ensures (c in n.channels <==> c in image.channels) && (c in n.channels ==> n.channels[c] == image.channels[c])
      {
        ShownRenamed(m, from, to, c);
      }
      SameMap(n.channels, image.channels);
    }
    assert n.links == image.links by {
      forall a
        ensures (a in n.links <==> a in image.links) && (a in n.links ==> n.links[a] == image.links[a])
      {
        LinksRenamed(m, from, to, a);
      }
      SameMap(n.links, image.links);
    }
  }

  lemma SelfLinkStays(m: Mirror, from: int, to: int)
    requires Good(m) && from in m.channels && Unused(m, to) && Joined(m.links, from, from)
    ensures from in LinksOf(Renamed(m, from, to).links, to) && from !in LinksOf(Image(m, from, to).links, to)
  {
    assert !Joined(m.links, from, to) by {
      assert !Joined(m.links, to, from);
    }
  }

  /**
   * Renaming to an unused number is writing the new number for the old one throughout the tree
   * and the links, and nothing else, exactly when the channel is not linked to itself.
   */
  lemma RenameIsomorphicExactly(m: Mirror, from: int, to: int)
    requires Good(m) && from in m.channels && Unused(m, to)
    ensures Renamed(m, from, to) == Image(m, from, to) <==> !Joined(m.links, from, from)
  {
    if Joined(m.links, from, from) {
      SelfLinkStays(m, from, to);
    } else {
      RenameIsomorphic(m, from, to);
    }
  }

  lemma {:induction false} SwapMembers(s: seq<int>, from: int, to: int)
    requires NoRepeats(s) && to !in s
    ensures NoRepeats(SwapSeq(s, from, to))
    ensures forall x :: x in SwapSeq(s, from, to) <==> x != from && Swap(x, to, from) in s
  {
  }

  lemma {:induction false} ClimbRenamed(p: map<int, int>, q: map<int, int>, from: int, to: int, x: int, k: nat)
    requires Tree(p) && from in p && from != 0 && to > 0 && to !in p
    requires forall y <- p :: Swap(y, from, to) in q && (y != 0 ==> q[Swap(y, from, to)] == Swap(p[y], from, to))
    requires x in p && Up(p, x, k) == 0
    ensures Up(q, Swap(x, from, to), k) == 0
    decreases k
  {
    if x != 0 {
      ClimbRenamed(p, q, from, to, p[x], k - 1);
    }
  }

  /** The image has the old records under new numbers and no others. */
  lemma ImageAt(channels: map<int, Channel>, from: int, to: int, c: int)
    requires from in channels && to !in channels
    ensures var r, y := ChannelsImage(channels, from, to), Swap(c, to, from);
      (c in r <==> c != from && y in channels) && (c in r ==> r[c] == SwapChannel(channels[y], from, to) && Swap(y, from, to) == c)
    ensures c in channels ==> Swap(c, from, to) in ChannelsImage(channels, from, to)
  {
  }

  lemma ParentsRenamed(channels: map<int, Channel>, from: int, to: int, y: int)
    requires Rooted(channels) && from in channels && to !in channels && y in channels
    ensures var p, q := ParentLinks(channels), ParentLinks(ChannelsImage(channels, from, to));
      Swap(y, from, to) in q && (y != 0 ==> q[Swap(y, from, to)] == Swap(p[y], from, to))
  {
    var c := Swap(y, from, to);
    ImageAt(channels, from, to, c);
    assert ParentLinks(channels)[y] in channels || y == 0;
    assert -1 !in ParentLinks(channels);
  }

  lemma ImageRooted(channels: map<int, Channel>, from: int, to: int)
    requires Rooted(channels) && from in channels && to !in channels && from != 0 && to >= 0
    ensures Rooted(ChannelsImage(channels, from, to))
  {
    var r := ChannelsImage(channels, from, to);
    var p, q := ParentLinks(channels), ParentLinks(r);
    forall y | y in p
      ensures Swap(y, from, to) in q && (y != 0 ==> q[Swap(y, from, to)] == Swap(p[y], from, to))
    {
      ParentsRenamed(channels, from, to, y);
    }
    forall c | c in q
      ensures c >= 0 && (c != 0 ==> q[c] in q) && Below(q, c, 0)
    {
      ImageAt(channels, from, to, c);
      var y := Swap(c, to, from);
      assert Below(p, y, 0);
      var k: nat :| Up(p, y, k) == 0;
      ClimbRenamed(p, q, from, to, y, k);
    }
    ImageAt(channels, from, to, 0);
  }

  lemma ImageListed(channels: map<int, Channel>, from: int, to: int, c: int)
    requires Listed(channels) && from in channels && to !in channels && c in ChannelsImage(channels, from, to)
    requires forall x <- channels :: channels[x].parent != Some(to)
    ensures Lists(ChannelsImage(channels, from, to), c)
  {
    var r, preimage := ChannelsImage(channels, from, to), Swap(c, to, from);
    ImageAt(channels, from, to, c);
    assert Lists(channels, preimage);
    SwapMembers(channels[preimage].children, from, to);
    forall x
      ensures x in r[c].children <==> x in r && r[x].parent == Some(c)
    {
      ImageAt(channels, from, to, x);
    }
  }

  lemma ImageJoins(m: Mirror, from: int, to: int, a: int, b: int)
    requires Good(m) && from in m.channels && Unused(m, to)
    ensures Joined(Image(m, from, to).links, a, b)
      <==> a != from && b != from && Joined(m.links, Swap(a, to, from), Swap(b, to, from))
  {
    forall z
      ensures !Joined(m.links, to, z) && !Joined(m.links, z, to)
    {
      assert Joined(m.links, z, to) ==> Joined(m.links, to, z);
    }
    var x, n := Swap(a, to, from), Image(m, from, to);
    if a != from {
      assert a in n.links <==> x in m.links;
      assert LinksOf(n.links, a) == SwapSet(LinksOf(m.links, x), from, to);
      assert !Joined(m.links, x, to);
    }
  }

  lemma ImageLinked(m: Mirror, from: int, to: int)
    requires Good(m) && from in m.channels && Unused(m, to)
    ensures LinksAgree(Image(m, from, to))
  {
    var n := Image(m, from, to);
    forall a, b | Joined(n.links, a, b)
      ensures Joined(n.links, b, a)
    {
      ImageJoins(m, from, to, a, b);
      ImageJoins(m, from, to, b, a);
    }
    forall c | c in n.channels
      ensures n.channels[c].links == LinksOf(n.links, c)
    {
      ImageAt(m.channels, from, to, c);
      var preimage := Swap(c, to, from);
      assert m.channels[preimage].links == LinksOf(m.links, preimage);
    }
  }

  lemma ImageGood(m: Mirror, from: int, to: int)
    requires Good(m) && from in m.channels && Unused(m, to) && from != 0
    ensures Good(Image(m, from, to))
  {
    Apart(m, from, to);
    ImageRooted(m.channels, from, to);
    ImageLinked(m, from, to);
    forall c | c in ChannelsImage(m.channels, from, to)
      ensures Lists(ChannelsImage(m.channels, from, to), c)
    {
      ImageListed(m.channels, from, to, c);
    }
  }

  /** Renaming to an unused number keeps the copy good exactly for a channel other than the root, not linked to itself. */
  lemma RenameKeepsGood(m: Mirror, from: int, to: int)
    requires Good(m) && from in m.channels && Unused(m, to)
    ensures Good(Renamed(m, from, to)) <==> from != 0 && !Joined(m.links, from, from)
  {
    if Joined(m.links, from, from) {
      SelfLinkAsymmetric(m, from, to);
    } else {
      RenameIsomorphic(m, from, to);
      if from == 0 {
        ImageAt(m.channels, from, to, 0);
      } else {
        ImageGood(m, from, to);
      }
    }
  }

  lemma SelfLinkAsymmetric(m: Mirror, from: int, to: int)
    requires Good(m) && from in m.channels && Unused(m, to) && Joined(m.links, from, from)
    ensures !Symmetric(Renamed(m, from, to).links)
  {
    SelfLinkStays(m, from, to);
    var links := Renamed(m, from, to).links;
    assert from !in links;
    assert Joined(links, to, from) && !Joined(links, from, to);
  }

  // ----- removing -----

  function Bereft(channels: map<int, Channel>, c: int, x: int): Channel
    requires c in channels && x in channels
  {
    if Some(x) == channels[c].parent then channels[x].(children := Filter(channels[x].children, c)) else channels[x]
  }

  /** What is left after a removal: everything outside the subtree, with one list shortened. */
  lemma RemovedAt(channels: map<int, Channel>, c: int)
    requires Listed(channels) && Rooted(channels) && c in channels && c != 0
    ensures var r, gone := Removed(channels, c), Subtree(ParentLinks(channels), c);
      r.Keys == channels.Keys - gone && c in gone && channels[c].parent.Some? && channels[c].parent.value in r
      && forall x <- r :: r[x] == Bereft(channels, c, x)
  {
    var p := ParentLinks(channels);
    BelowSelf(p, c);
    NoCycle(p, c);
    assert p[c] in p && -1 !in p;
  }

  lemma RemovedListed(channels: map<int, Channel>, c: int, x: int)
    requires Listed(channels) && Rooted(channels) && c in channels && c != 0 && x in Removed(channels, c)
    ensures Lists(Removed(channels, c), x)
  {
    var p, r := ParentLinks(channels), Removed(channels, c);
    RemovedAt(channels, c);
    assert Lists(channels, x);
    FilterKeeps(channels[x].children, c);
    forall y
      ensures y in r[x].children <==> y in r && r[y].parent == Some(x)
    {
      if y in channels && channels[y].parent == Some(x) {
        assert p[y] == x;
        assert y != 0;
        BelowStep(p, y, c);
      }
    }
  }

  lemma RemovedRooted(channels: map<int, Channel>, c: int)
    requires Listed(channels) && Rooted(channels) && c in channels && c != 0
    ensures Rooted(Removed(channels, c))
  {
    var p, r := ParentLinks(channels), Removed(channels, c);
    RemovedAt(channels, c);
    RemoveKeepsTree(p, c);
    RootNotBelow(p, c);
    assert 0 in r;
    SameParents(channels, c);
  }

  lemma SameParents(channels: map<int, Channel>, c: int)
    requires Listed(channels) && Rooted(channels) && c in channels && c != 0
    ensures ParentLinks(Removed(channels, c)) == Without(ParentLinks(channels), Subtree(ParentLinks(channels), c))
  {
    var r := Removed(channels, c);
    RemovedAt(channels, c);
    assert forall x <- r :: r[x].parent == channels[x].parent;
  }

  lemma RemovedGood(channels: map<int, Channel>, c: int)
    requires Listed(channels) && Rooted(channels)
    ensures Listed(Removed(channels, c)) && Rooted(Removed(channels, c))
  {
    if c in channels && c != 0 {
      RemovedRooted(channels, c);
      forall x | x in Removed(channels, c)
        ensures Lists(Removed(channels, c), x)
      {
        RemovedListed(channels, c, x);
      }
    }
  }
}
