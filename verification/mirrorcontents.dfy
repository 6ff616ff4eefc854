/**
 * What each call of packages/edge-server/src/models/channel.ts leaves in every record, field by
 * field, on any state: records need not be right before.
 */
module MirrorContents {
  import opened Wrappers
  import opened Forest
  import opened ChannelMirror

  /** A list after a channel has been put at its end, unless it is there. */
  function With(s: seq<int>, c: int): seq<int> {
    if c in s then s else s + [c]
  }

  /** The new record has the data under the counter's number; the parent lists it, and nothing else changes. */
  lemma CreateDone(m: Mirror, data: Channel)
    ensures var n, id := Created(m, data), m.counter;
      && n.links == m.links && n.counter == id + 1 && n.channels.Keys == m.channels.Keys + {id}
      && n.channels[id] == Channel(id, data.name, data.parent,
           if data.parent == Some(id) then With(data.children, id) else data.children, data.links)
      && forall x <- m.channels :: x != id ==>
           n.channels[x].children == (if data.parent == Some(x) then With(m.channels[x].children, id) else m.channels[x].children)
           && n.channels[x].id == m.channels[x].id && n.channels[x].name == m.channels[x].name
           && n.channels[x].parent == m.channels[x].parent && n.channels[x].links == m.channels[x].links
  {
  }

  /** The channel goes to another parent. */
  predicate Moves(channels: map<int, Channel>, c: int, u: Updates)
    requires c in channels
  {
    u.parent.Some? && !(channels[c].parent == u.parent)
  }

  /** The given fields are set, and the others and the other records keep theirs, but for the lists of the two parents. */
  lemma UpdateDone(channels: map<int, Channel>, c: int, u: Updates)
    requires c in channels
    ensures var r := Updated(channels, c, u);
      && r.Keys == channels.Keys
      && r[c].id == (if u.id == None then channels[c].id else u.id.value)
      && r[c].name == (if u.name == None then channels[c].name else u.name.value)
      && r[c].parent == (if u.parent == None then channels[c].parent else u.parent)
      && r[c].links == (if u.links == None then channels[c].links else u.links.value)
      && (u.children.Some? ==> r[c].children == u.children.value)
      && forall x <- channels :: x != c ==>
           r[x].id == channels[x].id && r[x].name == channels[x].name
           && r[x].parent == channels[x].parent && r[x].links == channels[x].links
  {
  }

  /** The old parent forgets the channel and the new one lists it. */
  lemma UpdateLists(channels: map<int, Channel>, c: int, u: Updates, x: int, y: int)
    requires c in channels && x in channels && (x == c ==> u.children == None)
    ensures var old', new' := channels[x].children, Updated(channels, c, u)[x].children;
      y in new' <==> if Moves(channels, c, u) && u.parent == Some(x) && y == c then true
                     else if Moves(channels, c, u) && channels[c].parent == Some(x) && y == c then false
                     else y in old'
  {
  }

  /** Links change nothing but links, and link sets of others stay. */
  lemma LinkDone(m: Mirror, a: int, b: int)
    ensures OnlyLinks(m, Linked(m, a, b), a, b) && OnlyLinks(m, Unlinked(m, a, b), a, b)
    ensures a !in m.channels || b !in m.channels ==> Linked(m, a, b) == m && Unlinked(m, a, b) == m
    ensures a !in m.links || b !in m.links ==> Unlinked(m, a, b) == m
  {
  }

  ghost predicate OnlyLinks(m: Mirror, n: Mirror, a: int, b: int) {
    && n.counter == m.counter && n.channels.Keys == m.channels.Keys
    && (forall x <- m.channels ::
          n.channels[x].id == m.channels[x].id && n.channels[x].name == m.channels[x].name
          && n.channels[x].parent == m.channels[x].parent && n.channels[x].children == m.channels[x].children)
    && (forall x <- m.channels :: x != a && x != b ==> n.channels[x].links == m.channels[x].links)
  }

  /** A number after the renaming. */
  function NewName(x: int, from: int, to: int): int {
    if x == from then to else x
  }

  /** A record with all that it names renamed. */
  ghost predicate NamedAnew(was: Channel, now: Channel, from: int, to: int) {
    && now.name == was.name
    && now.parent == (if was.parent == None then None else Some(NewName(was.parent.value, from, to)))
    && |now.children| == |was.children|
    && (forall i :: 0 <= i < |was.children| ==> now.children[i] == NewName(was.children[i], from, to))
    && (forall y :: y in now.links <==> if y == to then to in was.links || from in was.links else y in was.links && y != from)
  }

  lemma SwappedRecord(c: Channel, from: int, to: int)
    requires from != to
    ensures NamedAnew(c, SwapChannel(c, from, to), from, to)
  {
  }

  /** Records are found under their new numbers, with what they name renamed. */
  lemma RenameDone(m: Mirror, from: int, to: int, x: int)
    requires Good(m) && from in m.channels && Unused(m, to) && !Joined(m.links, from, from) && x in m.channels
    ensures var n := Renamed(m, from, to);
      && NewName(x, from, to) in n.channels && from !in n.channels && n.counter == m.counter
      && n.channels[NewName(x, from, to)].id == NewName(x, from, to)
      && NamedAnew(m.channels[x], n.channels[NewName(x, from, to)], from, to)
  {
    RenameIsomorphicExactly(m, from, to);
    ImageAt(m.channels, from, to, NewName(x, from, to));
    ImageAt(m.channels, from, to, from);
    SwappedRecord(m.channels[x], from, to);
    assert Lists(m.channels, x);
  }

  lemma RenameKeys(m: Mirror, from: int, to: int, y: int)
    requires Good(m) && from in m.channels && Unused(m, to) && !Joined(m.links, from, from)
    ensures y in Renamed(m, from, to).channels <==> y == to || (y in m.channels && y != from)
  {
    RenameIsomorphicExactly(m, from, to);
    ImageAt(m.channels, from, to, y);
  }

  /** Taking a number out of a list without repeats takes out its place and keeps the order. */
  lemma {:induction false} FilterExactly(s: seq<int>, i: nat)
    requires NoRepeats(s) && i < |s|
    ensures Filter(s, s[i]) == s[..i] + s[i + 1..]
    decreases |s|
  {
    var front, last := s[..|s| - 1], s[|s| - 1];
    assert s == front + [last];
    if i < |front| {
      FilterExactly(front, i);
    } else {
      FilterKeeps(front, last);
    }
  }

  /** A removal takes out the subtree; of what stays, only the parent's list changes, by one place. */
  lemma RemoveDone(channels: map<int, Channel>, c: int, x: int)
    requires Listed(channels) && Rooted(channels) && c in channels && c != 0
    ensures var r := Removed(channels, c);
      && (x in r <==> x in channels && !Below(ParentLinks(channels), x, c))
      && (x in r ==>
            r[x].id == channels[x].id && r[x].name == channels[x].name && r[x].parent == channels[x].parent
            && r[x].links == channels[x].links)
      && (x in r && channels[c].parent != Some(x) ==> r[x].children == channels[x].children)
      && (x in r && channels[c].parent == Some(x) ==>
            exists i :: 0 <= i < |channels[x].children| && channels[x].children[i] == c
              && r[x].children == channels[x].children[..i] + channels[x].children[i + 1..])
  {
    RemovedAt(channels, c);
    var r := Removed(channels, c);
    if x in r && channels[c].parent == Some(x) {
      assert Lists(channels, x);
      assert c in channels[x].children;
      var i :| 0 <= i < |channels[x].children| && channels[x].children[i] == c;
      FilterExactly(channels[x].children, i);
    }
  }
}
