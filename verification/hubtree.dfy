/**
 * The Hub's channel table and the tree part of packages/hub-server/src/permission-checker.ts:
 * the cached parent links and the check against circular moves.
 */
module HubTree {
  import opened Wrappers
  import opened Forest

  datatype Row = Row(name: string, parent: int, inheritAcl: bool)

  datatype Info = Info(id: int, parent: int, inheritAcl: bool)

  type Channels = map<int, Row>

  function Parents(channels: Channels): map<int, int> {
    map x <- channels :: channels[x].parent
  }

  /** The channel tables that the Hub keeps: trees whose root has no parent. */
  ghost predicate ChannelTree(channels: Channels) {
    Tree(Parents(channels)) && channels[0].parent < 0
  }

  ghost predicate CacheCorrect(cache: map<int, Info>, channels: Channels) {
    forall c <- cache :: c in channels && cache[c] == Info(c, channels[c].parent, channels[c].inheritAcl)
  }

  // ----- the circular-move check on any parent links, cyclic ones included -----

  /** The k-th value of `current` when climbing from x; 0 once the climb has left the table. */
  function Climb(p: map<int, int>, x: int, k: nat): int
    decreases k
  {
    if k == 0 then x else if x > 0 && x in p then Climb(p, p[x], k - 1) else 0
  }

  /** The climb from the new parent meets the channel, or never ends. */
  ghost predicate Circular(p: map<int, int>, channel: int, newParent: int) {
    || channel == newParent
    || (channel > 0 && exists k: nat :: Climb(p, newParent, k) == channel)
    || (forall k: nat :: Climb(p, newParent, k) > 0)
  }

  lemma {:induction false} ClimbAdds(p: map<int, int>, x: int, j: nat, k: nat)
    ensures Climb(p, Climb(p, x, j), k) == Climb(p, x, j + k) || (Climb(p, x, j) <= 0 && Climb(p, x, j + k) <= 0)
    decreases j
  {
    if j > 0 && x > 0 && x in p {
      ClimbAdds(p, p[x], j - 1, k);
    }
  }

  lemma ClimbEnded(p: map<int, int>, x: int, j: nat, k: nat)
    requires Climb(p, x, j) <= 0 && j <= k
    ensures Climb(p, x, k) <= 0
  {
    ClimbAdds(p, x, j, k - j);
  }

  /** A climb that meets a channel a second time never ends. */
  lemma {:induction false} ClimbRepeats(p: map<int, int>, x: int, i: nat, k: nat, m: nat)
    requires i < k && Climb(p, x, i) == Climb(p, x, k)
    requires forall n: nat :: n <= k ==> Climb(p, x, n) > 0
    ensures Climb(p, x, m) > 0
    decreases m
  {
    if m > k {
      ClimbRepeats(p, x, i, k, m - k + i);
      ClimbAdds(p, x, k, m - k);
      ClimbAdds(p, x, i, m - k);
    }
  }

  lemma {:induction false} ClimbFollowsUp(p: map<int, int>, x: int, c: int, k: nat)
    requires Tree(p) && c > 0 && Up(p, x, k) == c && x in p
    ensures exists j: nat :: Climb(p, x, j) == c
    decreases k
  {
    if x == c {
      assert Climb(p, x, 0) == c;
    } else {
      ClimbFollowsUp(p, p[x], c, k - 1);
      var j: nat :| Climb(p, p[x], j) == c;
      assert Climb(p, x, j + 1) == c;
    }
  }

  lemma {:induction false} UpFollowsClimb(p: map<int, int>, x: int, c: int, k: nat)
    requires c > 0 && Climb(p, x, k) == c
    ensures Below(p, x, c)
    decreases k
  {
    BelowSelf(p, x);
    if k > 0 {
      UpFollowsClimb(p, p[x], c, k - 1);
      BelowStep(p, x, c);
    }
  }

  lemma {:induction false} ClimbLeavesTree(p: map<int, int>, x: int, k: nat) returns (j: nat)
    requires Tree(p) && x in p && Up(p, x, k) == 0
    ensures Climb(p, x, j) <= 0
    decreases k
  {
    if x == 0 {
      j := 0;
    } else {
      j := ClimbLeavesTree(p, p[x], k - 1);
      j := j + 1;
    }
  }

  /** On a tree the check finds exactly the moves under the channel itself or below it. */
  lemma CircularOnTree(p: map<int, int>, channel: int, newParent: int)
    requires Tree(p) && channel > 0
    ensures Circular(p, channel, newParent) <==> Below(p, newParent, channel)
  {
    BelowSelf(p, newParent);
    if exists k: nat :: Climb(p, newParent, k) == channel {
      var k: nat :| Climb(p, newParent, k) == channel;
      UpFollowsClimb(p, newParent, channel, k);
    }
    if newParent in p {
      var k: nat :| Up(p, newParent, k) == 0;
      var j := ClimbLeavesTree(p, newParent, k);
    } else {
      assert Climb(p, newParent, 1) == 0;
    }
    if Below(p, newParent, channel) && newParent in p {
      var k: nat :| Up(p, newParent, k) == channel;
      ClimbFollowsUp(p, newParent, channel, k);
    }
  }

  /** For the root the check misses: every channel is below it, yet no move is found circular. */
  lemma RootNotDetected(p: map<int, int>, newParent: int)
    requires Tree(p) && newParent in p
    ensures Circular(p, 0, newParent) <==> newParent == 0
    ensures Below(p, newParent, 0)
  {
    var k: nat :| Up(p, newParent, k) == 0;
    var j := ClimbLeavesTree(p, newParent, k);
  }

  // ----- the database and the checker -----

  class HubDatabase {
    var channels: Channels
    var nextId: int  // ids are never used again

    constructor (rootName: string)
      ensures channels == map[0 := Row(rootName, -1, true)] && nextId == 1
    {
      channels := map[0 := Row(rootName, -1, true)];
      nextId := 1;
    }

    method CreateChannel(row: Row) returns (id: int)
      modifies this
      ensures id == old(nextId) && nextId == id + 1 && channels == old(channels)[id := row]
    {
      id := nextId;
      channels := channels[id := row];
      nextId := nextId + 1;
    }

    method UpdateChannel(id: int, name: Option<string>, parent: Option<int>)
      modifies this`channels
      ensures channels == Updated(old(channels), id, name, parent)
    {
      if id in channels {
        if name.Some? {
          channels := channels[id := channels[id].(name := name.value)];
        }
        if parent.Some? {
          channels := channels[id := channels[id].(parent := parent.value)];
        }
      }
    }

    /** The root cannot be deleted: the original throws. */
    method DeleteChannel(id: int) returns (ok: bool)
      modifies this`channels
      ensures (ok <==> id != 0) && channels == if id == 0 then old(channels) else old(channels) - {id}
    {
      if id == 0 {
        return false;
      }
      channels := channels - {id};
      return true;
    }

    /** The rows under a parent, in some order of position. */
    method GetChildChannels(parent: int) returns (ids: seq<int>)
      ensures forall x :: x in ids <==> x in channels && channels[x].parent == parent
      ensures forall i, j :: 0 <= i < j < |ids| ==> ids[i] != ids[j]
    {
      ids := [];
      var rest := set x <- channels | channels[x].parent == parent;
      ghost var all := rest;
      while rest != {}
        invariant rest <= all
        invariant forall x :: x in ids <==> x in all - rest
        invariant forall i, j :: 0 <= i < j < |ids| ==> ids[i] != ids[j]
        decreases |rest|
      {
        NotEmpty(rest);
        var x :| x in rest;
        ids := ids + [x];
        rest := rest - {x};
      }
    }
  }

  function Updated(channels: Channels, id: int, name: Option<string>, parent: Option<int>): Channels {
    if id !in channels then channels else
      var row := channels[id];
      channels[id := Row(if name.Some? then name.value else row.name,
                         if parent.Some? then parent.value else row.parent, row.inheritAcl)]
  }

  /** A sibling other than `exclude` has the name, up to letter case. */
  ghost predicate Duplicate(channels: Channels, fold: string -> string, parent: int, name: string, exclude: Option<int>) {
    exists x <- channels :: channels[x].parent == parent && Some(x) != exclude && fold(channels[x].name) == fold(name)
  }

  class HubPermissionChecker {
    const db: HubDatabase
    const fold: string -> string  // toLowerCase
    var channelTreeCache: map<int, Info>

    constructor (db: HubDatabase, fold: string -> string)
      ensures this.db == db && this.fold == fold && CacheCorrect(channelTreeCache, db.channels)
    {
      this.db := db;
      this.fold := fold;
      channelTreeCache := map[];
    }

    method GetChannelInfo(id: int) returns (info: Option<Info>)
      requires CacheCorrect(channelTreeCache, db.channels)
      modifies this`channelTreeCache
      ensures CacheCorrect(channelTreeCache, db.channels)
      ensures info == if id in db.channels then Some(Info(id, db.channels[id].parent, db.channels[id].inheritAcl)) else None
    {
      if id in channelTreeCache {
        return Some(channelTreeCache[id]);
      }
      if id !in db.channels {
        return None;
      }
      var row := db.channels[id];
      channelTreeCache := channelTreeCache[id := Info(id, row.parent, row.inheritAcl)];
      return Some(channelTreeCache[id]);
    }

    method ClearCacheForChannel(id: int)
      modifies this`channelTreeCache
      ensures channelTreeCache == old(channelTreeCache) - {id}
    {
      channelTreeCache := channelTreeCache - {id};
    }

    /** Terminates on any parent links; the climb through the cache is the climb through the table. */
    method HasCircularReference(channelId: int, newParentId: int) returns (circular: bool)
      requires CacheCorrect(channelTreeCache, db.channels)
      modifies this`channelTreeCache
      ensures CacheCorrect(channelTreeCache, db.channels)
      ensures circular <==> Circular(Parents(db.channels), channelId, newParentId)
    {
      if channelId == newParentId {
        return true;
      }
      ghost var p, k := Parents(db.channels), 0 as nat;
      var current, visited := newParentId, {};
      while current > 0
        invariant CacheCorrect(channelTreeCache, db.channels)
        invariant current == Climb(p, newParentId, k)
        invariant visited <= p.Keys
        invariant forall v <- visited :: exists i: nat :: i < k && Climb(p, newParentId, i) == v
        invariant forall i: nat :: i < k ==> Climb(p, newParentId, i) > 0 && Climb(p, newParentId, i) != channelId
        decreases |p.Keys - visited|
      {
        if current in visited {
          ghost var i: nat :| i < k && Climb(p, newParentId, i) == current;
          forall m: nat
            ensures Climb(p, newParentId, m) > 0
          {
            ClimbRepeats(p, newParentId, i, k, m);
          }
          return true;
        }
        visited := visited + {current};
        if current == channelId {
          return true;
        }
        var info := GetChannelInfo(current);
        ClimbAdds(p, newParentId, k, 1);
        if info.None? || info.value.parent <= 0 {
          Missed(p, channelId, newParentId, k + 1);
          return false;
        }
        assert p.Keys - visited < p.Keys - (visited - {current});
        current := info.value.parent;
        k := k + 1;
      }
      Missed(p, channelId, newParentId, k);
      return false;
    }

    lemma Missed(p: map<int, int>, channel: int, newParent: int, k: nat)
      requires channel != newParent && Climb(p, newParent, k) <= 0
      requires forall i: nat :: i < k ==> Climb(p, newParent, i) != channel
      ensures !Circular(p, channel, newParent)
    {
      forall m: nat | m >= k
        ensures Climb(p, newParent, m) <= 0
      {
        ClimbEnded(p, newParent, k, m);
      }
    }

    method HasDuplicateSiblingName(parent: int, name: string, exclude: Option<int>) returns (duplicate: bool)
      ensures duplicate <==> Duplicate(db.channels, fold, parent, name, exclude)
    {
      var siblings := db.GetChildChannels(parent);
      assert forall j :: 0 <= j < |siblings| ==> siblings[j] in siblings;
      for i := 0 to |siblings|
        invariant forall j :: 0 <= j < |siblings| ==> siblings[j] in db.channels
        invariant forall j :: 0 <= j < i ==> Some(siblings[j]) == exclude || fold(db.channels[siblings[j]].name) != fold(name)
      {
        if Some(siblings[i]) == exclude {
          continue;
        }
        if fold(db.channels[siblings[i]].name) == fold(name) {
          ghost var x := siblings[i];
          assert x in siblings && db.channels[x].parent == parent && Some(x) != exclude;
          return true;
        }
      }
      forall x | x in db.channels && db.channels[x].parent == parent && Some(x) != exclude
        ensures fold(db.channels[x].name) != fold(name)
      {
        assert x in siblings;
        var j :| 0 <= j < |siblings| && siblings[j] == x;
      }
      return false;
    }
  }
}
