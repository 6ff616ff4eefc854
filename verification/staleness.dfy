/**
 * What makes cached permissions of packages/hub-server/src/permission-checker.ts wrong: a moved
 * channel, of which the Hub clears only the entry itself, and a user who changes channel.
 */
module Staleness {
  import opened Wrappers
  import opened Forest
  import opened HubTree
  import opened AclFold
  import opened Permissions

  // ----- a blocked channel -----

  /** One ACL that shuts a group out of a channel and of all below it. */
  function Blocker(group: string): Acl {
    Acl(None, Some(group), true, true, {}, {TRAVERSE})
  }

  /** The ACL table with this ACL at one channel and nothing else. */
  function LoneAcl(acl: Acl, y: int): int -> seq<Acl> {
    x => if x == y then [acl] else []
  }

  function LoneEnv(channels: Channels, members: Membership, acl: Acl, y: int): Env {
    Env(channels, LoneAcl(acl, y), members)
  }

  function BlockEnv(channels: Channels, members: Membership, group: string, y: int): Env {
    LoneEnv(channels, members, Blocker(group), y)
  }

  predicate Shuts(acl: Acl) {
    acl.allow == {} && acl.deny == {TRAVERSE}
  }

  predicate Counts(members: Membership, orig: int, ctx: int, acl: Acl, user: User) {
    Applies(orig, ctx, acl) && Matches(members, orig, ctx, acl, user)
  }

  lemma LoneShuts(members: Membership, orig: int, ctx: int, acl: Acl, user: User, g: Grant)
    requires Shuts(acl)
    ensures ApplyAcls(members, orig, ctx, user, g, [acl])
      == if Counts(members, orig, ctx, acl, user) then Grant(g.granted - {TRAVERSE}, false, g.write) else g
  {
    assert [acl][..0] == [];
  }

  /** Down a chain with that channel, the walk is cut off if the ACL counts, and nothing else happens. */
  lemma {:induction false} LoneWalk(channels: Channels, members: Membership, acl: Acl, y: int, orig: int, user: User, chain: seq<int>)
    requires Shuts(acl) && forall x <- chain :: x in channels
    ensures LoneOutcome(Walk(members, orig, user, Levels(LoneEnv(channels, members, acl, y), chain)),
                        y in chain && Counts(members, orig, y, acl, user))
  {
    if chain == [] {
      assert Levels(LoneEnv(channels, members, acl, y), chain) == [];
    } else {
      var front, c := chain[..|chain| - 1], chain[|chain| - 1];
      assert chain == front + [c];
      LoneWalk(channels, members, acl, y, orig, user, front);
      LoneStep(channels, members, acl, y, orig, user, front, c);
    }
  }

  lemma LoneStep(channels: Channels, members: Membership, acl: Acl, y: int, orig: int, user: User, front: seq<int>, c: int)
    requires Shuts(acl) && (forall x <- front + [c] :: x in channels) && (forall x <- front :: x in channels)
    requires LoneOutcome(Walk(members, orig, user, Levels(LoneEnv(channels, members, acl, y), front)),
                         y in front && Counts(members, orig, y, acl, user))
    ensures LoneOutcome(Walk(members, orig, user, Levels(LoneEnv(channels, members, acl, y), front + [c])),
                        y in front + [c] && Counts(members, orig, y, acl, user))
  {
    StepDown(LoneEnv(channels, members, acl, y), orig, user, front, c);
    LoneLevel(channels, members, acl, y, orig, user, c);
  }

  /** Cut off, or as at the start. */
  predicate LoneOutcome(o: Outcome, cut: bool) {
    if cut then o.cut else o == Outcome(Start(), false)
  }

  /** What its channel makes of the start. */
  lemma LoneLevel(channels: Channels, members: Membership, acl: Acl, y: int, orig: int, user: User, c: int)
    requires Shuts(acl) && c in channels
    ensures var env := LoneEnv(channels, members, acl, y);
      var g := ApplyAcls(members, orig, c, user, Enter(Start(), LevelOf(env, c)), env.acls(c));
      g == if c == y && Counts(members, orig, y, acl, user) then Grant(DEFAULT - {TRAVERSE}, false, false) else Start()
  {
    if c == y {
      LoneShuts(members, orig, c, acl, user, Start());
    }
  }

  lemma LevelsSnoc(env: Env, front: seq<int>, c: int)
    requires forall x <- front + [c] :: x in env.channels
    ensures (forall x <- front :: x in env.channels) && c in env.channels
    ensures Levels(env, front + [c]) == Levels(env, front) + [LevelOf(env, c)]
  {
    assert forall x <- front :: x in front + [c];
    assert c in front + [c];
    assert (front + [c])[..|front|] == front;
  }

  lemma WalkSnoc(members: Membership, orig: int, user: User, levels: seq<Level>, level: Level)
    ensures var before := Walk(members, orig, user, levels);
      Walk(members, orig, user, levels + [level]) ==
      if before.cut then before else
        var g := ApplyAcls(members, orig, level.id, user, Enter(before.g, level), level.acls);
        Outcome(g, !g.traverse && !g.write)
  {
    assert (levels + [level])[..|levels|] == levels;
  }

  /** One channel further down. */
  lemma StepDown(env: Env, orig: int, user: User, front: seq<int>, c: int)
    requires forall x <- front + [c] :: x in env.channels
    ensures (forall x <- front :: x in env.channels) && c in env.channels
    ensures var before := Walk(env.members, orig, user, Levels(env, front));
      Walk(env.members, orig, user, Levels(env, front + [c])) ==
      if before.cut then before else
        var g := ApplyAcls(env.members, orig, c, user, Enter(before.g, LevelOf(env, c)), env.acls(c));
        Outcome(g, !g.traverse && !g.write)
  {
    LevelsSnoc(env, front, c);
    WalkSnoc(env.members, orig, user, Levels(env, front), LevelOf(env, c));
  }

  /** So the answer is nothing or the default. */
  lemma LoneAnswer(channels: Channels, members: Membership, acl: Acl, y: int, user: User, c: int)
    requires ChannelTree(channels) && c in channels && !IsSuperUser(user) && Shuts(acl)
    ensures Uncached(LoneEnv(channels, members, acl, y), user, c)
      == if y in Chain(channels, c) && Counts(members, c, y, acl, user) then {} else DEFAULT
  {
    LoneWalk(channels, members, acl, y, c, user, Chain(channels, c));
  }

  lemma BlockedAnswer(channels: Channels, members: Membership, group: string, y: int, user: User, c: int)
    requires ChannelTree(channels) && c in channels && !IsSuperUser(user) && group != ""
    ensures Uncached(BlockEnv(channels, members, group, y), user, c)
      == if y in Chain(channels, c) && members(c, y, group, user) then {} else DEFAULT
  {
    LoneAnswer(channels, members, Blocker(group), y, user, c);
  }

  // ----- when clearing the moved channel alone is enough -----

  /** Outside the subtree of c, what lies above a channel in it lies above the parent of c. */
  lemma AboveSubtree(p: map<int, int>, c: int, x: int, y: int)
    requires Tree(p) && c in p && c != 0 && Below(p, x, c) && !Below(p, y, c)
    ensures Below(p, x, y) <==> Below(p, p[c], y)
  {
    BelowStep(p, c, y);
    if Below(p, p[c], y) {
      BelowTransitive(p, x, c, y);
    }
    if Below(p, x, y) {
      var j: nat :| Up(p, x, j) == c;
      var k: nat :| Up(p, x, k) == y;
      if j <= k {
        UpAdds(p, x, j, k - j);
        assert Up(p, c, k - j) == y;
        BelowSelf(p, c);
      } else {
        UpAdds(p, x, k, j - k);
      }
    }
  }

  /** A move changes nothing above channels outside the moved subtree. */
  lemma AboveOutside(p: map<int, int>, c: int, parent: int, x: int, y: int)
    requires c in p && !Below(p, x, c)
    ensures Below(p[c := parent], x, y) <==> Below(p, x, y)
  {
    var q := p[c := parent];
    forall k: nat
      ensures Up(q, x, k) == Up(p, x, k)
    {
      ClimbAvoiding(p, q, c, x, k);
    }
  }

  lemma Antisymmetric(p: map<int, int>, a: int, b: int)
    requires Tree(p) && a in p && b in p && Below(p, a, b) && Below(p, b, a)
    ensures a == b
  {
    if a == 0 {
      if b != 0 {
        RootNotBelow(p, b);
      }
    } else if a != b {
      BelowStep(p, a, b);
      BelowTransitive(p, p[a], b, a);
      NoCycle(p, a);
    }
  }

  /** A channel that lies on exactly one of the old and the new chain of all that moves. */
  lemma OnOneChain(channels: Channels, c: int, parent: int) returns (y: int)
    requires ChannelTree(channels) && c in channels && c != 0 && ChannelTree(Moved(channels, c, parent))
    requires parent != channels[c].parent
    ensures y != 0 && forall x <- Subtree(Parents(channels), c) ::
      y in Chain(channels, x) <==> y !in Chain(Moved(channels, c, parent), x)
  {
    var p, moved := Parents(channels), Moved(channels, c, parent);
    assert Parents(moved) == p[c := parent];
    var from := p[c];
    assert p[c := parent][c] in p[c := parent];
    assert from in p && parent in p;
    MoveKeepsTree(p, c, parent);
    NoCycle(p, c);
    y := if parent != 0 && !Below(p, from, parent) then parent else from;
    ChosenWell(p, from, parent, y);
    forall x | x in Subtree(p, c)
      ensures y in Chain(channels, x) <==> y !in Chain(moved, x)
    {
      ChainsOfMoved(channels, c, parent, x, y);
    }
  }

  lemma ChosenWell(p: map<int, int>, from: int, parent: int, y: int)
    requires Tree(p) && from in p && parent in p && from != parent
    requires y == if parent != 0 && !Below(p, from, parent) then parent else from
    ensures y != 0 && (Below(p, from, y) <==> !Below(p, parent, y))
  {
    BelowSelf(p, y);
    if y == from {
      if Below(p, parent, from) {
        assert Below(p, from, parent);
        Antisymmetric(p, from, parent);
      }
      if from == 0 {
        RootNotBelow(p, parent);
      }
    }
  }

  lemma ChainsOfMoved(channels: Channels, c: int, parent: int, x: int, y: int)
    requires ChannelTree(channels) && c in channels && c != 0 && ChannelTree(Moved(channels, c, parent))
    requires x in Subtree(Parents(channels), c) && y in channels && y != 0 && !Below(Parents(channels), y, c)
    ensures y in Chain(channels, x) <==> Below(Parents(channels), channels[c].parent, y)
    ensures y in Chain(Moved(channels, c, parent), x) <==> Below(Parents(channels), parent, y)
  {
    var p, moved := Parents(channels), Moved(channels, c, parent);
    var q := Parents(moved);
    assert q == p[c := parent];
    assert parent in p by {
      assert q[c] in q;
    }
    RootNotBelow(p, c);
    ChainIsAncestry(channels, x, y);
    AboveSubtree(p, c, x, y);
    var k: nat :| Up(p, x, k) == c;
    BelowCut(p, q, c, x, k);
    AboveOutside(p, c, parent, y, c);
    AboveSubtree(q, c, x, y);
    MoveKeepsTree(p, c, parent);
    AboveOutside(p, c, parent, parent, y);
    ChainIsAncestry(moved, x, y);
  }

  /** Clearing the moved channel alone leaves only right results, whatever the ACLs, for results under these keys. */
  ghost predicate ClearingMovedSuffices(channels: Channels, lookup: GroupLookup, c: int, parent: int,
                                        who: int -> User, keys: set<(int, int)>)
    requires c in channels
  {
    forall acls: int -> seq<Acl>, results: ResultCache, lists: map<int, seq<Acl>> ::
      var env := Env(channels, acls, HubMembers(lookup));
      Correct(env, who, results, lists) && results.Keys == keys ==>
        Correct(env.(channels := Moved(channels, c, parent)), who, ClearedResults(results, {c}), lists - {c})
  }

  /** Every cached result below the moved channel is one of a superuser. */
  ghost predicate OnlySuperusersBelow(channels: Channels, c: int, who: int -> User, keys: set<(int, int)>) {
    forall k <- keys :: k.1 in Subtree(Parents(channels), c) && k.1 != c ==> IsSuperUser(who(k.0))
  }

  /** The results under some keys as they are cached when all is right. */
  ghost function RightResults(env: Env, who: int -> User, keys: set<(int, int)>): ResultCache
    requires ChannelTree(env.channels)
  {
    map k | k in keys :: Uncached(env, who(k.0), k.1)
  }

  /** One with another user below the moved channel can go stale. */
  lemma MoveCanFail(channels: Channels, lookup: GroupLookup, c: int, parent: int, who: int -> User,
                    keys: set<(int, int)>, k: (int, int))
    requires ChannelTree(channels) && c in channels && c != 0 && ChannelTree(Moved(channels, c, parent))
    requires parent != channels[c].parent && forall key <- keys :: key.1 in channels
    requires k in keys && k.1 in Subtree(Parents(channels), c) && k.1 != c && !IsSuperUser(who(k.0))
    ensures !ClearingMovedSuffices(channels, lookup, c, parent, who, keys)
  {
    var y := OnOneChain(channels, c, parent);
    var env, moved := BlockEnv(channels, HubMembers(lookup), "all", y), Moved(channels, c, parent);
    var results, lists: map<int, seq<Acl>> := RightResults(env, who, keys), map[];
    EveryoneInAll(lookup, k.1, y, who(k.0));
    AnswerFlips(channels, moved, HubMembers(lookup), "all", y, who(k.0), k.1);
    assert Correct(env, who, results, lists) && results.Keys == keys;
    var left := ClearedResults(results, {c});
    assert k in left && left[k] == results[k];
    assert !Correct(env.(channels := moved), who, left, lists - {c});
  }

  /** A channel on one of the two chains, with everybody shut out of it, makes the answers differ. */
  lemma AnswerFlips(channels: Channels, moved: Channels, members: Membership, group: string, y: int, user: User, x: int)
    requires ChannelTree(channels) && ChannelTree(moved) && x in channels && x in moved && !IsSuperUser(user)
    requires group != "" && members(x, y, group, user)
    requires y in Chain(channels, x) <==> y !in Chain(moved, x)
    ensures Uncached(BlockEnv(channels, members, group, y), user, x) != Uncached(BlockEnv(moved, members, group, y), user, x)
  {
    BlockedAnswer(channels, members, group, y, user, x);
    BlockedAnswer(moved, members, group, y, user, x);
    assert TRAVERSE in DEFAULT;
  }

  lemma EveryoneInAll(lookup: GroupLookup, orig: int, ctx: int, user: User)
    ensures HubMembers(lookup)(orig, ctx, "all", user)
  {
  }

  /** Clearing the moved channel alone is enough when only superusers have results below it. */
  lemma MoveKeepsCaches(env: Env, c: int, parent: int, who: int -> User, results: ResultCache, lists: map<int, seq<Acl>>)
    requires Correct(env, who, results, lists)
    requires c in env.channels && c != 0 && ChannelTree(Moved(env.channels, c, parent))
    requires OnlySuperusersBelow(env.channels, c, who, results.Keys)
    ensures Correct(env.(channels := Moved(env.channels, c, parent)), who, ClearedResults(results, {c}), lists - {c})
  {
    var env' := env.(channels := Moved(env.channels, c, parent));
    forall k | k in ClearedResults(results, {c})
      ensures results[k] == Uncached(env', who(k.0), k.1)
    {
      if k.1 !in Subtree(Parents(env.channels), c) {
        MoveChangesOnlySubtree(env, c, parent, who(k.0), k.1);
      }
    }
  }

  /**
   * After a move the Hub clears the moved channel alone. For a move to another parent that is
   * enough, whatever the ACLs are, exactly when all results cached below that channel are
   * those of superusers.
   */
  lemma MoveKeepsCachesExactly(channels: Channels, lookup: GroupLookup, c: int, parent: int,
                               who: int -> User, keys: set<(int, int)>)
    requires ChannelTree(channels) && c in channels && c != 0 && ChannelTree(Moved(channels, c, parent))
    requires parent != channels[c].parent && forall k <- keys :: k.1 in channels
    ensures ClearingMovedSuffices(channels, lookup, c, parent, who, keys) <==> OnlySuperusersBelow(channels, c, who, keys)
  {
    if OnlySuperusersBelow(channels, c, who, keys) {
      forall acls: int -> seq<Acl>, results: ResultCache, lists: map<int, seq<Acl>>
        | Correct(Env(channels, acls, HubMembers(lookup)), who, results, lists) && results.Keys == keys
        ensures Correct(Env(Moved(channels, c, parent), acls, HubMembers(lookup)), who, ClearedResults(results, {c}), lists - {c})
      {
        MoveKeepsCaches(Env(channels, acls, HubMembers(lookup)), c, parent, who, results, lists);
      }
    } else {
      var k :| k in keys && k.1 in Subtree(Parents(channels), c) && k.1 != c && !IsSuperUser(who(k.0));
      MoveCanFail(channels, lookup, c, parent, who, keys, k);
    }
  }

  function StaleChannels(): Channels {
    map[0 := Row("Root", -1, true), 1 := Row("a", 2, true), 2 := Row("b", 0, true), 3 := Row("c", 1, true)]
  }

  lemma StaleTrees()
    ensures ChannelTree(StaleChannels()) && ChannelTree(Moved(StaleChannels(), 1, 0))
  {
    forall parent | parent == 2 || parent == 0
      ensures ChannelTree(Moved(StaleChannels(), 1, parent))
    {
      var p := Parents(Moved(StaleChannels(), 1, parent));
      BelowSelf(p, 0);
      BelowStep(p, 2, 0);
      BelowStep(p, 1, 0);
      BelowStep(p, 3, 0);
    }
    assert Moved(StaleChannels(), 1, 2) == StaleChannels();
  }

  lemma StaleChains()
    requires ChannelTree(StaleChannels()) && ChannelTree(Moved(StaleChannels(), 1, 0))
    ensures Chain(StaleChannels(), 3) == [2, 1, 3] && Chain(Moved(StaleChannels(), 1, 0), 3) == [1, 3]
  {
    var moved := Moved(StaleChannels(), 1, 0);
    assert Chain(StaleChannels(), 2) == [2] && Chain(StaleChannels(), 1) == [2, 1];
    assert Chain(moved, 1) == [1];
  }

  lemma StaleAnswers(members: Membership, group: string, user: User)
    requires !IsSuperUser(user) && ChannelTree(StaleChannels()) && ChannelTree(Moved(StaleChannels(), 1, 0))
    requires group != "" && members(3, 2, group, user)
    ensures Uncached(BlockEnv(StaleChannels(), members, group, 2), user, 3) == {}
    ensures Uncached(BlockEnv(Moved(StaleChannels(), 1, 0), members, group, 2), user, 3) == DEFAULT
  {
    StaleChains();
    BlockedAnswer(StaleChannels(), members, group, 2, user, 3);
    BlockedAnswer(Moved(StaleChannels(), 1, 0), members, group, 2, user, 3);
  }

  /**
   * Channel 2 shuts everybody out of all below it; channel 1 moves out from under it. The answer
   * for channel 3 under 1 becomes the default, and the empty one that is cached for it stays.
   */
  lemma MoveLeavesStaleResult(lookup: GroupLookup, user: User)
    requires !IsSuperUser(user)
    ensures var env := BlockEnv(StaleChannels(), HubMembers(lookup), "all", 2);
      var moved := env.(channels := Moved(env.channels, 1, 0));
      var cache: ResultCache := map[(user.session, 3) := {}];
      && ChannelTree(env.channels) && ChannelTree(moved.channels)
      && Correct(env, _ => user, cache, map[]) && !Correct(moved, _ => user, ClearedResults(cache, {1}), map[])
      && Uncached(moved, user, 3) == DEFAULT
  {
    StaleTrees();
    EveryoneInAll(lookup, 3, 2, user);
    StaleAnswers(HubMembers(lookup), "all", user);
    var env := BlockEnv(StaleChannels(), HubMembers(lookup), "all", 2);
    var moved := env.(channels := Moved(env.channels, 1, 0));
    var cache: ResultCache := map[(user.session, 3) := {}];
    assert (user.session, 3) in ClearedResults(cache, {1}) && TRAVERSE in DEFAULT;
  }

  // ----- a user who changes channel -----

  /** Two users alike to every ACL get the same walk. */
  lemma {:induction false} WalkSameUser(members: Membership, orig: int, a: User, b: User, levels: seq<Level>)
    requires a.userId == b.userId && forall ctx, group :: members(orig, ctx, group, a) == members(orig, ctx, group, b)
    ensures Walk(members, orig, a, levels) == Walk(members, orig, b, levels)
  {
    if levels != [] {
      var front, level := levels[..|levels| - 1], levels[|levels| - 1];
      WalkSameUser(members, orig, a, b, front);
      AclsSameUser(members, orig, level.id, a, b, Enter(Walk(members, orig, a, front).g, level), level.acls);
    }
  }

  lemma AclsSameUser(members: Membership, orig: int, ctx: int, a: User, b: User, g: Grant, acls: seq<Acl>)
    requires a.userId == b.userId && forall group :: members(orig, ctx, group, a) == members(orig, ctx, group, b)
    ensures ApplyAcls(members, orig, ctx, a, g, acls) == ApplyAcls(members, orig, ctx, b, g, acls)
  {
  }

  /** The answer for a channel stays, whatever the ACLs are, when its user goes to another channel. */
  ghost predicate AnswerStays(channels: Channels, lookup: GroupLookup, user: User, to: Option<int>, c: int)
    requires ChannelTree(channels)
  {
    forall acls: int -> seq<Acl> ::
      var env := Env(channels, acls, HubMembers(lookup)); Uncached(env, user, c) == Uncached(env, user.(channel := to), c)
  }

  /**
   * Results stay cached when a user changes channel, though the groups "in" and "out" depend on
   * it. They stay right, whatever the ACLs are, exactly for superusers, and for channels that
   * the user neither enters nor leaves.
   */
  lemma ChannelChangeExactly(channels: Channels, lookup: GroupLookup, user: User, to: Option<int>, c: int)
    requires ChannelTree(channels) && c in channels
    ensures AnswerStays(channels, lookup, user, to, c) <==> IsSuperUser(user) || (user.channel == Some(c) <==> to == Some(c))
  {
    var other := user.(channel := to);
    if IsSuperUser(user) || (user.channel == Some(c) <==> to == Some(c)) {
      forall acls: int -> seq<Acl>
        ensures var env := Env(channels, acls, HubMembers(lookup)); Uncached(env, user, c) == Uncached(env, other, c)
      {
        if !IsSuperUser(user) {
          var env := Env(channels, acls, HubMembers(lookup));
          WalkSameUser(env.members, c, user, other, Levels(env, Chain(channels, c)));
        }
      }
    } else {
      ThoseInside(lookup, c, user);
      ThoseInside(lookup, c, other);
      GroupDecides(channels, HubMembers(lookup), "in", c, user, other);
      var env := BlockEnv(channels, HubMembers(lookup), "in", c);
      assert env == Env(channels, env.acls, HubMembers(lookup));
    }
  }

  lemma ThoseInside(lookup: GroupLookup, c: int, user: User)
    ensures HubMembers(lookup)(c, c, "in", user) <==> user.channel == Some(c)
  {
  }

  /** A group shut out of a channel makes the answers differ for one who is in it and one who is not. */
  lemma GroupDecides(channels: Channels, members: Membership, group: string, c: int, a: User, b: User)
    requires ChannelTree(channels) && c in channels && group != "" && !IsSuperUser(a) && !IsSuperUser(b)
    requires members(c, c, group, a) != members(c, c, group, b)
    ensures var env := BlockEnv(channels, members, group, c);
      Uncached(env, a, c) == (if members(c, c, group, a) then {} else DEFAULT)
      && Uncached(env, b, c) == (if members(c, c, group, b) then {} else DEFAULT) && Uncached(env, a, c) != Uncached(env, b, c)
  {
    BlockedAnswer(channels, members, group, c, a, c);
    BlockedAnswer(channels, members, group, c, b, c);
    assert c in Chain(channels, c) && TRAVERSE in DEFAULT;
  }

  /** The group "in" is shut out of channel 3: a user who leaves it could come back, but the cache says no. */
  lemma LeavingLeavesStaleResult(lookup: GroupLookup, user: User)
    requires !IsSuperUser(user) && user.channel == Some(3)
    ensures var env := BlockEnv(StaleChannels(), HubMembers(lookup), "in", 3);
      ChannelTree(env.channels) && Uncached(env, user, 3) == {} && Uncached(env, user.(channel := Some(0)), 3) == DEFAULT
  {
    StaleTrees();
    ThoseInside(lookup, 3, user);
    ThoseInside(lookup, 3, user.(channel := Some(0)));
    GroupDecides(StaleChannels(), HubMembers(lookup), "in", 3, user, user.(channel := Some(0)));
  }
}
