/**
 * Permission queries of packages/hub-server/src/permission-checker.ts: the chain of
 * channels that counts, and the result caches in front of the fold.
 */
module Permissions {
  import opened Wrappers
  import opened Forest
  import opened HubTree
  import opened AclFold

  /** All channels at or above x. */
  ghost function Above(p: map<int, int>, x: int): set<int> {
    set a <- p | Below(p, x, a)
  }

  /** In a channel table only the root lacks a listed parent. */
  lemma ParentListed(channels: Channels, x: int)
    requires ChannelTree(channels) && x in channels
    ensures channels[x].parent in channels <==> x != 0
  {
    assert x in Parents(channels);
    assert channels[x].parent in channels ==> channels[x].parent in Parents(channels);
  }

  lemma ParentHasLessAbove(p: map<int, int>, x: int)
    requires Tree(p) && x in p && x != 0
    ensures |Above(p, p[x])| < |Above(p, x)|
  {
    BelowSelf(p, x);
    NoCycle(p, x);
    forall a | a in Above(p, p[x])
      ensures a in Above(p, x)
    {
      BelowStep(p, x, a);
    }
    assert x in Above(p, x) && x !in Above(p, p[x]);
    SmallerSet(Above(p, p[x]), Above(p, x));
  }

  /** The chain from the top-level channel down to c; it stops below the root. */
  ghost function Chain(channels: Channels, c: int): (chain: seq<int>)
    requires ChannelTree(channels) && c in channels
    ensures forall x <- chain :: x in channels
    decreases |Above(Parents(channels), c)|
  {
    var parent := channels[c].parent;
    if parent == -1 || parent == 0 || parent !in channels then [c] else
      ParentListed(channels, c);
      ParentHasLessAbove(Parents(channels), c);
      Chain(channels, parent) + [c]
  }

  function InfoAt(channels: Channels, c: int): Info
    requires c in channels
  {
    Info(c, channels[c].parent, channels[c].inheritAcl)
  }

  /** The chain with what the checker knows of each channel. */
  ghost function InfoChain(channels: Channels, c: int): (infos: seq<Info>)
    requires ChannelTree(channels) && c in channels
    ensures |infos| == |Chain(channels, c)|
    ensures forall i :: 0 <= i < |infos| ==> infos[i] == InfoAt(channels, Chain(channels, c)[i])
    decreases |Above(Parents(channels), c)|
  {
    var parent := channels[c].parent;
    if parent == -1 || parent == 0 || parent !in channels then [InfoAt(channels, c)] else
      ParentListed(channels, c);
      ParentHasLessAbove(Parents(channels), c);
      InfoChain(channels, parent) + [InfoAt(channels, c)]
  }

  lemma ChainExtends(above: seq<Info>, info: Info, chain: seq<Info>)
    requires chain != [] && chain[0] == info
    ensures (above + [info]) + chain[1..] == above + chain
  {
  }

  /** The chain of c is c and the channels above it, without the root unless c is the root. */
  lemma {:induction false} ChainIsAncestry(channels: Channels, c: int, x: int)
    requires ChannelTree(channels) && c in channels
    ensures x in Chain(channels, c) <==> x in channels && Below(Parents(channels), c, x) && (x != 0 || c == 0)
    decreases |Above(Parents(channels), c)|
  {
    var p, parent := Parents(channels), channels[c].parent;
    BelowSelf(p, c);
    ParentListed(channels, c);
    if c != 0 {
      BelowStep(p, c, x);
      if parent == 0 {
        if x != 0 {
          RootNotBelow(p, x);
        }
      } else {
        ParentHasLessAbove(p, c);
        ChainIsAncestry(channels, parent, x);
      }
    } else if x != 0 {
      RootNotBelow(p, x);
    }
  }

  /** The chain goes down from parent to child, starts at the top level, ends with c, and has no channel twice. */
  lemma {:induction false} ChainOrdered(channels: Channels, c: int)
    requires ChannelTree(channels) && c in channels
    ensures var chain := Chain(channels, c);
      && chain != [] && chain[|chain| - 1] == c
      && (if c == 0 then chain == [0] else channels[chain[0]].parent == 0)
      && (forall i :: 0 < i < |chain| ==> channels[chain[i]].parent == chain[i - 1])
      && (forall i, j :: 0 <= i < j < |chain| ==> chain[i] != chain[j])
    decreases |Above(Parents(channels), c)|
  {
    var parent := channels[c].parent;
    ParentListed(channels, c);
    if parent != 0 && c != 0 {
      ParentHasLessAbove(Parents(channels), c);
      ChainOrdered(channels, parent);
      ChainIsAncestry(channels, parent, c);
      NoCycle(Parents(channels), c);
      var above := Chain(channels, parent);
      assert forall i :: 0 <= i < |above| ==> above[i] in above;
    }
  }

  // ----- the uncached answer -----

  datatype Env = Env(channels: Channels, acls: int -> seq<Acl>, members: Membership)

  function LevelOf(env: Env, c: int): Level
    requires c in env.channels
  {
    Level(c, env.channels[c].inheritAcl, env.acls(c))
  }

  ghost function Levels(env: Env, chain: seq<int>): (levels: seq<Level>)
    requires forall x <- chain :: x in env.channels
    ensures |levels| == |chain| && forall i :: 0 <= i < |chain| ==> levels[i] == LevelOf(env, chain[i])
  {
    if chain == [] then [] else Levels(env, chain[..|chain| - 1]) + [LevelOf(env, chain[|chain| - 1])]
  }

  ghost function Uncached(env: Env, user: User, c: int): Mask
    requires ChannelTree(env.channels)
  {
    if c !in env.channels then {}
    else if IsSuperUser(user) then if c == 0 then ALL else ALL_SUB
    else Granted(env.members, c, user, Levels(env, Chain(env.channels, c)))
  }

  /** Only the ACLs of the channels on the chain matter. */
  lemma OnlyTheChainMatters(env: Env, acls: int -> seq<Acl>, user: User, c: int)
    requires ChannelTree(env.channels)
    requires c in env.channels ==> forall x <- Chain(env.channels, c) :: acls(x) == env.acls(x)
    ensures Uncached(env.(acls := acls), user, c) == Uncached(env, user, c)
  {
    if c in env.channels {
      var chain := Chain(env.channels, c);
      SameLevels(env, env.(acls := acls), chain);
    }
  }

  lemma {:induction false} SameLevels(env: Env, other: Env, chain: seq<int>)
    requires forall x <- chain :: x in env.channels && x in other.channels && LevelOf(env, x) == LevelOf(other, x)
    ensures Levels(env, chain) == Levels(other, chain)
  {
    if chain != [] {
      SameLevels(env, other, chain[..|chain| - 1]);
    }
  }

  /** In particular the root's ACLs never matter to any other channel. */
  lemma RootAclsDoNotReachDown(env: Env, acls: int -> seq<Acl>, user: User, c: int)
    requires ChannelTree(env.channels) && c != 0
    requires forall x :: x != 0 ==> acls(x) == env.acls(x)
    ensures Uncached(env.(acls := acls), user, c) == Uncached(env, user, c)
  {
    if c in env.channels {
      ChainIsAncestry(env.channels, c, 0);
    }
    OnlyTheChainMatters(env, acls, user, c);
  }

  // ----- the caches -----

  type ResultCache = map<(int, int), Mask>

  /** Cached results are those of the users behind the sessions, on existing channels. */
  ghost predicate Correct(env: Env, who: int -> User, results: ResultCache, lists: map<int, seq<Acl>>)
  {
    && ChannelTree(env.channels)
    && (forall k <- results :: k.1 in env.channels && results[k] == Uncached(env, who(k.0), k.1))
    && (forall c <- lists :: c in env.channels && lists[c] == env.acls(c))
  }

  /** The caches after `clearCacheForChannel` for every channel of a set. */
  function ClearedResults(results: ResultCache, cleared: set<int>): ResultCache {
    map k <- results | k.1 !in cleared :: results[k]
  }

  /**
   * Replacing the ACL lists of some channels changes answers only for channels with one of
   * them on the chain; clearing those channels makes the caches agree with the new lists.
   */
  lemma ClearingRestores(env: Env, acls: int -> seq<Acl>, changed: set<int>, cleared: set<int>,
                         who: int -> User, results: ResultCache, lists: map<int, seq<Acl>>)
    requires Correct(env, who, results, lists)
    requires forall x :: x !in changed ==> acls(x) == env.acls(x)
    requires forall c <- env.channels, x <- Chain(env.channels, c) :: x in changed ==> c in cleared
    ensures Correct(env.(acls := acls), who, ClearedResults(results, cleared), lists - cleared)
  {
    var env' := env.(acls := acls);
    forall k | k in ClearedResults(results, cleared)
      ensures results[k] == Uncached(env', who(k.0), k.1)
    {
      OnlyTheChainMatters(env, acls, who(k.0), k.1);
    }
    forall c | c in lists && c !in cleared
      ensures lists[c] == acls(c)
    {
      assert c in Chain(env.channels, c);
    }
  }

  // ----- creating and removing channels -----

  /** A table that is part of another one, each a tree, has the same chains. */
  lemma {:induction false} ChainWithin(small: Channels, big: Channels, x: int)
    requires ChannelTree(small) && ChannelTree(big) && x in small
    requires forall y <- small :: y in big && small[y] == big[y]
    ensures Chain(small, x) == Chain(big, x)
    decreases |Above(Parents(small), x)|
  {
    var up := small[x].parent;
    ParentListed(small, x);
    ParentListed(big, x);
    if !(up == -1 || up == 0 || up !in small) {
      ParentHasLessAbove(Parents(small), x);
      ChainWithin(small, big, up);
    }
  }

  /** So its channels have the same answers in both. */
  lemma AnswerWithin(small: Env, big: Env, user: User, x: int)
    requires ChannelTree(small.channels) && ChannelTree(big.channels) && x in small.channels
    requires forall y <- small.channels :: y in big.channels && small.channels[y] == big.channels[y]
    requires small.acls == big.acls && small.members == big.members
    ensures Uncached(small, user, x) == Uncached(big, user, x)
  {
    ChainWithin(small.channels, big.channels, x);
    SameLevels(small, big, Chain(small.channels, x));
  }

  lemma CreationKeepsCorrect(env: Env, id: int, row: Row, who: int -> User, results: ResultCache, lists: map<int, seq<Acl>>)
    requires Correct(env, who, results, lists) && id !in env.channels && ChannelTree(env.channels[id := row])
    ensures Correct(env.(channels := env.channels[id := row]), who, results, lists)
  {
    var env' := env.(channels := env.channels[id := row]);
    forall k | k in results
      ensures results[k] == Uncached(env', who(k.0), k.1)
    {
      AnswerWithin(env, env', who(k.0), k.1);
    }
  }

  /** Removing a subtree with its cache entries leaves only right ones: the other chains do not pass through it. */
  lemma RemovalKeepsCorrect(env: Env, gone: set<int>, who: int -> User, results: ResultCache, lists: map<int, seq<Acl>>)
    requires Correct(env, who, results, lists) && ChannelTree(env.channels - gone)
    ensures Correct(env.(channels := env.channels - gone), who, ClearedResults(results, gone), lists - gone)
  {
    var env' := env.(channels := env.channels - gone);
    forall k | k in ClearedResults(results, gone)
      ensures results[k] == Uncached(env', who(k.0), k.1)
    {
      AnswerWithin(env', env, who(k.0), k.1);
    }
  }

  // ----- moving a channel -----

  ghost function Moved(channels: Channels, c: int, parent: int): Channels
    requires c in channels
  {
    channels[c := channels[c].(parent := parent)]
  }

  lemma {:induction false} ChainOutside(channels: Channels, c: int, parent: int, x: int)
    requires ChannelTree(channels) && c in channels && c != 0 && ChannelTree(Moved(channels, c, parent))
    requires x in channels && !Below(Parents(channels), x, c)
    ensures Chain(Moved(channels, c, parent), x) == Chain(channels, x)
    decreases |Above(Parents(channels), x)|
  {
    BelowSelf(Parents(channels), x);
    ParentListed(channels, x);
    ParentListed(Moved(channels, c, parent), x);
    var up := channels[x].parent;
    if !(up == -1 || up == 0 || up !in channels) {
      ParentHasLessAbove(Parents(channels), x);
      BelowStep(Parents(channels), x, c);
      ChainOutside(channels, c, parent, up);
    }
  }

  /** A move changes answers only at the moved channel and below it. */
  lemma MoveChangesOnlySubtree(env: Env, c: int, parent: int, user: User, x: int)
    requires ChannelTree(env.channels) && c in env.channels && c != 0 && ChannelTree(Moved(env.channels, c, parent))
    requires x !in Subtree(Parents(env.channels), c)
    ensures Uncached(env.(channels := Moved(env.channels, c, parent)), user, x) == Uncached(env, user, x)
  {
    if x in env.channels {
      var env' := env.(channels := Moved(env.channels, c, parent));
      var chain := Chain(env.channels, x);
      ChainOutside(env.channels, c, parent, x);
      forall y | y in chain
        ensures LevelOf(env, y) == LevelOf(env', y)
      {
      }
      SameLevels(env, env', chain);
    }
  }

  // ----- the class -----

  /** Write implies every permission but speak and whisper. */
  predicate Grants(granted: Mask, permission: nat) {
    permission in granted || (WRITE in granted && permission != SPEAK && permission != WHISPER)
  }

  class AclTable {
    var acls: int -> seq<Acl>

    constructor (acls: int -> seq<Acl>)
      ensures this.acls == acls
    {
      this.acls := acls;
    }
  }

  class HubAclChecker {
    const tree: HubPermissionChecker  // the channel cache of the same checker
    const table: AclTable
    const lookup: GroupLookup
    var aclCache: ResultCache
    var channelACLCache: map<int, seq<Acl>>

    constructor (tree: HubPermissionChecker, table: AclTable, lookup: GroupLookup)
      ensures this.tree == tree && this.table == table && this.lookup == lookup
      ensures aclCache == map[] && channelACLCache == map[]
    {
      this.tree, this.table, this.lookup := tree, table, lookup;
      aclCache, channelACLCache := map[], map[];
    }

    ghost function Environment(): Env
      reads this, tree, tree.db, table
    {
      Env(tree.db.channels, table.acls, HubMembers(lookup))
    }

    /** What every answer rests on: the channels cached are the table's, and so are the ACL lists. */
    ghost predicate ListsCorrect()
      reads this, tree, tree.db, table
    {
      && CacheCorrect(tree.channelTreeCache, tree.db.channels) && ChannelTree(tree.db.channels)
      && forall c <- channelACLCache :: c in tree.db.channels && channelACLCache[c] == table.acls(c)
    }

    /** Besides, the cached results are those of the users who are behind the sessions now. */
    ghost predicate CachesCorrect(who: int -> User)
      reads this, tree, tree.db, table
    {
      CacheCorrect(tree.channelTreeCache, tree.db.channels) && Correct(Environment(), who, aclCache, channelACLCache)
    }

    method GetChannelACLs(c: int) returns (acls: seq<Acl>)
      requires ListsCorrect() && c in tree.db.channels
      modifies this`channelACLCache
      ensures ListsCorrect() && acls == table.acls(c)
    {
      if c in channelACLCache {
        return channelACLCache[c];
      }
      acls := table.acls(c);
      channelACLCache := channelACLCache[c := acls];
    }

    method BuildChannelChain(channel: Info) returns (chain: seq<Info>)
      requires CacheCorrect(tree.channelTreeCache, tree.db.channels) && ChannelTree(tree.db.channels)
      requires channel.id in tree.db.channels && channel == InfoAt(tree.db.channels, channel.id)
      modifies tree`channelTreeCache
      ensures CacheCorrect(tree.channelTreeCache, tree.db.channels)
      ensures chain == InfoChain(tree.db.channels, channel.id)
    {
      ghost var channels := tree.db.channels;
      chain := [];
      var current := Some(channel);
      while current.Some?
        invariant CacheCorrect(tree.channelTreeCache, channels)
        invariant current.Some? ==> current.value.id in channels && current.value == InfoAt(channels, current.value.id)
        invariant InfoChain(channels, channel.id)
          == (if current.Some? then InfoChain(channels, current.value.id) else []) + chain
        decreases if current.Some? then |Above(Parents(channels), current.value.id)| + 1 else 0
      {
        var info := current.value;
        chain := [info] + chain;
        if info.parent == -1 || info.parent == 0 {
          break;
        }
        ParentListed(channels, info.id);
        if info.parent in channels {
          ParentHasLessAbove(Parents(channels), info.id);
          ChainExtends(InfoChain(channels, info.parent), info, chain);
        }
        current := tree.GetChannelInfo(info.parent);
      }
    }

    /**
     * The cached result of the session if there is one, else the uncached answer for the user as
     * described now. So if all sessions still have the users they were cached for, the answer is
     * the uncached one, whatever was asked and cleared before.
     */
    method CalculatePermission(c: int, user: User) returns (granted: Mask)
      requires ListsCorrect()
      modifies this, tree`channelTreeCache
      ensures ListsCorrect()
      ensures granted == if (user.session, c) in old(aclCache) then old(aclCache)[(user.session, c)] else Uncached(Environment(), user, c)
      ensures aclCache == if (user.session, c) in old(aclCache) || c !in tree.db.channels then old(aclCache)
                          else old(aclCache)[(user.session, c) := granted]
      ensures forall who :: old(CachesCorrect(who)) && who(user.session) == user ==>
        CachesCorrect(who) && granted == Uncached(Environment(), user, c)
    {
      if (user.session, c) in aclCache {
        return aclCache[(user.session, c)];
      }
      granted := Compute(c, user);
    }

    /** A result that is not cached yet, and caching it. */
    method Compute(c: int, user: User) returns (granted: Mask)
      requires ListsCorrect() && (user.session, c) !in aclCache
      modifies this, tree`channelTreeCache
      ensures ListsCorrect() && granted == Uncached(Environment(), user, c)
      ensures aclCache == if c !in tree.db.channels then old(aclCache) else old(aclCache)[(user.session, c) := granted]
    {
      var channel := tree.GetChannelInfo(c);
      if channel.None? {
        return {};
      }
      if IsSuperUser(user) {
        granted := if c == 0 then ALL else ALL_SUB;
      } else {
        var chain := BuildChannelChain(channel.value);
        granted := FoldChain(c, user, chain);
      }
      aclCache := aclCache[(user.session, c) := granted];
    }

    /** Down the chain, loading each channel's ACLs on the way, with the early exit. */
    method FoldChain(c: int, user: User, chain: seq<Info>) returns (granted: Mask)
      requires ListsCorrect() && c in tree.db.channels
      requires chain == InfoChain(tree.db.channels, c)
      modifies this`channelACLCache
      ensures ListsCorrect()
      ensures granted == Granted(HubMembers(lookup), c, user, Levels(Environment(), Chain(tree.db.channels, c)))
    {
      ghost var levels := Levels(Environment(), Chain(tree.db.channels, c));
      var g := Start();
      for i := 0 to |chain|
        invariant ListsCorrect()
        invariant Walk(HubMembers(lookup), c, user, levels[..i]) == Outcome(g, false)
      {
        assert levels[..i + 1][..i] == levels[..i];
        var ctx := chain[i];
        if !ctx.inheritAcl {
          g := g.(granted := DEFAULT);
        }
        var acls := GetChannelACLs(ctx.id);
        g := FoldAcls(HubMembers(lookup), c, user, Level(ctx.id, ctx.inheritAcl, acls), g);
        if !g.traverse && !g.write {
          CutStaysCut(HubMembers(lookup), c, user, levels, i + 1);
          return {};
        }
      }
      assert levels[..|chain|] == levels;
      granted := g.granted;
    }

    /** +write stands in for every permission but speak and whisper. */
    method HasPermission(c: int, user: User, permission: nat) returns (has: bool)
      requires ListsCorrect()
      modifies this, tree`channelTreeCache
      ensures ListsCorrect()
      ensures has <==>
        Grants(if (user.session, c) in old(aclCache) then old(aclCache)[(user.session, c)] else Uncached(Environment(), user, c), permission)
      ensures forall who :: old(CachesCorrect(who)) && who(user.session) == user ==>
        CachesCorrect(who) && (has <==> Grants(Uncached(Environment(), user, c), permission))
    {
      var granted := CalculatePermission(c, user);
      assert forall bit, bits: Mask :: bit in bits && bit in granted ==> bit in granted * bits;
      if permission != SPEAK && permission != WHISPER {
        has := granted * {permission, WRITE} != {};
      } else {
        has := granted * {permission} != {};
      }
    }

    method ClearCache()
      requires ChannelTree(tree.db.channels)
      modifies this, tree`channelTreeCache
      ensures ListsCorrect() && aclCache == map[] && channelACLCache == map[] && tree.channelTreeCache == map[]
      ensures forall who :: CachesCorrect(who)
    {
      aclCache, channelACLCache := map[], map[];
      tree.channelTreeCache := map[];
    }

    method ClearCacheForUser(session: int)
      modifies this`aclCache
      ensures forall who :: old(CachesCorrect(who)) ==> CachesCorrect(who)
      ensures aclCache == map k <- old(aclCache) | k.0 != session :: old(aclCache)[k]
    {
      aclCache := map k <- aclCache | k.0 != session :: aclCache[k];
    }

    method ClearCacheForChannel(c: int)
      modifies this, tree`channelTreeCache
      ensures aclCache == ClearedResults(old(aclCache), {c}) == map k <- old(aclCache) | k.1 != c :: old(aclCache)[k]
      ensures channelACLCache == old(channelACLCache) - {c} && tree.channelTreeCache == old(tree.channelTreeCache) - {c}
      ensures forall who :: old(CachesCorrect(who)) ==> CachesCorrect(who)
    {
      aclCache := map k <- aclCache | k.1 !in {c} :: aclCache[k];
      channelACLCache := channelACLCache - {c};
      tree.ClearCacheForChannel(c);
    }
  }
}
