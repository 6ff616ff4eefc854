/**
 * The permission manager of packages/protocol/src/permission.ts, which Edges and clients use:
 * the Hub's fold behind another chain, another group check and a cache of its own.
 */
module ProtocolPermissions {
  import opened Wrappers
  import opened Forest
  import opened HubTree
  import opened AclFold
  import opened Permissions
  import opened Groups

  datatype Node = Node(id: int, parent: Option<int>, inheritAcl: bool)

  type Nodes = map<int, Node>

  function NodeLinks(nodes: Nodes): map<int, int> {
    map c <- nodes :: if nodes[c].parent.Some? then nodes[c].parent.value else -1
  }

  /** The chain stops at a channel without parent, or right below the root. */
  predicate Stops(parent: Option<int>) {
    parent == None || parent == Some(-1) || parent == Some(0)
  }

  ghost predicate NodeTree(nodes: Nodes) {
    Tree(NodeLinks(nodes)) && Stops(nodes[0].parent) && forall c <- nodes :: nodes[c].id == c
  }

  /** How far a channel object is from where its chain stops. */
  ghost function Rank(nodes: Nodes, channel: Node): nat {
    if Stops(channel.parent) || channel.parent.value !in nodes then 0 else 1 + |Above(NodeLinks(nodes), channel.parent.value)|
  }

  lemma NextNode(nodes: Nodes, channel: Node)
    requires NodeTree(nodes) && !Stops(channel.parent) && channel.parent.value in nodes
    ensures Rank(nodes, nodes[channel.parent.value]) < Rank(nodes, channel)
  {
    var c := channel.parent.value;
    if !Stops(nodes[c].parent) {
      ParentHasLessAbove(NodeLinks(nodes), c);
    }
  }

  /** The chain of a channel object, which need not be the tree's own record of that channel. */
  ghost function NodeChain(nodes: Nodes, channel: Node): (chain: seq<Node>)
    requires NodeTree(nodes)
    decreases Rank(nodes, channel)
  {
    if Stops(channel.parent) || channel.parent.value !in nodes then [channel] else
      NextNode(nodes, channel);
      NodeChain(nodes, nodes[channel.parent.value]) + [channel]
  }

  // ----- group membership -----

  /** The groups stored with the channels, by channel and name. */
  type StoredGroups = (int, string) -> Option<StoredGroup>

  predicate ProtocolMember(stored: StoredGroups, orig: int, ctx: int, group: string, user: User) {
    if group == "all" then true
    else if group == "auth" then user.userId > 0
    else if group == "in" then user.channel == Some(orig)
    else if group == "out" then user.channel != Some(orig)
    else if "$" <= group then user.certHash == Some(group[1..])
    else
      var said := Says(stored(ctx, group), user.userId);
      if said.Some? then said.value else group in user.groups
  }

  function ProtocolMembers(stored: StoredGroups): Membership {
    (orig, ctx, group, user) => ProtocolMember(stored, orig, ctx, group, user)
  }

  // ----- the answer and its cache -----

  datatype Local = Local(nodes: Nodes, acls: map<int, seq<Acl>>, members: Membership)

  function AclsAt(local: Local, c: int): seq<Acl> {
    if c in local.acls then local.acls[c] else []
  }

  function NodeLevel(local: Local, node: Node): Level {
    Level(node.id, node.inheritAcl, AclsAt(local, node.id))
  }

  function NodeLevels(local: Local, chain: seq<Node>): (levels: seq<Level>)
    ensures |levels| == |chain| && forall i :: 0 <= i < |chain| ==> levels[i] == NodeLevel(local, chain[i])
  {
    if chain == [] then [] else NodeLevels(local, chain[..|chain| - 1]) + [NodeLevel(local, chain[|chain| - 1])]
  }

  ghost function Answer(local: Local, user: User, channel: Node): Mask
    requires NodeTree(local.nodes)
  {
    if IsSuperUser(user) then if channel.id == 0 then ALL else ALL_SUB
    else Granted(local.members, channel.id, user, NodeLevels(local, NodeChain(local.nodes, channel)))
  }

  /** Cached results are the answers for the users behind the sessions. */
  ghost predicate Right(local: Local, who: int -> User, cache: ResultCache) {
    NodeTree(local.nodes) && forall k <- cache :: k.1 in local.nodes && cache[k] == Answer(local, who(k.0), local.nodes[k.1])
  }

  /** Replacing ACL lists and clearing every channel with one of them on its chain leaves only right results. */
  lemma ClearingKeepsRight(local: Local, acls: map<int, seq<Acl>>, changed: set<int>, cleared: set<int>,
                           who: int -> User, cache: ResultCache)
    requires Right(local, who, cache)
    requires forall x :: x !in changed ==> AclsAt(local.(acls := acls), x) == AclsAt(local, x)
    requires forall c <- local.nodes, node <- NodeChain(local.nodes, local.nodes[c]) :: node.id in changed ==> c in cleared
    ensures Right(local.(acls := acls), who, ClearedResults(cache, cleared))
  {
    var local' := local.(acls := acls);
    forall k | k in ClearedResults(cache, cleared)
      ensures cache[k] == Answer(local', who(k.0), local.nodes[k.1])
    {
      var c := k.1;
      forall node | node in NodeChain(local.nodes, local.nodes[c])
        ensures AclsAt(local, node.id) == AclsAt(local', node.id)
      {
        assert node.id in changed ==> c in cleared;
      }
      SameNodeLevels(local, local', NodeChain(local.nodes, local.nodes[c]));
    }
  }

  lemma {:induction false} SameNodeLevels(local: Local, other: Local, chain: seq<Node>)
    requires forall node <- chain :: AclsAt(local, node.id) == AclsAt(other, node.id)
    ensures NodeLevels(local, chain) == NodeLevels(other, chain)
  {
    if chain != [] {
      SameNodeLevels(local, other, chain[..|chain| - 1]);
    }
  }

  class PermissionManager {
    var aclCache: ResultCache

    constructor ()
      ensures aclCache == map[]
    {
      aclCache := map[];
    }

    ghost predicate CacheRight(local: Local, who: int -> User)
      reads this
    {
      Right(local, who, aclCache)
    }

    method BuildChannelChain(channel: Node, nodes: Nodes) returns (chain: seq<Node>)
      requires NodeTree(nodes)
      ensures chain == NodeChain(nodes, channel)
    {
      chain := [];
      var current := Some(channel);
      while current.Some?
        invariant NodeChain(nodes, channel) == (if current.Some? then NodeChain(nodes, current.value) else []) + chain
        decreases if current.Some? then Rank(nodes, current.value) + 1 else 0
      {
        var node := current.value;
        ghost var after := chain;
        chain := [node] + chain;
        if Stops(node.parent) {
          break;
        }
        if node.parent.value in nodes {
          NextNode(nodes, node);
          assert (NodeChain(nodes, nodes[node.parent.value]) + [node]) + after == NodeChain(nodes, nodes[node.parent.value]) + chain;
        }
        current := if node.parent.value in nodes then Some(nodes[node.parent.value]) else None;
      }
    }

    /**
     * The cached result of the session if there is one, else the uncached answer. So if all
     * sessions still have the users they were cached for, and callers pass the tree's own
     * records, the answer is the uncached one, whatever was asked and cleared before.
     */
    method CalculatePermission(channel: Node, user: User, local: Local) returns (granted: Mask)
      requires NodeTree(local.nodes)
      modifies this
      ensures granted ==
        if (user.session, channel.id) in old(aclCache) then old(aclCache)[(user.session, channel.id)] else Answer(local, user, channel)
      ensures aclCache == if (user.session, channel.id) in old(aclCache) || IsSuperUser(user) then old(aclCache)
                          else old(aclCache)[(user.session, channel.id) := granted]
      ensures channel.id in local.nodes && channel == local.nodes[channel.id] ==>
        forall who :: old(CacheRight(local, who)) && who(user.session) == user ==>
          CacheRight(local, who) && granted == Answer(local, user, channel)
    {
      var key := (user.session, channel.id);
      if key in aclCache {
        return aclCache[key];
      }
      if IsSuperUser(user) {
        return if channel.id == 0 then ALL else ALL_SUB;
      }
      var chain := BuildChannelChain(channel, local.nodes);
      granted := FoldNodes(channel.id, user, local, chain);
      aclCache := aclCache[key := granted];
    }

    method FoldNodes(orig: int, user: User, local: Local, chain: seq<Node>) returns (granted: Mask)
      ensures granted == Granted(local.members, orig, user, NodeLevels(local, chain))
    {
      ghost var levels := NodeLevels(local, chain);
      var g := Start();
      for i := 0 to |chain|
        invariant Walk(local.members, orig, user, levels[..i]) == Outcome(g, false)
      {
        assert levels[..i + 1][..i] == levels[..i];
        var ctx := chain[i];
        if !ctx.inheritAcl {
          g := g.(granted := DEFAULT);
        }
        g := FoldAcls(local.members, orig, user, Level(ctx.id, ctx.inheritAcl, AclsAt(local, ctx.id)), g);
        if !g.traverse && !g.write {
          CutStaysCut(local.members, orig, user, levels, i + 1);
          return {};
        }
      }
      assert levels[..|chain|] == levels;
      granted := g.granted;
    }

    method ClearCacheForUser(session: int)
      modifies this
      ensures forall local, who :: old(CacheRight(local, who)) ==> CacheRight(local, who)
      ensures aclCache == map k <- old(aclCache) | k.0 != session :: old(aclCache)[k]
    {
      aclCache := map k <- aclCache | k.0 != session :: aclCache[k];
    }

    method ClearCacheForChannel(c: int)
      modifies this
      ensures forall local, who :: old(CacheRight(local, who)) ==> CacheRight(local, who)
      ensures aclCache == ClearedResults(old(aclCache), {c}) == map k <- old(aclCache) | k.1 != c :: old(aclCache)[k]
    {
      aclCache := map k <- aclCache | k.1 !in {c} :: aclCache[k];
    }
  }
}
