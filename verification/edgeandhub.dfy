/**
 * Permissions on an Edge (packages/protocol/src/permission.ts) beside those on the Hub
 * (packages/hub-server/src/permission-checker.ts and channel-group-manager.ts): when the two
 * group checks agree, and when the answers do.
 */
module EdgeAndHub {
  import opened Wrappers
  import opened Forest
  import opened HubTree
  import opened AclFold
  import opened Permissions
  import opened Staleness
  import opened Groups
  import opened ProtocolPermissions

  // ----- the group checks, for any lookup and any stored groups -----

  predicate Special(group: string) {
    group == "all" || group == "auth" || group == "in" || group == "out" || "$" <= group
  }

  predicate ChecksAgree(lookup: GroupLookup, stored: StoredGroups, orig: int, ctx: int, group: string, user: User) {
    GroupMember(lookup, orig, ctx, group, user) == ProtocolMember(stored, orig, ctx, group, user)
  }

  /**
   * Where the two group checks agree. On special groups, always. On a token, when the Edge, which
   * takes the whole name for a group's, is told by the stored group, or else by the user's own
   * groups, what the user's tokens tell the Hub. On any other group, when it is told so what the
   * lookup tells the Hub, or, if the lookup fails, unless the stored group contradicts the
   * user's own groups.
   */
  lemma ChecksAgreeExactly(lookup: GroupLookup, stored: StoredGroups, orig: int, ctx: int, group: string, user: User)
    ensures var said, own := Says(stored(ctx, group), user.userId), group in user.groups;
      var known := lookup(ctx, group, user.userId);
      ChecksAgree(lookup, stored, orig, ctx, group, user) <==>
        if Special(group) then true
        else if "#" <= group then (if group[1..] in user.groups then said == Some(true) || (said == None && own)
                                   else said == Some(false) || (said == None && !own))
        else match known
          case None => said != Some(!own)
          case Some(member) => said == Some(member) || (said == None && own == member)
  {
  }

  /** With no groups stored on the Edge: a group's members are missed unless their own groups name it. */
  lemma NothingStoredExactly(lookup: GroupLookup, orig: int, ctx: int, group: string, user: User)
    requires !Special(group) && !("#" <= group)
    ensures var own, known := group in user.groups, lookup(ctx, group, user.userId);
      ChecksAgree(lookup, (c, name) => None, orig, ctx, group, user) <==> known.None? || known.value == own
  {
    ChecksAgreeExactly(lookup, (c, name) => None, orig, ctx, group, user);
  }

  // ----- both checks on one tree and one set of definitions -----

  /** What the Hub's lookup finds: the loaded group of that name, whose members are all there are. */
  ghost function LoadedLookup(p: map<int, int>, groups: int -> seq<GroupDef>): GroupLookup
    requires Tree(p)
  {
    (c, name, u) => Some(c in p && u in FoldMembers(PathColumn(p, groups, c, name)))
  }

  /** Which is what the loading of the groups of that channel leaves. */
  lemma LookupLoads(p: map<int, int>, groups: int -> seq<GroupDef>, c: int, name: string, u: int)
    requires Tree(p) && c in p && forall x :: DistinctNames(groups(x))
    ensures var loaded := Lookup(Load(Rows(p, groups, c)), name);
      LoadedLookup(p, groups)(c, name, u) == Some(loaded.Some? && u in loaded.value.members)
  {
    BothByColumn(p, groups, c, name);
  }

  /** What is stored with the channels once the recursive calculation has updated them. */
  ghost function StoredOnEdge(p: map<int, int>, groups: int -> seq<GroupDef>): StoredGroups
    requires Tree(p)
  {
    (c, name) => match Find(groups(c), name)
      case None => None
      case Some(g) => Some(Stored(if c in p then GroupMembers(p, Named(groups, name), c) else {}, g))
  }

  /**
   * Both checks of an ordinary group at a channel c, from the same definitions. Where c does not
   * define it, they agree when the user's own groups name it exactly if the user is a member by
   * inheritance. Where c does: for a user added there, unless c removes the user too; for one
   * just removed there, always; for others, if the recursion makes them members, or if their own
   * groups name it exactly when they are members across a gap.
   */
  lemma DefinedChecksExactly(p: map<int, int>, groups: int -> seq<GroupDef>, orig: int, c: int, name: string, user: User)
    requires Tree(p) && c in p && forall x :: DistinctNames(groups(x))
    requires !Special(name) && !("#" <= name)
    ensures var column, u, own := PathColumn(p, groups, c, name), user.userId, name in user.groups;
      ChecksAgree(LoadedLookup(p, groups), StoredOnEdge(p, groups), orig, c, name, user) <==>
        match Find(groups(c), name)
        case None => own <==> exists j: nat :: Joins(Defs(column), j, u)
        case Some(g) =>
          if u in g.add then u !in g.remove
          else if u in g.remove then true
          else u in GroupMembers(p, Named(groups, name), c) || (own <==> AcrossGap(column, u))
  {
    ChecksAgreeExactly(LoadedLookup(p, groups), StoredOnEdge(p, groups), orig, c, name, user);
    HubIsTold(p, groups, c, name, user.userId);
    EdgeIsTold(p, groups, c, name, user.userId);
  }

  /** What the Hub's lookup says of a user. */
  lemma HubIsTold(p: map<int, int>, groups: int -> seq<GroupDef>, c: int, name: string, u: int)
    requires Tree(p) && c in p && forall x :: DistinctNames(groups(x))
    ensures var column := PathColumn(p, groups, c, name);
      LoadedLookup(p, groups)(c, name, u) == Some(match Find(groups(c), name)
        case None => exists j: nat :: Joins(Defs(column), j, u)
        case Some(g) => if u in g.add || u in g.remove then u !in g.remove
                        else u in GroupMembers(p, Named(groups, name), c) || AcrossGap(column, u))
  {
    var column := PathColumn(p, groups, c, name);
    BothByColumn(p, groups, c, name);
    MembersExactly(column, u);
    AcrossGapExactly(column, u);
    ColumnEnds(p, groups, c, name);
    LastDecides(column, u);
  }

  /** What the group stored on the Edge says of a user. */
  lemma EdgeIsTold(p: map<int, int>, groups: int -> seq<GroupDef>, c: int, name: string, u: int)
    requires Tree(p) && c in p
    ensures Says(StoredOnEdge(p, groups)(c, name), u) == match Find(groups(c), name)
      case None => None
      case Some(g) => if u in g.add then Some(true) else if u in g.remove then Some(false)
                      else if u in GroupMembers(p, Named(groups, name), c) then Some(true) else None
  {
  }

  lemma ColumnEnds(p: map<int, int>, groups: int -> seq<GroupDef>, c: int, name: string)
    requires Tree(p) && c in p
    ensures var column := PathColumn(p, groups, c, name); column != [] && column[|column| - 1] == Find(groups(c), name)
  {
    MembersAlongHierarchy(p, Named(groups, name), c);
  }

  /** A user whom the last definition adds or removes is decided by it, in the fold and in the recursion. */
  lemma LastDecides(column: seq<Option<GroupDef>>, u: int)
    requires column != []
    ensures column[|column| - 1].None? ==> u !in Members(column)
    ensures column[|column| - 1].Some? ==> var g := column[|column| - 1].value;
      (u in g.add || u in g.remove ==>
        (u in FoldMembers(column) <==> u !in g.remove) && (u in Members(column) <==> u !in g.remove))
  {
  }

  // ----- inputs on which the checks differ -----

  function Lone(u: int, groups: seq<string>): User {
    User(1, u, None, None, groups)
  }

  lemma RootTree()
    ensures Tree(map[0 := -1])
  {
    BelowSelf(map[0 := -1], 0);
  }

  /** The root's group "vip" has user 7 as a member; an Edge whose records carry no groups denies it. */
  lemma MemberMissed()
    ensures var p, groups := map[0 := -1], (x: int) => [GroupDef("vip", true, true, [7], [])];
      Tree(p) && GroupMember(LoadedLookup(p, groups), 0, 0, "vip", Lone(7, []))
      && !ProtocolMember((c, name) => None, 0, 0, "vip", Lone(7, []))
  {
    RootTree();
    var p, groups := map[0 := -1], (x: int) => [GroupDef("vip", true, true, [7], [])];
    OrdinaryName("vip", 'v');
    RootColumn(groups, "vip", GroupDef("vip", true, true, [7], []));
    LastDecides(PathColumn(p, groups, 0, "vip"), 7);
  }

  /** User 7 is both added and removed: the Hub denies, the Edge allows. */
  lemma RemovedMemberKept()
    ensures var p, groups := map[0 := -1], (x: int) => [GroupDef("vip", true, true, [7], [7])];
      Tree(p) && !GroupMember(LoadedLookup(p, groups), 0, 0, "vip", Lone(7, []))
      && ProtocolMember(StoredOnEdge(p, groups), 0, 0, "vip", Lone(7, []))
  {
    RootTree();
    var p, groups := map[0 := -1], (x: int) => [GroupDef("vip", true, true, [7], [7])];
    var g := GroupDef("vip", true, true, [7], [7]);
    OrdinaryName("vip", 'v');
    RootColumn(groups, "vip", g);
    LastDecides(PathColumn(p, groups, 0, "vip"), 7);
    assert g.add[0] == 7 && g.remove[0] == 7;
    DefinedChecksExactly(p, groups, 0, 0, "vip", Lone(7, []));
  }

  /** Nor does the Edge know a member across a gap: 7 joins at the root, channel 1 lacks the group, 2 has it. */
  lemma GapMemberMissed()
    ensures var p, groups := map[0 := -1, 1 := 0, 2 := 1], GapGroups();
      Tree(p) && GroupMember(LoadedLookup(p, groups), 2, 2, "vip", Lone(7, []))
      && !ProtocolMember(StoredOnEdge(p, groups), 2, 2, "vip", Lone(7, []))
  {
    var p, groups := map[0 := -1, 1 := 0, 2 := 1], GapGroups();
    var add, g := GroupDef("vip", true, true, [7], []), GroupDef("vip", true, true, [], []);
    BelowSelf(p, 0);
    BelowStep(p, 1, 0);
    BelowStep(p, 2, 0);
    OrdinaryName("vip", 'v');
    assert Hierarchy(p, 0) == [0] && Hierarchy(p, 1) == [0, 1] && Hierarchy(p, 2) == [0, 1, 2];
    assert Find(groups(0), "vip") == Some(add) && Find(groups(1), "vip") == None && Find(groups(2), "vip") == Some(g);
    assert PathColumn(p, groups, 2, "vip") == [Some(add), None, Some(g)];
    ShortGap(g, add, 7);
    MembersAlongHierarchy(p, Named(groups, "vip"), 2);
  }

  function GapGroups(): int -> seq<GroupDef> {
    x => if x == 0 then [GroupDef("vip", true, true, [7], [])] else if x == 2 then [GroupDef("vip", true, true, [], [])] else []
  }

  lemma ShortGap(g: GroupDef, add: GroupDef, u: int)
    requires g.inherit && g.inheritable && g.add == [] == g.remove && add.inheritable && u in add.add && u !in add.remove
    ensures var column := [Some(add), None, Some(g)]; u in FoldMembers(column) && u !in Members(column)
  {
    var column, two, one := [Some(add), None, Some(g)], [Some(add), None], [Some(add)];
    assert column[..2] == two && two[..1] == one && one[..0] == [];
    assert Fold(one) == Some(FullGroup(add, Effective({}, add)));
    assert Fold(two) == Fold(one);
  }

  lemma RootColumn(groups: int -> seq<GroupDef>, name: string, g: GroupDef)
    requires Tree(map[0 := -1]) && groups(0) == [g] && g.name == name
    ensures Find(groups(0), name) == Some(g) && PathColumn(map[0 := -1], groups, 0, name) == [Some(g)]
  {
    assert Hierarchy(map[0 := -1], 0) == [0];
  }

  lemma OrdinaryName(name: string, first: char)
    requires name != "" && name[0] == first && first !in "aio$#"
    ensures !Special(name) && !("#" <= name)
  {
    var dollar, hash, all, auth, in_, out := "$", "#", "all", "auth", "in", "out";
    assert "aio$#"[0] == 'a' && "aio$#"[1] == 'i' && "aio$#"[2] == 'o' && "aio$#"[3] == '$' && "aio$#"[4] == '#';
    assert dollar[0] == '$' && hash[0] == '#' && all[0] == 'a' && auth[0] == 'a' && in_[0] == 'i' && out[0] == 'o';
  }

  /** A group that no channel defines: the Hub denies it, the Edge finds it among the user's own. */
  lemma OwnGroupsDiffer()
    ensures var p, groups := map[0 := -1], (x: int) => [];
      Tree(p) && !GroupMember(LoadedLookup(p, groups), 0, 0, "vip", Lone(7, ["vip"]))
      && ProtocolMember(StoredOnEdge(p, groups), 0, 0, "vip", Lone(7, ["vip"]))
  {
    RootTree();
    var p, groups: int -> seq<GroupDef> := map[0 := -1], (x: int) => [];
    OrdinaryName("vip", 'v');
    assert Hierarchy(p, 0) == [0] && Find(groups(0), "vip") == None;
    var column := PathColumn(p, groups, 0, "vip");
    assert |column| == 1 && column[0] == None;
    assert column[..0] == [];
  }

  /** A token group: the Hub looks for the token, the Edge for a group of that whole name. */
  lemma TokensDiffer(lookup: GroupLookup)
    ensures GroupMember(lookup, 0, 0, "#vip", Lone(7, ["vip"]))
      && !ProtocolMember((c, name) => None, 0, 0, "#vip", Lone(7, ["vip"]))
  {
    var group, dollar := "#vip", "$";
    assert group[0] == '#' && dollar[0] == '$' && group[1..] == "vip" && "#" <= group;
  }

  // ----- the answers -----

  /** The Edge sees the Hub's channels and ACLs. */
  ghost predicate SameTable(local: Local, env: Env) {
    && SameChannels(local.nodes, env.channels)
    && forall c <- local.nodes :: AclsAt(local, c) == env.acls(c)
  }

  ghost predicate SameChannels(nodes: Nodes, channels: Channels) {
    && NodeTree(nodes) && ChannelTree(channels) && nodes.Keys == channels.Keys && channels[0].parent == -1
    && forall c <- nodes :: SameRow(nodes[c], channels[c])
  }

  predicate SameRow(node: Node, row: Row) {
    node.inheritAcl == row.inheritAcl && node.parent == if row.parent == -1 then None else Some(row.parent)
  }

  lemma {:induction false} SameChain(nodes: Nodes, channels: Channels, c: int)
    requires SameChannels(nodes, channels) && c in nodes
    ensures var chain, ids := NodeChain(nodes, nodes[c]), Chain(channels, c);
      |chain| == |ids| && forall i :: 0 <= i < |ids| ==> ids[i] in nodes && chain[i] == nodes[ids[i]]
    decreases Rank(nodes, nodes[c])
  {
    var node := nodes[c];
    assert SameRow(node, channels[c]);
    if !Stops(node.parent) && node.parent.value in nodes {
      NextNode(nodes, node);
      SameChain(nodes, channels, node.parent.value);
    }
  }

  /** Two memberships tell the same of the group that an ACL names, if the ACL counts at all. */
  predicate AlikeFor(a: Membership, b: Membership, orig: int, ctx: int, acl: Acl, user: User) {
    Applies(orig, ctx, acl) && acl.group.Some? && acl.group.value != "" ==>
      a(orig, ctx, acl.group.value, user) == b(orig, ctx, acl.group.value, user)
  }

  lemma {:induction false} AclsAlike(a: Membership, b: Membership, orig: int, ctx: int, user: User, g: Grant, acls: seq<Acl>)
    requires forall acl <- acls :: AlikeFor(a, b, orig, ctx, acl, user)
    ensures ApplyAcls(a, orig, ctx, user, g, acls) == ApplyAcls(b, orig, ctx, user, g, acls)
  {
    if acls != [] {
      AclsAlike(a, b, orig, ctx, user, g, acls[..|acls| - 1]);
      var acl := acls[|acls| - 1];
      assert acl in acls && AlikeFor(a, b, orig, ctx, acl, user);
    }
  }

  lemma {:induction false} WalkAlike(a: Membership, b: Membership, orig: int, user: User, levels: seq<Level>)
    requires forall level <- levels, acl <- level.acls :: AlikeFor(a, b, orig, level.id, acl, user)
    ensures Walk(a, orig, user, levels) == Walk(b, orig, user, levels)
  {
    if levels != [] {
      var front, level := levels[..|levels| - 1], levels[|levels| - 1];
      WalkAlike(a, b, orig, user, front);
      assert level in levels;
      AclsAlike(a, b, orig, level.id, user, Enter(Walk(a, orig, user, front).g, level), level.acls);
    }
  }

  lemma SameLevelsBoth(local: Local, env: Env, c: int)
    requires SameTable(local, env) && c in local.nodes
    ensures NodeLevels(local, NodeChain(local.nodes, local.nodes[c])) == Levels(env, Chain(env.channels, c))
  {
    SameChain(local.nodes, env.channels, c);
    var a, b := NodeLevels(local, NodeChain(local.nodes, local.nodes[c])), Levels(env, Chain(env.channels, c));
    forall i | 0 <= i < |a|
      ensures a[i] == b[i]
    {
      assert SameRow(local.nodes[b[i].id], env.channels[b[i].id]);
    }
  }

  /**
   * With the Hub's channels and ACLs an Edge gives a superuser the Hub's answer, and anybody else
   * if the two tell the same of the user for the groups that the ACLs on the chain name.
   */
  lemma EdgeAnswersAsHub(local: Local, env: Env, user: User, c: int)
    requires SameTable(local, env) && c in local.nodes
    requires !IsSuperUser(user) ==> forall x <- Chain(env.channels, c), acl <- env.acls(x) ::
      AlikeFor(local.members, env.members, c, x, acl, user)
    ensures Answer(local, user, local.nodes[c]) == Uncached(env, user, c)
  {
    if !IsSuperUser(user) {
      SameLevelsBoth(local, env, c);
      var chain := Chain(env.channels, c);
      var levels := Levels(env, chain);
      forall level, acl | level in levels && acl in level.acls
        ensures AlikeFor(local.members, env.members, c, level.id, acl, user)
      {
        var i :| 0 <= i < |levels| && levels[i] == level;
        assert chain[i] in chain;
      }
      WalkAlike(local.members, env.members, c, user, levels);
    }
  }

  /** The Edge's copy of the ACLs. */
  function Copied(channels: Channels, acls: int -> seq<Acl>): map<int, seq<Acl>> {
    map x <- channels :: acls(x)
  }

  /** The Edge's answer is the Hub's, whatever the ACLs are. */
  ghost predicate AnswersAgree(nodes: Nodes, channels: Channels, lookup: GroupLookup, stored: StoredGroups, user: User, c: int)
    requires SameChannels(nodes, channels) && c in nodes
  {
    forall acls: int -> seq<Acl> :: AnswersAgreeFor(nodes, channels, lookup, stored, user, c, acls)
  }

  ghost predicate AnswersAgreeFor(nodes: Nodes, channels: Channels, lookup: GroupLookup, stored: StoredGroups,
                                  user: User, c: int, acls: int -> seq<Acl>)
    requires SameChannels(nodes, channels) && c in nodes
  {
    Answer(Local(nodes, Copied(channels, acls), ProtocolMembers(stored)), user, nodes[c])
      == Uncached(Env(channels, acls, HubMembers(lookup)), user, c)
  }

  /** The two checks agree at every channel of the chain. */
  ghost predicate ChainChecksAgree(channels: Channels, lookup: GroupLookup, stored: StoredGroups, user: User, c: int)
    requires ChannelTree(channels) && c in channels
  {
    forall x <- Chain(channels, c), group: string :: group != "" ==> ChecksAgree(lookup, stored, c, x, group, user)
  }

  /** One disagreement on the chain, and an ACL that shuts that group out, make the answers differ. */
  lemma OneDisagreement(nodes: Nodes, channels: Channels, lookup: GroupLookup, stored: StoredGroups,
                        user: User, c: int, x: int, group: string)
    requires SameChannels(nodes, channels) && c in nodes && !IsSuperUser(user)
    requires x in Chain(channels, c) && group != "" && !ChecksAgree(lookup, stored, c, x, group, user)
    ensures !AnswersAgree(nodes, channels, lookup, stored, user, c)
  {
    var hub, edge := BlockEnv(channels, HubMembers(lookup), group, x), BlockEnv(channels, ProtocolMembers(stored), group, x);
    BlockedAnswer(channels, HubMembers(lookup), group, x, user, c);
    BlockedAnswer(channels, ProtocolMembers(stored), group, x, user, c);
    var local := Local(nodes, Copied(channels, hub.acls), ProtocolMembers(stored));
    var env := Env(channels, hub.acls, ProtocolMembers(stored));
    EdgeAnswersAsHub(local, env, user, c);
    OnlyTheChainMatters(edge, hub.acls, user, c);
    assert edge.(acls := hub.acls) == env;
    assert hub == Env(channels, hub.acls, HubMembers(lookup));
    assert TRAVERSE in DEFAULT;
    assert !AnswersAgreeFor(nodes, channels, lookup, stored, user, c, hub.acls);
  }

  /**
   * The Edge's answer is the Hub's, whatever the ACLs are, exactly for superusers and for users on
   * whom the two group checks agree at every channel of the chain.
   */
  lemma AnswersAgreeExactly(nodes: Nodes, channels: Channels, lookup: GroupLookup, stored: StoredGroups, user: User, c: int)
    requires SameChannels(nodes, channels) && c in nodes
    ensures AnswersAgree(nodes, channels, lookup, stored, user, c)
      <==> IsSuperUser(user) || ChainChecksAgree(channels, lookup, stored, user, c)
  {
    if IsSuperUser(user) || ChainChecksAgree(channels, lookup, stored, user, c) {
      forall acls: int -> seq<Acl>
        ensures AnswersAgreeFor(nodes, channels, lookup, stored, user, c, acls)
      {
        AgreementCarries(nodes, channels, lookup, stored, user, c, acls);
      }
    } else {
      var x, group :| x in Chain(channels, c) && group != "" && !ChecksAgree(lookup, stored, c, x, group, user);
      OneDisagreement(nodes, channels, lookup, stored, user, c, x, group);
    }
  }

  lemma AgreementCarries(nodes: Nodes, channels: Channels, lookup: GroupLookup, stored: StoredGroups,
                         user: User, c: int, acls: int -> seq<Acl>)
    requires SameChannels(nodes, channels) && c in nodes
    requires IsSuperUser(user) || ChainChecksAgree(channels, lookup, stored, user, c)
    ensures AnswersAgreeFor(nodes, channels, lookup, stored, user, c, acls)
  {
    var local, env := Local(nodes, Copied(channels, acls), ProtocolMembers(stored)), Env(channels, acls, HubMembers(lookup));
    forall x, acl | x in Chain(channels, c) && acl in acls(x)
      ensures !IsSuperUser(user) ==> AlikeFor(local.members, env.members, c, x, acl, user)
    {
      if !IsSuperUser(user) && acl.group.Some? && acl.group.value != "" {
        assert ChecksAgree(lookup, stored, c, x, acl.group.value, user);
      }
    }
    EdgeAnswersAsHub(local, env, user, c);
  }
}
