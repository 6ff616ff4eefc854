/**
 * What the parts of an ACL mean for the answers of packages/hub-server/src/permission-checker.ts:
 * whom it concerns, where it applies, and what the masks are, each told from the answers.
 */
module AclMeaning {
  import opened Wrappers
  import opened Forest
  import opened HubTree
  import opened AclFold
  import opened Permissions
  import opened Staleness

  // ----- whom an ACL concerns -----

  /**
   * An ACL that cannot concern a user: it names no group, and not this user; or it does not apply
   * to the channel that is asked for itself, or not to those below the one it stands at.
   */
  predicate Idle(acl: Acl, user: User, here: bool) {
    || ((acl.group == None || acl.group == Some("")) && (acl.userId == None || acl.userId != Some(user.userId) || user.userId <= 0))
    || (here && !acl.applyHere)
    || (!here && !acl.applySubs)
  }

  /** A list without such ACLs. */
  function Relevant(acls: seq<Acl>, user: User, here: bool): seq<Acl> {
    if acls == [] then [] else
      var front, acl := Relevant(acls[..|acls| - 1], user, here), acls[|acls| - 1];
      if Idle(acl, user, here) then front else front + [acl]
  }

  lemma {:induction false} IdleChangesNothing(members: Membership, orig: int, ctx: int, user: User, g: Grant, acls: seq<Acl>)
    ensures ApplyAcls(members, orig, ctx, user, g, acls) == ApplyAcls(members, orig, ctx, user, g, Relevant(acls, user, orig == ctx))
  {
    if acls != [] {
      var front, acl := acls[..|acls| - 1], acls[|acls| - 1];
      IdleChangesNothing(members, orig, ctx, user, g, front);
      var kept := Relevant(front, user, orig == ctx);
      assert (kept + [acl])[..|kept|] == kept;
    }
  }

  lemma {:induction false} WalkIgnoresIdle(a: Env, b: Env, orig: int, user: User, chain: seq<int>)
    requires a.channels == b.channels && a.members == b.members && forall x <- chain :: x in a.channels
    requires forall x <- chain :: Relevant(a.acls(x), user, orig == x) == Relevant(b.acls(x), user, orig == x)
    ensures Walk(a.members, orig, user, Levels(a, chain)) == Walk(b.members, orig, user, Levels(b, chain))
  {
    if chain == [] {
      assert Levels(a, chain) == [] == Levels(b, chain);
    } else {
      var front, x := chain[..|chain| - 1], chain[|chain| - 1];
      assert chain == front + [x] && x in chain;
      WalkIgnoresIdle(a, b, orig, user, front);
      StepIgnoresIdle(a, b, orig, user, front, x);
    }
  }

  lemma StepIgnoresIdle(a: Env, b: Env, orig: int, user: User, front: seq<int>, x: int)
    requires a.channels == b.channels && a.members == b.members
    requires (forall z <- front + [x] :: z in a.channels) && (forall z <- front :: z in a.channels)
    requires Relevant(a.acls(x), user, orig == x) == Relevant(b.acls(x), user, orig == x)
    requires Walk(a.members, orig, user, Levels(a, front)) == Walk(b.members, orig, user, Levels(b, front))
    ensures Walk(a.members, orig, user, Levels(a, front + [x])) == Walk(b.members, orig, user, Levels(b, front + [x]))
  {
    StepDown(a, orig, user, front, x);
    StepDown(b, orig, user, front, x);
    var before := Walk(a.members, orig, user, Levels(a, front)).g;
    IdleChangesNothing(a.members, orig, x, user, Enter(before, LevelOf(a, x)), a.acls(x));
    IdleChangesNothing(a.members, orig, x, user, Enter(before, LevelOf(b, x)), b.acls(x));
  }

  /** ACLs that cannot concern the user can be added or taken out anywhere: the answer stays. */
  lemma OnlyRelevantMatters(env: Env, acls: int -> seq<Acl>, user: User, c: int)
    requires ChannelTree(env.channels)
    requires c in env.channels ==> forall x <- Chain(env.channels, c) :: Relevant(acls(x), user, c == x) == Relevant(env.acls(x), user, c == x)
    ensures Uncached(env.(acls := acls), user, c) == Uncached(env, user, c)
  {
    if c in env.channels {
      WalkIgnoresIdle(env.(acls := acls), env, c, user, Chain(env.channels, c));
    }
  }

  /**
   * An ACL for one user number, alone at a channel of the chain, that denies traverse: it shuts
   * out exactly the user of that number, if the number is above 0, where it applies: here for
   * the channel itself, to subs for those below it.
   */
  lemma UserAclExactly(channels: Channels, members: Membership, u: int, here: bool, subs: bool, y: int, user: User, c: int)
    requires ChannelTree(channels) && c in channels && y in Chain(channels, c) && !IsSuperUser(user)
    ensures var acl := Acl(Some(u), None, here, subs, {}, {1});
      Uncached(LoneEnv(channels, members, acl, y), user, c)
      == if u == user.userId && u > 0 && (if y == c then here else subs) then {} else {1, 2, 3, 8, 9}
  {
    LoneAnswer(channels, members, Acl(Some(u), None, here, subs, {}, {1}), y, user, c);
  }

  /** The same for a group, as the Hub understands the name. */
  lemma GroupAclExactly(channels: Channels, lookup: GroupLookup, group: string, here: bool, subs: bool, y: int, user: User, c: int)
    requires ChannelTree(channels) && c in channels && y in Chain(channels, c) && !IsSuperUser(user) && group != ""
    ensures var acl := Acl(None, Some(group), here, subs, {}, {1});
      Uncached(LoneEnv(channels, HubMembers(lookup), acl, y), user, c)
      == if InGroup(lookup, group, y, user, c) && (if y == c then here else subs) then {} else {1, 2, 3, 8, 9}
  {
    HubGroups(lookup, group, y, user, c);
    MembersAnswer(channels, HubMembers(lookup), group, here, subs, y, user, c);
  }

  lemma MembersAnswer(channels: Channels, members: Membership, group: string, here: bool, subs: bool, y: int, user: User, c: int)
    requires ChannelTree(channels) && c in channels && y in Chain(channels, c) && !IsSuperUser(user) && group != ""
    ensures var acl := Acl(None, Some(group), here, subs, {}, {1});
      Uncached(LoneEnv(channels, members, acl, y), user, c)
      == if members(c, y, group, user) && (if y == c then here else subs) then {} else {1, 2, 3, 8, 9}
  {
    LoneAnswer(channels, members, Acl(None, Some(group), here, subs, {}, {1}), y, user, c);
  }

  /** What the names of groups mean to the Hub. */
  lemma HubGroups(lookup: GroupLookup, group: string, y: int, user: User, c: int)
    requires group != ""
    ensures HubMembers(lookup)(c, y, group, user) <==> InGroup(lookup, group, y, user, c)
  {
    NamesApart(group);
  }

  /** Everybody, the registered, those in the channel asked for or outside it, a certificate, a token, or a stored group. */
  predicate InGroup(lookup: GroupLookup, group: string, y: int, user: User, c: int)
    requires group != ""
  {
    || group == "all"
    || (group == "auth" && user.userId >= 1)
    || (group == "in" && user.channel == Some(c))
    || (group == "out" && !(user.channel == Some(c)))
    || (group[0] == '$' && user.certHash == Some(group[1..]))
    || (group[0] == '#' && group[1..] in user.groups)
    || (group !in ["all", "auth", "in", "out"] && group[0] !in ['$', '#']
        && (lookup(y, group, user.userId) == Some(true) || (lookup(y, group, user.userId) == None && group in user.groups)))
  }

  lemma NamesApart(group: string)
    requires group != ""
    ensures ("$" <= group <==> group[0] == '$') && ("#" <= group <==> group[0] == '#')
    ensures group in ["all", "auth", "in", "out"] ==> group[0] !in ['$', '#']
    ensures group in ["all", "auth", "in", "out"] <==> group == "all" || group == "auth" || group == "in" || group == "out"
  {
    var dollar, hash, all, auth, within, out := "$", "#", "all", "auth", "in", "out";
    assert dollar[0] == '$' && hash[0] == '#' && all[0] == 'a' && auth[0] == 'a' && within[0] == 'i' && out[0] == 'o';
    assert |dollar| == 1 && |hash| == 1;
    assert dollar <= group <==> group[..1] == dollar;
    assert hash <= group <==> group[..1] == hash;
    assert group[..1] == [group[0]];
    var names := ["all", "auth", "in", "out"];
    assert names[0] == "all" && names[1] == "auth" && names[2] == "in" && names[3] == "out";
  }

  // ----- what the masks of an ACL do -----

  /** A bit after a list of ACLs: given by one and not denied from there on, or there before and never denied. */
  predicate Holds(acls: seq<Acl>, bit: nat, before: bool) {
    || (before && forall i :: 0 <= i < |acls| ==> bit !in acls[i].deny)
    || exists i :: 0 <= i < |acls| && bit in acls[i].allow && forall j :: i <= j < |acls| ==> bit !in acls[j].deny
  }

  lemma HoldsSnoc(front: seq<Acl>, acl: Acl, bit: nat, before: bool)
    ensures Holds(front + [acl], bit, before) <==> bit !in acl.deny && (bit in acl.allow || Holds(front, bit, before))
  {
    var acls := front + [acl];
    assert acls[|front|] == acl && forall i :: 0 <= i < |front| ==> acls[i] == front[i];
  }

  ghost predicate HoldAfter(acls: seq<Acl>, g: Grant, r: Grant) {
    && (forall bit: nat :: bit in r.granted <==> Holds(acls, bit, bit in g.granted))
    && (r.traverse <==> Holds(acls, 1, g.traverse)) && (r.write <==> Holds(acls, 0, g.write))
  }

  lemma {:induction false} AclsOf(members: Membership, orig: int, ctx: int, user: User, g: Grant, acls: seq<Acl>)
    requires forall acl <- acls :: Counts(members, orig, ctx, acl, user)
    ensures HoldAfter(acls, g, ApplyAcls(members, orig, ctx, user, g, acls))
  {
    if acls != [] {
      var front, acl := acls[..|acls| - 1], acls[|acls| - 1];
      AclsOf(members, orig, ctx, user, g, front);
      assert front + [acl] == acls && acl in acls && forall other <- front :: other in acls;
      var middle := ApplyAcls(members, orig, ctx, user, g, front);
      assert ApplyAcls(members, orig, ctx, user, g, acls) == ApplyMasks(middle, acl.allow, acl.deny);
      forall bit: nat
        ensures bit in (middle.granted + acl.allow) - acl.deny <==> Holds(acls, bit, bit in g.granted)
      {
        HoldsSnoc(front, acl, bit, bit in g.granted);
      }
      HoldsSnoc(front, acl, 1, g.traverse);
      HoldsSnoc(front, acl, 0, g.write);
    }
  }

  /** A list of ACLs at one channel, and no others. */
  function ListAt(channels: Channels, members: Membership, acls: seq<Acl>, y: int): Env {
    Env(channels, x => if x == y then acls else [], members)
  }

  /** A channel without ACLs at most resets. */
  lemma NothingThere(env: Env, orig: int, user: User, front: seq<int>, c: int)
    requires (forall x <- front + [c] :: x in env.channels) && env.acls(c) == []
    ensures (forall x <- front :: x in env.channels) && c in env.channels
    ensures var before := Walk(env.members, orig, user, Levels(env, front));
      Walk(env.members, orig, user, Levels(env, front + [c])) ==
      if before.cut then before else
        var g := if env.channels[c].inheritAcl then before.g else before.g.(granted := DEFAULT);
        Outcome(g, !g.traverse && !g.write)
  {
    StepDown(env, orig, user, front, c);
  }

  /** One outcome after another, with at most resets in between. */
  predicate Onward(o: Outcome, after: Outcome, reset: bool) {
    if o.cut then after.cut
    else o.g.traverse || o.g.write ==> after == if reset then Outcome(o.g.(granted := DEFAULT), false) else o
  }

  /** Below the channel with the ACLs nothing happens but resets. */
  lemma {:induction false} WalkOn(env: Env, orig: int, user: User, chain: seq<int>, rest: seq<int>)
    requires (forall x <- chain + rest :: x in env.channels) && (forall x <- chain :: x in chain + rest)
    requires forall x <- rest :: env.acls(x) == []
    ensures Onward(Walk(env.members, orig, user, Levels(env, chain)), Walk(env.members, orig, user, Levels(env, chain + rest)),
                   exists x <- rest :: x in env.channels && !env.channels[x].inheritAcl)
    decreases |rest|
  {
    if rest == [] {
      assert chain + rest == chain;
    } else {
      var front, x := rest[..|rest| - 1], rest[|rest| - 1];
      assert rest == front + [x];
      assert chain + rest == (chain + front) + [x];
      forall z | z in chain + front
        ensures z in chain + rest
      {
      }
      WalkOn(env, orig, user, chain, front);
      NothingThere(env, orig, user, chain + front, x);
    }
  }

  ghost predicate Decides(acls: seq<Acl>, o: Outcome) {
    HoldAfter(acls, Grant(DEFAULT, true, false), o.g) && (o.cut <==> !o.g.traverse && !o.g.write)
  }

  /** As far as that channel, the list decides. */
  lemma WalkTo(channels: Channels, members: Membership, acls: seq<Acl>, orig: int, user: User, front: seq<int>, y: int)
    requires (forall x <- front :: x in channels && x != y) && y in channels
    requires forall acl <- acls :: Counts(members, orig, y, acl, user)
    requires forall x <- front + [y] :: x in channels
    ensures Decides(acls, Walk(members, orig, user, Levels(ListAt(channels, members, acls, y), front + [y])))
  {
    var env := ListAt(channels, members, acls, y);
    NoAcls(env, orig, user, front);
    StepDown(env, orig, user, front, y);
    AclsOf(members, orig, y, user, Grant(DEFAULT, true, false), acls);
  }

  /** The channels before and after one of the chain. */
  lemma ChainParts(channels: Channels, c: int, front: seq<int>, y: int, rest: seq<int>)
    requires ChannelTree(channels) && c in channels && Chain(channels, c) == front + [y] + rest
    ensures y in channels && (forall x <- front + rest :: x in channels && x != y)
  {
    ChainOrdered(channels, c);
    OthersDiffer(front, y, rest);
    forall x | x in front + rest || x == y
      ensures x in channels
    {
      assert x in Chain(channels, c);
    }
  }

  lemma OthersDiffer(front: seq<int>, y: int, rest: seq<int>)
    requires var all := front + [y] + rest; forall i, j :: 0 <= i < j < |all| ==> all[i] != all[j]
    ensures forall x <- front + rest :: x != y && x in front + [y] + rest
    ensures y in front + [y] + rest
  {
    var all := front + [y] + rest;
    assert all[|front|] == y;
    forall x | x in front + rest
      ensures x != y && x in all
    {
      var i :| 0 <= i < |front + rest| && (front + rest)[i] == x;
      assert all[if i < |front| then i else i + 1] == x;
    }
  }

  /**
   * With neither traverse nor write left nothing is granted; otherwise what the ACLs leave, or,
   * after a reset further down, the default.
   */
  ghost predicate FollowsFrom(acls: seq<Acl>, reset: bool, answer: Mask) {
    if !Holds(acls, 1, true) && !Holds(acls, 0, false) then answer == {}
    else if reset then answer == {1, 2, 3, 8, 9}
    else forall bit: nat :: bit in answer <==> Holds(acls, bit, bit in {1, 2, 3, 8, 9})
  }

  /** What the ACLs at one channel of the chain, if they concern the user, make of the answer. */
  lemma ListExactly(channels: Channels, members: Membership, acls: seq<Acl>, user: User, c: int, front: seq<int>, y: int, rest: seq<int>)
    requires ChannelTree(channels) && c in channels && Chain(channels, c) == front + [y] + rest && !IsSuperUser(user)
    requires forall acl <- acls :: Counts(members, c, y, acl, user)
    ensures FollowsFrom(acls, exists x <- rest :: x in channels && !channels[x].inheritAcl,
                        Uncached(ListAt(channels, members, acls, y), user, c))
  {
    ChainParts(channels, c, front, y, rest);
    Members(front, y, rest);
    AllListed(channels, front, y, rest);
    ListWalk(channels, members, acls, c, user, front, y, rest);
  }

  lemma AllListed(channels: Channels, front: seq<int>, y: int, rest: seq<int>)
    requires y in channels && forall x <- front + rest :: x in channels
    ensures forall x <- (front + [y]) + rest :: x in channels
  {
    forall x | x in (front + [y]) + rest
      ensures x in channels
    {
      assert x == y || x in front + rest;
    }
  }

  lemma Members(front: seq<int>, y: int, rest: seq<int>)
    ensures (forall x <- front :: x in front + rest) && (forall x <- rest :: x in front + rest)
    ensures forall x <- front + [y] :: x in (front + [y]) + rest
  {
  }

  lemma ListWalk(channels: Channels, members: Membership, acls: seq<Acl>, c: int, user: User, front: seq<int>, y: int, rest: seq<int>)
    requires forall acl <- acls :: Counts(members, c, y, acl, user)
    requires forall x <- (front + [y]) + rest :: x in channels
    requires (forall x <- front :: x != y) && (forall x <- rest :: x != y)
    ensures FollowsFrom(acls, exists x <- rest :: x in channels && !channels[x].inheritAcl,
                        Granted(members, c, user, Levels(ListAt(channels, members, acls, y), (front + [y]) + rest)))
  {
    Members(front, y, rest);
    assert y in front + [y] && forall x <- front :: x in front + [y];
    assert forall x <- rest :: x in (front + [y]) + rest;
    WalkTo(channels, members, acls, c, user, front, y);
    var env := ListAt(channels, members, acls, y);
    WalkOn(env, c, user, front + [y], rest);
    Concluded(acls, Walk(members, c, user, Levels(env, front + [y])), Walk(members, c, user, Levels(env, (front + [y]) + rest)),
              exists x <- rest :: x in channels && !channels[x].inheritAcl);
  }

  lemma Concluded(acls: seq<Acl>, o: Outcome, after: Outcome, reset: bool)
    requires Decides(acls, o) && Onward(o, after, reset)
    ensures FollowsFrom(acls, reset, if after.cut then {} else after.g.granted)
  {
  }

  // ----- the masks -----

  /** The integer that a set of bit numbers below n stands for. */
  function Bits(mask: Mask, n: nat): nat {
    if n == 0 then 0 else (if n - 1 in mask then Two(n - 1) else 0) + Bits(mask, n - 1)
  }

  function Two(n: nat): nat {
    if n == 0 then 1 else 2 * Two(n - 1)
  }

  lemma Powers()
    ensures Two(0) == 1 && Two(1) == 2 && Two(2) == 4 && Two(3) == 8 && Two(4) == 16
    ensures Two(5) == 32 && Two(6) == 64 && Two(7) == 128 && Two(8) == 256 && Two(9) == 512
  {
    assert Two(5) == 32;
  }

  lemma HighPowers()
    ensures Two(10) == 0x400 && Two(11) == 0x800 && Two(16) == 0x10000
    ensures Two(17) == 0x20000 && Two(18) == 0x40000 && Two(19) == 0x80000
  {
    Powers();
    assert Two(12) == 0x1000;
    assert Two(15) == 0x8000;
  }

  /** Bits that are not there add nothing. */
  lemma {:induction false} NoBits(mask: Mask, low: nat, n: nat)
    requires low <= n && forall bit <- mask :: bit < low || bit >= n
    ensures Bits(mask, n) == Bits(mask, low)
    decreases n
  {
    if low < n {
      NoBits(mask, low, n - 1);
    }
  }

  lemma DefaultValue()
    ensures Bits(DEFAULT, 32) == 0x2 + 0x4 + 0x8 + 0x100 + 0x200
  {
    Powers();
    NoBits(DEFAULT, 10, 32);
    NoBits(DEFAULT, 4, 8);
    assert Bits(DEFAULT, 4) == 0xe by {
      assert Bits(DEFAULT, 2) == 2;
    }
    assert Bits(DEFAULT, 9) == 0xe + 0x100;
  }

  lemma LowTwelve(mask: Mask)
    requires forall bit: nat | bit < 12 :: bit in mask
    ensures Bits(mask, 12) == 0xfff
  {
    Powers();
    HighPowers();
    forall n: nat | n < 12
      ensures Bits(mask, n + 1) == Two(n) + Bits(mask, n)
    {
      assert n in mask;
    }
    assert Bits(mask, 0 + 1) == 1;
    assert Bits(mask, 1 + 1) == 3;
    assert Bits(mask, 2 + 1) == 7;
    assert Bits(mask, 3 + 1) == 15;
    assert Bits(mask, 5 + 1) == 63;
    assert Bits(mask, 7 + 1) == 255;
    assert Bits(mask, 9 + 1) == 1023;
    assert Bits(mask, 11 + 1) == 4095;
  }

  /** The masks are those that the permissions are numbered by. */
  lemma MaskValues()
    ensures Bits(DEFAULT, 32) == 0x2 + 0x4 + 0x8 + 0x100 + 0x200
    ensures Bits(ALL_SUB, 32) == 0xfff && Bits(ALL, 32) == 0xf0fff
    ensures Two(WRITE) == 0x1 && Two(TRAVERSE) == 0x2 && Two(SPEAK) == 0x8 && Two(WHISPER) == 0x100
  {
    Powers();
    DefaultValue();
    LowTwelve(ALL_SUB);
    NoBits(ALL_SUB, 12, 32);
    AllValue();
  }

  lemma AllValue()
    ensures Bits(ALL, 32) == 0xf0fff
  {
    HighPowers();
    LowTwelve(ALL);
    NoBits(ALL, 12, 16);
    assert Bits(ALL, 18) == 0x30fff;
    assert Bits(ALL, 20) == 0xf0fff;
    NoBits(ALL, 20, 32);
  }

  /** A superuser has everything at the root and all that channels know elsewhere; nobody else, with no ACLs, has more than the default. */
  lemma SuperUserExactly(env: Env, user: User, c: int)
    requires ChannelTree(env.channels) && c in env.channels && forall x :: env.acls(x) == []
    ensures Uncached(env, user, c)
      == if "admin" in user.groups || "superuser" in user.groups then (if c == 0 then ALL else ALL_SUB) else DEFAULT
  {
    if !IsSuperUser(user) {
      NoAcls(env, c, user, Chain(env.channels, c));
    }
  }

  lemma {:induction false} NoAcls(env: Env, orig: int, user: User, chain: seq<int>)
    requires forall x <- chain :: x in env.channels && env.acls(x) == []
    ensures Walk(env.members, orig, user, Levels(env, chain)) == Outcome(Grant(DEFAULT, true, false), false)
  {
    if chain != [] {
      var front, x := chain[..|chain| - 1], chain[|chain| - 1];
      assert chain == front + [x] && x in chain;
      NoAcls(env, orig, user, front);
      NothingThere(env, orig, user, front, x);
    }
  }

  /** A superuser's answer does not depend on ACLs, and a missing channel grants nothing. */
  lemma SuperUserAlways(env: Env, user: User, c: int)
    requires ChannelTree(env.channels)
    ensures c !in env.channels ==> Uncached(env, user, c) == {}
    ensures c in env.channels && ("admin" in user.groups || "superuser" in user.groups) ==>
      Uncached(env, user, c) == if c == 0 then ALL else ALL_SUB
  {
  }

  /** Write stands in for every permission, bits 3 and 8, speak and whisper, apart. */
  lemma GrantsExactly(granted: Mask, permission: nat)
    ensures Grants(granted, permission) <==> permission in granted || (0 in granted && permission !in {3, 8})
  {
  }
}
