/**
 * The ACL arithmetic of packages/hub-server/src/permission-checker.ts (its twin in
 * packages/protocol/src/permission.ts differs only in who is in a group): a fold
 * down the chain of channels, over bit masks, with resets and an early cut-off.
 */
module AclFold {
  import opened Wrappers

  /** A bit mask, as the set of the numbers of its bits: `|`, `& ~` and `&` are `+`, `-` and `*`. */
  type Mask = set<nat>

  const WRITE := 0
  const TRAVERSE := 1
  const SPEAK := 3
  const WHISPER := 8
  const DEFAULT: Mask := {1, 2, 3, 8, 9}  // traverse, enter, speak, whisper, text message
  const ALL_SUB: Mask := {0, 1, 2, 3, 4, 5, 6, 7, 8, 9, 10, 11}
  const ALL: Mask := {0, 1, 2, 3, 4, 5, 6, 7, 8, 9, 10, 11, 16, 17, 18, 19}

  datatype Acl = Acl(userId: Option<int>, group: Option<string>, applyHere: bool, applySubs: bool, allow: Mask, deny: Mask)

  datatype User = User(session: int, userId: int, certHash: Option<string>, channel: Option<int>, groups: seq<string>)

  /** Membership in a stored channel group: by channel, group and user; None when the lookup fails. */
  type GroupLookup = (int, string, int) -> Option<bool>

  /** Who is in a group: by asked channel, the channel of the ACL, the group and the user. */
  type Membership = (int, int, string, User) -> bool

  predicate IsSuperUser(user: User) {
    "admin" in user.groups || "superuser" in user.groups
  }

  predicate GroupMember(lookup: GroupLookup, orig: int, ctx: int, group: string, user: User) {
    if group == "all" then true
    else if group == "auth" then user.userId > 0
    else if group == "in" then user.channel == Some(orig)
    else if group == "out" then user.channel != Some(orig)
    else if "$" <= group then user.certHash == Some(group[1..])
    else if "#" <= group then group[1..] in user.groups
    else match lookup(ctx, group, user.userId)
      case Some(member) => member
      case None => group in user.groups
  }

  function HubMembers(lookup: GroupLookup): Membership {
    (orig, ctx, group, user) => GroupMember(lookup, orig, ctx, group, user)
  }

  predicate Applies(orig: int, ctx: int, acl: Acl) {
    if orig == ctx then acl.applyHere else acl.applySubs
  }

  predicate Matches(members: Membership, orig: int, ctx: int, acl: Acl, user: User) {
    || (acl.userId.Some? && acl.userId.value > 0 && acl.userId.value == user.userId)
    || (acl.group.Some? && acl.group.value != "" && members(orig, ctx, acl.group.value, user))
  }

  /** One channel of the chain, with what decides there. */
  datatype Level = Level(id: int, inherits: bool, acls: seq<Acl>)

  datatype Grant = Grant(granted: Mask, traverse: bool, write: bool)

  function Start(): Grant {
    Grant(DEFAULT, true, false)
  }

  function Enter(g: Grant, level: Level): Grant {
    if level.inherits then g else g.(granted := DEFAULT)
  }

  /** What a matching ACL makes of a flag: deny beats allow, and silence leaves it. */
  predicate Step(flag: bool, allow: Mask, deny: Mask, bit: nat) {
    if bit in deny then false else if bit in allow then true else flag
  }

  function ApplyMasks(g: Grant, allow: Mask, deny: Mask): Grant {
    Grant((g.granted + allow) - deny, Step(g.traverse, allow, deny, TRAVERSE), Step(g.write, allow, deny, WRITE))
  }

  function ApplyAcls(members: Membership, orig: int, ctx: int, user: User, g: Grant, acls: seq<Acl>): Grant {
    if acls == [] then g else
      var before := ApplyAcls(members, orig, ctx, user, g, acls[..|acls| - 1]);
      var acl := acls[|acls| - 1];
      if Applies(orig, ctx, acl) && Matches(members, orig, ctx, acl, user) then ApplyMasks(before, acl.allow, acl.deny)
      else before
  }

  /** The grant after a chain, and whether it has been cut off on the way. */
  datatype Outcome = Outcome(g: Grant, cut: bool)

  function Walk(members: Membership, orig: int, user: User, chain: seq<Level>): Outcome {
    if chain == [] then Outcome(Start(), false) else
      var before := Walk(members, orig, user, chain[..|chain| - 1]);
      var level := chain[|chain| - 1];
      if before.cut then before else
        var g := ApplyAcls(members, orig, level.id, user, Enter(before.g, level), level.acls);
        Outcome(g, !g.traverse && !g.write)
  }

  function Granted(members: Membership, orig: int, user: User, chain: seq<Level>): Mask {
    var o := Walk(members, orig, user, chain);
    if o.cut then {} else o.g.granted
  }

  /** The inner loop: the ACLs of one channel, in order. */
  method FoldAcls(members: Membership, orig: int, user: User, ctx: Level, g: Grant) returns (r: Grant)
    ensures r == ApplyAcls(members, orig, ctx.id, user, g, ctx.acls)
  {
    r := g;
    for j := 0 to |ctx.acls|
      invariant r == ApplyAcls(members, orig, ctx.id, user, g, ctx.acls[..j])
    {
      assert ctx.acls[..j + 1][..j] == ctx.acls[..j];
      var acl := ctx.acls[j];
      if (orig == ctx.id && !acl.applyHere) || (orig != ctx.id && !acl.applySubs) {
        continue;
      }
      if Matches(members, orig, ctx.id, acl, user) {
        r := FoldMasks(r, acl.allow, acl.deny);
      }
    }
    assert ctx.acls[..|ctx.acls|] == ctx.acls;
  }

  /** One matching ACL: the two flags, then the masks. */
  method FoldMasks(g: Grant, allow: Mask, deny: Mask) returns (r: Grant)
    ensures r == ApplyMasks(g, allow, deny)
  {
    var traverse := FoldFlag(g.traverse, allow, deny, TRAVERSE);
    var write := FoldFlag(g.write, allow, deny, WRITE);
    var granted := g.granted;
    granted := granted + allow;
    granted := granted - deny;
    r := Grant(granted, traverse, write);
  }

  method FoldFlag(flag: bool, allow: Mask, deny: Mask, bit: nat) returns (r: bool)
    ensures r == Step(flag, allow, deny, bit)
  {
    r := flag;
    if bit in allow {
      r := true;
    }
    if bit in deny {
      r := false;
    }
  }

  lemma {:induction false} CutStaysCut(members: Membership, orig: int, user: User, chain: seq<Level>, i: nat)
    requires i <= |chain| && Walk(members, orig, user, chain[..i]).cut
    ensures Walk(members, orig, user, chain).cut
    decreases |chain|
  {
    if i == |chain| {
      assert chain[..i] == chain;
    } else {
      var front := chain[..|chain| - 1];
      assert front[..i] == chain[..i];
      CutStaysCut(members, orig, user, front, i);
    }
  }

  // ----- last writer wins -----

  /** What decides: a reset at a non-inheriting channel, or the masks of an ACL that counts. */
  datatype Event = Reset | Masks(allow: Mask, deny: Mask)

  function AclEvents(members: Membership, orig: int, ctx: int, user: User, acls: seq<Acl>): seq<Event> {
    if acls == [] then [] else
      var before := AclEvents(members, orig, ctx, user, acls[..|acls| - 1]);
      var acl := acls[|acls| - 1];
      if Applies(orig, ctx, acl) && Matches(members, orig, ctx, acl, user) then before + [Masks(acl.allow, acl.deny)]
      else before
  }

  function Events(members: Membership, orig: int, user: User, chain: seq<Level>): seq<Event> {
    if chain == [] then [] else
      var level := chain[|chain| - 1];
      Events(members, orig, user, chain[..|chain| - 1]) + (if level.inherits then [] else [Reset])
      + AclEvents(members, orig, level.id, user, level.acls)
  }

  /** The last event that says something about a bit decides it; deny beats allow. */
  predicate Decided(events: seq<Event>, bit: nat) {
    if events == [] then bit in DEFAULT else
      match events[|events| - 1]
      case Reset => bit in DEFAULT
      case Masks(allow, deny) => Step(Decided(events[..|events| - 1], bit), allow, deny, bit)
  }

  /** The flags follow the masks alone: a reset does not touch them. */
  predicate Flag(events: seq<Event>, bit: nat, default: bool) {
    if events == [] then default else
      match events[|events| - 1]
      case Reset => Flag(events[..|events| - 1], bit, default)
      case Masks(allow, deny) => Step(Flag(events[..|events| - 1], bit, default), allow, deny, bit)
  }

  ghost predicate Explains(events: seq<Event>, g: Grant) {
    && (forall bit: nat :: bit in g.granted <==> Decided(events, bit))
    && g.traverse == Flag(events, TRAVERSE, true)
    && g.write == Flag(events, WRITE, false)
  }

  lemma DecidedByMasks(events: seq<Event>, allow: Mask, deny: Mask, bit: nat)
    ensures Decided(events + [Masks(allow, deny)], bit) == Step(Decided(events, bit), allow, deny, bit)
  {
    assert (events + [Masks(allow, deny)])[..|events|] == events;
  }

  lemma FlagByMasks(events: seq<Event>, allow: Mask, deny: Mask, bit: nat, default: bool)
    ensures Flag(events + [Masks(allow, deny)], bit, default) == Step(Flag(events, bit, default), allow, deny, bit)
  {
    assert (events + [Masks(allow, deny)])[..|events|] == events;
  }

  lemma ExplainsMasks(events: seq<Event>, g: Grant, allow: Mask, deny: Mask)
    requires Explains(events, g)
    ensures Explains(events + [Masks(allow, deny)], ApplyMasks(g, allow, deny))
  {
    forall bit: nat
      ensures bit in (g.granted + allow) - deny <==> Decided(events + [Masks(allow, deny)], bit)
    {
      DecidedByMasks(events, allow, deny, bit);
    }
    FlagByMasks(events, allow, deny, TRAVERSE, true);
    FlagByMasks(events, allow, deny, WRITE, false);
  }

  lemma ExplainsEnter(events: seq<Event>, g: Grant, level: Level)
    requires Explains(events, g)
    ensures Explains(events + if level.inherits then [] else [Reset], Enter(g, level))
  {
    if level.inherits {
      assert events + [] == events;
    } else {
      assert (events + [Reset])[..|events|] == events;
    }
  }

  lemma {:induction false} ExplainsAcls(members: Membership, orig: int, ctx: int, user: User, events: seq<Event>, g: Grant, acls: seq<Acl>)
    requires Explains(events, g)
    ensures Explains(events + AclEvents(members, orig, ctx, user, acls), ApplyAcls(members, orig, ctx, user, g, acls))
  {
    if acls == [] {
      assert events + [] == events;
    } else {
      var front, acl := acls[..|acls| - 1], acls[|acls| - 1];
      ExplainsAcls(members, orig, ctx, user, events, g, front);
      if Applies(orig, ctx, acl) && Matches(members, orig, ctx, acl, user) {
        var before := AclEvents(members, orig, ctx, user, front);
        ExplainsMasks(events + before, ApplyAcls(members, orig, ctx, user, g, front), acl.allow, acl.deny);
        assert events + (before + [Masks(acl.allow, acl.deny)]) == (events + before) + [Masks(acl.allow, acl.deny)];
      }
    }
  }

  /** As long as nothing is cut off, the walk is explained by the events so far. */
  lemma {:induction false} WalkExplained(members: Membership, orig: int, user: User, chain: seq<Level>)
    ensures var o := Walk(members, orig, user, chain); !o.cut ==> Explains(Events(members, orig, user, chain), o.g)
    ensures chain != [] && !Walk(members, orig, user, chain[..|chain| - 1]).cut ==>
      Explains(Events(members, orig, user, chain), Walk(members, orig, user, chain).g)
  {
    if chain != [] {
      var front, level := chain[..|chain| - 1], chain[|chain| - 1];
      WalkExplained(members, orig, user, front);
      var before := Walk(members, orig, user, front);
      if !before.cut {
        var events := Events(members, orig, user, front);
        var reset: seq<Event> := if level.inherits then [] else [Reset];
        ExplainsEnter(events, before.g, level);
        ExplainsAcls(members, orig, level.id, user, events + reset, Enter(before.g, level), level.acls);
      }
    }
  }

  /** Some channel of the chain ends with neither traverse nor write. */
  ghost predicate Blocked(members: Membership, orig: int, user: User, chain: seq<Level>) {
    exists i :: 0 < i <= |chain| && var events := Events(members, orig, user, chain[..i]);
      !Flag(events, TRAVERSE, true) && !Flag(events, WRITE, false)
  }

  lemma {:induction false} CutExactlyWhenBlocked(members: Membership, orig: int, user: User, chain: seq<Level>)
    ensures Walk(members, orig, user, chain).cut <==> Blocked(members, orig, user, chain)
  {
    if chain != [] {
      var n := |chain| - 1;
      var front := chain[..n];
      CutExactlyWhenBlocked(members, orig, user, front);
      WalkExplained(members, orig, user, chain);
      assert chain[..n + 1] == chain;
      forall i | 0 < i <= n
        ensures front[..i] == chain[..i]
      {
      }
    }
  }

  /**
   * The whole rule: a blocked user has no permission at all; otherwise every single
   * bit is what the last event about it says.
   */
  lemma LastWriterWins(members: Membership, orig: int, user: User, chain: seq<Level>, bit: nat)
    ensures bit in Granted(members, orig, user, chain)
      <==> !Blocked(members, orig, user, chain) && Decided(Events(members, orig, user, chain), bit)
  {
    CutExactlyWhenBlocked(members, orig, user, chain);
    WalkExplained(members, orig, user, chain);
  }
}
