/** The channel handlers of packages/hub-server/src/control-service.ts, step by step. */
module ControlService {
  import opened Wrappers
  import opened Forest
  import opened HubTree
  import opened ChannelRequests
  import opened Permissions
  import Sessions

  /** What a removal does to a session: from a removed channel it goes to the surviving parent. */
  ghost function Relocated(s: Sessions.Session, gone: set<int>, parent: int): Sessions.Session {
    var channel := if s.channel.Some? then s.channel.value else 0;
    if channel in gone then s.(channel := Some(parent)) else s
  }

  class HubControlService {
    const db: HubDatabase
    const acl: HubAclChecker
    const checker: HubPermissionChecker  // the part of the same checker that knows the channels
    const sessions: Sessions.GlobalSessionManager

    ghost predicate Valid()
      reads this, db, acl, checker, sessions
    {
      && acl.tree == checker && checker.db == db && CacheCorrect(checker.channelTreeCache, db.channels)
      && forall c <- db.channels :: c < db.nextId
    }

    ghost function Table(): Hub
      reads this, db
    {
      Hub(db.channels, db.nextId)
    }

    constructor (db: HubDatabase, acl: HubAclChecker, sessions: Sessions.GlobalSessionManager)
      requires forall c <- db.channels :: c < db.nextId
      requires acl.tree.db == db && CacheCorrect(acl.tree.channelTreeCache, db.channels)
      ensures Valid() && this.db == db && this.acl == acl && this.sessions == sessions
    {
      this.db, this.acl, this.sessions := db, acl, sessions;
      this.checker := acl.tree;
    }

    /** Checks a request, creates or edits, and drops the cached parent link of a moved channel. */
    method HandleChannelState(q: Request, rules: Rules) returns (r: Result<int, Refusal>)
      requires Valid() && rules.fold == checker.fold
      modifies db, checker, acl
      ensures Valid()
      ensures (Table(), r) == old(Handle(Table(), q, rules))
    {
      if IsCreate(q) {
        r := HandleCreate(q, rules);
      } else {
        r := HandleEdit(q.channel.value, q, rules);
      }
    }

    method HandleCreate(q: Request, rules: Rules) returns (r: Result<int, Refusal>)
      requires Valid() && rules.fold == checker.fold
      modifies db, checker, acl
      ensures Valid()
      ensures (Table(), r) == old(Create(Table(), q, rules))
      ensures forall who :: old(acl.CachesCorrect(who)) ==> acl.CachesCorrect(who)
    {
      if q.name.None? || rules.blank(q.name.value) {
        return Err(NameRequired);
      }
      var parent := if q.parent.Some? then q.parent.value else 0;
      if parent > 0 && parent !in db.channels {
        return Err(ParentNotFound);
      }
      if !May(db.channels, rules, parent, MakeChannel) {
        return Err(PermissionDenied);
      }
      var duplicate := checker.HasDuplicateSiblingName(parent, q.name.value, None);
      if duplicate {
        return Err(NameTaken);
      }
      ghost var was := Table();
      CreatedParent(was, q, rules);
      var id := Insert(Row(q.name.value, parent, true));
      return Ok(id);
    }

    /** A new row changes nothing that is cached. */
    method Insert(row: Row) returns (id: int)
      requires Valid() && row.parent in db.channels
      modifies db
      ensures Valid() && id == old(db.nextId) && Table() == Hub(old(db.channels)[id := row], id + 1)
      ensures forall who :: old(acl.CachesCorrect(who)) ==> acl.CachesCorrect(who)
    {
      ghost var was := Table();
      id := db.CreateChannel(row);
      if ChannelTree(was.channels) {
        RowAdded(was, row);
        forall who | old(acl.CachesCorrect(who))
          ensures acl.CachesCorrect(who)
        {
          CreationKeepsCorrect(old(acl.Environment()), id, row, who, acl.aclCache, acl.channelACLCache);
        }
      }
    }

    method HandleEdit(c: int, q: Request, rules: Rules) returns (r: Result<int, Refusal>)
      requires Valid() && rules.fold == checker.fold
      modifies db, checker, acl
      ensures Valid()
      ensures (Table(), r) == old(Edit(Table(), c, q, rules))
      ensures (acl.aclCache, acl.channelACLCache) == if r.Ok? && q.parent.Some?
        then (ClearedResults(old(acl.aclCache), {c}), old(acl.channelACLCache) - {c}) else old((acl.aclCache, acl.channelACLCache))
    {
      if c !in db.channels {
        return Err(ChannelNotFound);
      }
      if !May(db.channels, rules, c, Write) {
        return Err(PermissionDenied);
      }
      if q.name.Some? {
        var duplicate := checker.HasDuplicateSiblingName(db.channels[c].parent, q.name.value, Some(c));
        if duplicate {
          return Err(NameTaken);
        }
      }
      if q.parent.Some? {
        var newParent := q.parent.value;
        if newParent > 0 && newParent !in db.channels {
          return Err(ParentNotFound);
        }
        var circular := checker.HasCircularReference(c, newParent);
        if circular {
          return Err(CircularReference);
        }
        if !May(db.channels, rules, newParent, MakeChannel) {
          return Err(PermissionDenied);
        }
        var duplicate := checker.HasDuplicateSiblingName(newParent, db.channels[c].name, Some(c));
        if duplicate {
          return Err(NameTaken);
        }
      }
      if q.name.Some? || q.parent.Some? {
        db.UpdateChannel(c, q.name, q.parent);
        if q.parent.Some? {
          acl.ClearCacheForChannel(c);
        }
      } else {
        assert Updated(db.channels, c, None, None) == db.channels;
      }
      return Ok(c);
    }

    // ----- removal -----

    /** The channel, then each child with everything below it, appended to the list. */
    method CollectChannels(cid: int, sofar: seq<int>) returns (collected: seq<int>)
      requires ChannelTree(db.channels) && cid in db.channels && cid != 0
      requires NoRepeats(sofar) && Elements(sofar) !! Subtree(Parents(db.channels), cid)
      ensures NoRepeats(collected) && Elements(collected) == Elements(sofar) + Subtree(Parents(db.channels), cid)
      decreases |Subtree(Parents(db.channels), cid)|
    {
      ghost var p := Parents(db.channels);
      BelowSelf(p, cid);
      collected := sofar + [cid];
      Appended(sofar, cid);
      var children := db.GetChildChannels(cid);
      assert ListsChildren(p, cid, children);
      for i := 0 to |children|
        invariant NoRepeats(collected)
        invariant Elements(collected) == Elements(sofar) + {cid} + Subtrees(p, children[..i])
      {
        NextChild(p, cid, children, i, sofar, collected);
        collected := CollectChannels(children[i], collected);
      }
      assert children[..|children|] == children;
      AllSubtrees(p, cid, children);
    }

    /** Moves every session in a removed channel to the parent of the removed root. */
    method RelocateSessions(gone: seq<int>, parent: int)
      modifies sessions
      ensures old(Sessions.Agree(sessions.State())) ==> Sessions.Agree(sessions.State())
      ensures sessions.sessions.Keys == old(sessions.sessions).Keys
      ensures forall id <- old(sessions.sessions) ::
        var was, now := old(sessions.sessions)[id], sessions.sessions[id];
        if (was.channel.Some? && was.channel.value in gone) || (was.channel.None? && 0 in gone)
        then now.user == was.user && now.connectedAt == was.connectedAt && now.channel == Some(parent) else now == was
    {
      var ids := sessions.sessions.Keys;
      ghost var before := sessions.sessions;
      while ids != {}
        invariant old(Sessions.Agree(sessions.State())) ==> Sessions.Agree(sessions.State())
        invariant ids <= before.Keys
        invariant sessions.sessions == map id <- before ::
          if id in ids then before[id] else Relocated(before[id], Elements(gone), parent)
        decreases |ids|
      {
        NotEmpty(ids);
        var id :| id in ids;
        var session := sessions.sessions[id];
        var channel := if session.channel.Some? then session.channel.value else 0;
        if channel in gone {
          sessions.UpdateSessionChannel(id, parent);
        }
        ids := ids - {id};
      }
      assert forall id <- before :: sessions.sessions[id] == Relocated(before[id], Elements(gone), parent);
    }

    /** Removes a channel with everything below it, after moving the sessions out. */
    method HandleChannelRemove(c: int, rules: Rules) returns (r: Result<int, Refusal>)
      requires Valid() && ChannelTree(db.channels)
      modifies db`channels, checker`channelTreeCache, acl, sessions
      ensures Valid() && (old(Sessions.Agree(sessions.State())) ==> Sessions.Agree(sessions.State()))
      ensures forall who :: old(acl.CachesCorrect(who)) ==> acl.CachesCorrect(who)
      ensures (Table(), r) == old(Remove(Table(), c, rules))
      ensures r.Err? ==> sessions.sessions == old(sessions.sessions)
      ensures sessions.sessions.Keys == old(sessions.sessions).Keys
      ensures r.Ok? ==> forall id <- old(sessions.sessions) ::
        var was, now := old(sessions.sessions)[id], sessions.sessions[id];
        if was.channel.Some? && was.channel.value in old(Subtree(Parents(db.channels), c))
        then now.user == was.user && now.connectedAt == was.connectedAt && now.channel == Some(old(db.channels[c].parent))
        else now == was
    {
      if c !in db.channels {
        return Err(ChannelNotFound);
      }
      if c == 0 {
        return Err(RootChannel);
      }
      if !May(db.channels, rules, c, Write) {
        return Err(PermissionDenied);
      }
      var toRemove := CollectChannels(c, []);
      RelocateSessions(toRemove, db.channels[c].parent);
      ghost var gone := Subtree(Parents(db.channels), c);
      assert Elements(toRemove) == gone;
      RootNotBelow(Parents(db.channels), c);
      assert 0 !in Elements(toRemove);
      DeleteAll(toRemove);
      assert db.channels == old(db.channels) - gone;
      RemoveKeepsTable(old(Table()), c, rules);
      forall who | old(acl.CachesCorrect(who))
        ensures acl.CachesCorrect(who)
      {
        RemovalKeepsCorrect(old(acl.Environment()), gone, who, old(acl.aclCache), old(acl.channelACLCache));
      }
      return Ok(c);
    }

    /** Deletes the rows one by one, each with its entries in all three caches. */
    method DeleteAll(gone: seq<int>)
      requires Valid() && 0 !in gone
      modifies db`channels, checker`channelTreeCache, acl
      ensures Valid() && db.channels == old(db.channels) - Elements(gone)
      ensures acl.aclCache == ClearedResults(old(acl.aclCache), Elements(gone))
      ensures acl.channelACLCache == old(acl.channelACLCache) - Elements(gone)
    {
      for i := 0 to |gone|
        invariant Valid() && db.channels == old(db.channels) - Elements(gone[..i])
        invariant acl.aclCache == ClearedResults(old(acl.aclCache), Elements(gone[..i]))
        invariant acl.channelACLCache == old(acl.channelACLCache) - Elements(gone[..i])
      {
        var deleted := db.DeleteChannel(gone[i]);
        acl.ClearCacheForChannel(gone[i]);
        assert gone[..i + 1] == gone[..i] + [gone[i]];
      }
      assert gone[..|gone|] == gone;
    }
  }

  /** After a removal no session is left in a channel that no longer exists. */
  lemma SessionsSurvive(h: Hub, c: int, rules: Rules, s: Sessions.Session)
    requires HubTreeOk(h) && Remove(h, c, rules).1.Ok?
    requires s.channel.Some? ==> s.channel.value in h.channels
    ensures var after := Relocated(s, Subtree(Parents(h.channels), c), h.channels[c].parent);
      after.channel.Some? ==> after.channel.value in Remove(h, c, rules).0.channels
  {
    RemoveKeepsTable(h, c, rules);
  }
}
