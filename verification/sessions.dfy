/**
 * packages/hub-server/src/session-manager.ts: the session table and the two indexes
 * derived from it, by user and by channel.
 */
module Sessions {
  import opened Wrappers

  datatype Session = Session(user: int, channel: Option<int>, connectedAt: int)

  type Index = map<int, set<int>>

  datatype Tables = Tables(sessions: map<int, Session>, users: Index, channels: Index)

  const EMPTY := Tables(map[], map[], map[])

  predicate Holds(m: Index, key: int, id: int) {
    key in m && id in m[key]
  }

  function Add(m: Index, key: int, id: int): Index {
    m[key := (if key in m then m[key] else {}) + {id}]
  }

  /** Takes an id out of an index entry, and the entry out when it becomes empty. */
  function Drop(m: Index, key: int, id: int): Index {
    if key !in m then m else if m[key] - {id} == {} then m - {key} else m[key := m[key] - {id}]
  }

  /** The channel under which a session is indexed: a missing channel and channel 0 are both falsy. */
  function IndexedChannel(s: Session): Option<int> {
    if s.channel == Some(0) then None else s.channel
  }

  function Report(t: Tables, id: int, s: Session): Tables {
    var c := IndexedChannel(s);
    Tables(t.sessions[id := s], Add(t.users, s.user, id), if c.Some? then Add(t.channels, c.value, id) else t.channels)
  }

  function Move(t: Tables, id: int, channel: int): Tables {
    if id !in t.sessions then t else
      var s := t.sessions[id];
      var c := IndexedChannel(s);
      var left := if c.Some? then Drop(t.channels, c.value, id) else t.channels;
      t.(sessions := t.sessions[id := s.(channel := Some(channel))], channels := Add(left, channel, id))
  }

  function Remove(t: Tables, id: int): Tables {
    if id !in t.sessions then t else
      var s := t.sessions[id];
      var c := IndexedChannel(s);
      Tables(t.sessions - {id}, Drop(t.users, s.user, id), if c.Some? then Drop(t.channels, c.value, id) else t.channels)
  }

  // ----- the indexes agree with the table -----

  ghost predicate UsersAgree(t: Tables) {
    && (forall u, id :: Holds(t.users, u, id) <==> id in t.sessions && t.sessions[id].user == u)
    && (forall u <- t.users :: t.users[u] != {})
  }

  /** Channel 0 is outside the guarantee: the class never indexes a session under a falsy channel. */
  ghost predicate ChannelsAgree(t: Tables) {
    && (forall c, id :: c != 0 ==> (Holds(t.channels, c, id) <==> id in t.sessions && t.sessions[id].channel == Some(c)))
    && (forall c <- t.channels :: t.channels[c] != {})
  }

  ghost predicate Agree(t: Tables) {
    UsersAgree(t) && ChannelsAgree(t)
  }

  lemma AddHolds(m: Index, key: int, id: int)
    ensures forall k, i :: Holds(Add(m, key, id), k, i) <==> Holds(m, k, i) || (k == key && i == id)
  {
  }

  lemma DropHolds(m: Index, key: int, id: int)
    ensures forall k, i :: Holds(Drop(m, key, id), k, i) <==> Holds(m, k, i) && !(k == key && i == id)
    ensures (forall k <- m :: m[k] != {}) ==> forall k <- Drop(m, key, id) :: Drop(m, key, id)[k] != {}
  {
    assert key in m ==> forall i :: i in m[key] && i != id ==> i in m[key] - {id};
  }

  /** A report keeps the indexes exact precisely when it cannot leave an old entry behind. */
  predicate SafeReport(t: Tables, id: int, s: Session) {
    id in t.sessions ==>
      var was := t.sessions[id];
      was.user == s.user && (IndexedChannel(was).None? || was.channel == s.channel)
  }

  lemma ReportAgreesExactly(t: Tables, id: int, s: Session)
    requires Agree(t)
    ensures Agree(Report(t, id, s)) <==> SafeReport(t, id, s)
  {
    var t' := Report(t, id, s);
    AddHolds(t.users, s.user, id);
    if IndexedChannel(s).Some? {
      AddHolds(t.channels, s.channel.value, id);
    }
    if id in t.sessions {
      var was := t.sessions[id];
      assert Holds(t.users, was.user, id) && Holds(t'.users, was.user, id);
      if IndexedChannel(was).Some? {
        assert Holds(t.channels, was.channel.value, id) && Holds(t'.channels, was.channel.value, id);
      }
    }
    if SafeReport(t, id, s) {
      assert UsersAgree(t') && ChannelsAgree(t');
    }
  }

  /** Session 1 is reported for user 1 and then for user 2: it stays among the sessions of user 1. */
  lemma ReportedTwice()
    ensures var t := Run([ReportOp(1, Session(1, None, 0)), ReportOp(1, Session(2, None, 0))]);
      1 in t.sessions && t.sessions[1].user == 2 && Holds(t.users, 1, 1) && !Agree(t)
  {
    var one := [ReportOp(1, Session(1, None, 0))];
    assert [ReportOp(1, Session(1, None, 0)), ReportOp(1, Session(2, None, 0))][..1] == one && one[..0] == [];
    assert Run(one) == Report(EMPTY, 1, Session(1, None, 0));
    ReportDone(EMPTY, 1, Session(1, None, 0));
    ReportDone(Run(one), 1, Session(2, None, 0));
  }

  lemma MoveAgrees(t: Tables, id: int, channel: int)
    requires Agree(t)
    ensures Agree(Move(t, id, channel))
  {
    if id in t.sessions {
      var c := IndexedChannel(t.sessions[id]);
      var left := if c.Some? then Drop(t.channels, c.value, id) else t.channels;
      if c.Some? {
        DropHolds(t.channels, c.value, id);
      }
      AddHolds(left, channel, id);
    }
  }

  lemma RemoveAgrees(t: Tables, id: int)
    requires Agree(t)
    ensures Agree(Remove(t, id))
  {
    if id in t.sessions {
      var s := t.sessions[id];
      DropHolds(t.users, s.user, id);
      if IndexedChannel(s).Some? {
        DropHolds(t.channels, s.channel.value, id);
      }
    }
  }

  // ----- what each call leaves, entry by entry -----

  lemma ReportDone(t: Tables, id: int, s: Session)
    ensures var t' := Report(t, id, s);
      && t'.sessions == t.sessions[id := s]
      && (forall u, i :: Holds(t'.users, u, i) <==> Holds(t.users, u, i) || (u == s.user && i == id))
      && (forall c, i :: Holds(t'.channels, c, i) <==> Holds(t.channels, c, i) || (s.channel == Some(c) && c != 0 && i == id))
  {
    AddHolds(t.users, s.user, id);
    if IndexedChannel(s).Some? {
      AddHolds(t.channels, s.channel.value, id);
    }
  }

  lemma MoveDone(t: Tables, id: int, channel: int)
    ensures var t' := Move(t, id, channel);
      if id !in t.sessions then t' == t else
      var s := t.sessions[id];
      && t'.sessions == t.sessions[id := Session(s.user, Some(channel), s.connectedAt)] && t'.users == t.users
      && (forall c, i :: Holds(t'.channels, c, i)
           <==> (i == id && c == channel) || (Holds(t.channels, c, i) && !(i == id && s.channel == Some(c) && c != 0)))
  {
    if id in t.sessions {
      var c := IndexedChannel(t.sessions[id]);
      var left := if c.Some? then Drop(t.channels, c.value, id) else t.channels;
      if c.Some? {
        DropHolds(t.channels, c.value, id);
      }
      AddHolds(left, channel, id);
    }
  }

  lemma RemoveDone(t: Tables, id: int)
    ensures var t' := Remove(t, id);
      if id !in t.sessions then t' == t else
      var s := t.sessions[id];
      && t'.sessions == t.sessions - {id}
      && (forall u, i :: Holds(t'.users, u, i) <==> Holds(t.users, u, i) && !(i == id && u == s.user))
      && (forall c, i :: Holds(t'.channels, c, i) <==> Holds(t.channels, c, i) && !(i == id && s.channel == Some(c) && c != 0))
  {
    if id in t.sessions {
      var s := t.sessions[id];
      DropHolds(t.users, s.user, id);
      if IndexedChannel(s).Some? {
        DropHolds(t.channels, s.channel.value, id);
      }
    }
  }

  /** The number of users is the number of different users in the table. */
  lemma UserCount(t: Tables)
    requires UsersAgree(t)
    ensures t.users.Keys == set id <- t.sessions :: t.sessions[id].user
    ensures |t.users| == |set id <- t.sessions :: t.sessions[id].user|
  {
    var distinct := set id <- t.sessions :: t.sessions[id].user;
    forall u | u in t.users
      ensures u in distinct
    {
      NotEmpty(t.users[u]);
      var id :| id in t.users[u];
      assert Holds(t.users, u, id);
    }
    forall id | id in t.sessions
      ensures t.sessions[id].user in t.users
    {
      assert Holds(t.users, t.sessions[id].user, id);
    }
    assert t.users.Keys == distinct;
  }

  /** What `getChannelSessions` returns: the indexed ids that are still in the table. */
  function ChannelSessions(t: Tables, c: int): set<int> {
    if c in t.channels then set id <- t.channels[c] | id in t.sessions else {}
  }

  lemma ChannelSessionsExact(t: Tables, c: int)
    requires ChannelsAgree(t) && c != 0
    ensures ChannelSessions(t, c) == set id <- t.sessions | t.sessions[id].channel == Some(c)
  {
    forall id
      ensures id in ChannelSessions(t, c) <==> id in t.sessions && t.sessions[id].channel == Some(c)
    {
      assert Holds(t.channels, c, id) <==> id in t.sessions && t.sessions[id].channel == Some(c);
    }
  }

  // ----- whole runs -----

  datatype Op = ReportOp(id: int, s: Session) | MoveOp(id: int, channel: int) | RemoveOp(id: int)

  function Apply(t: Tables, op: Op): Tables {
    match op
    case ReportOp(id, s) => Report(t, id, s)
    case MoveOp(id, channel) => Move(t, id, channel)
    case RemoveOp(id) => Remove(t, id)
  }

  function Run(ops: seq<Op>): Tables {
    if ops == [] then EMPTY else Apply(Run(ops[..|ops| - 1]), ops[|ops| - 1])
  }

  ghost predicate SafeRun(ops: seq<Op>) {
    ops != [] ==>
      var front, last := ops[..|ops| - 1], ops[|ops| - 1];
      SafeRun(front) && (last.ReportOp? ==> SafeReport(Run(front), last.id, last.s))
  }

  lemma {:induction false} RunAgrees(ops: seq<Op>)
    requires SafeRun(ops)
    ensures Agree(Run(ops))
  {
    if ops != [] {
      var front, last := ops[..|ops| - 1], ops[|ops| - 1];
      RunAgrees(front);
      match last
      case ReportOp(id, s) => ReportAgreesExactly(Run(front), id, s);
      case MoveOp(id, channel) => MoveAgrees(Run(front), id, channel);
      case RemoveOp(id) => RemoveAgrees(Run(front), id);
    }
  }

  /** The ids that were ever moved to channel 0 while in the table. */
  function EverRooted(ops: seq<Op>): set<int> {
    if ops == [] then {} else
      var front, last := ops[..|ops| - 1], ops[|ops| - 1];
      EverRooted(front) + if last.MoveOp? && last.channel == 0 && last.id in Run(front).sessions then {last.id} else {}
  }

  /** What the index holds for channel 0: it only grows, so it is not who is there. */
  lemma {:induction false} RootIndexOnlyGrows(ops: seq<Op>)
    ensures forall id :: Holds(Run(ops).channels, 0, id) <==> id in EverRooted(ops)
  {
    if ops != [] {
      var front, last := ops[..|ops| - 1], ops[|ops| - 1];
      RootIndexOnlyGrows(front);
      var t := Run(front);
      match last
      case ReportOp(id, s) =>
        if IndexedChannel(s).Some? {
          AddHolds(t.channels, s.channel.value, id);
        }
      case MoveOp(id, channel) =>
        if id in t.sessions {
          var c := IndexedChannel(t.sessions[id]);
          var left := if c.Some? then Drop(t.channels, c.value, id) else t.channels;
          if c.Some? {
            DropHolds(t.channels, c.value, id);
          }
          AddHolds(left, channel, id);
        }
      case RemoveOp(id) =>
        if id in t.sessions && IndexedChannel(t.sessions[id]).Some? {
          DropHolds(t.channels, t.sessions[id].channel.value, id);
        }
    }
  }

  /** So the answer for channel 0 is right exactly when presence there and past moves there coincide. */
  lemma RootSessionsExactly(ops: seq<Op>)
    ensures var t := Run(ops);
      ChannelSessions(t, 0) == (set id <- t.sessions | t.sessions[id].channel == Some(0))
      <==> forall id <- t.sessions :: t.sessions[id].channel == Some(0) <==> id in EverRooted(ops)
  {
    RootIndexOnlyGrows(ops);
    var t := Run(ops);
    var there := set id <- t.sessions | t.sessions[id].channel == Some(0);
    forall id
      ensures id in ChannelSessions(t, 0) <==> id in t.sessions && id in EverRooted(ops)
    {
      assert Holds(t.channels, 0, id) <==> id in EverRooted(ops);
    }
    if forall id <- t.sessions :: t.sessions[id].channel == Some(0) <==> id in EverRooted(ops) {
      assert ChannelSessions(t, 0) == there;
    }
    if ChannelSessions(t, 0) == there {
      forall id | id in t.sessions
        ensures t.sessions[id].channel == Some(0) <==> id in EverRooted(ops)
      {
        assert id in there <==> t.sessions[id].channel == Some(0);
      }
    }
  }

  /** A session that passed through channel 0 is still reported there. */
  lemma RootSessionsStale(s: Session)
    requires s.channel == Some(5)
    ensures var ops := [ReportOp(1, s), MoveOp(1, 0), MoveOp(1, 5)];
      SafeRun(ops) && 1 in Run(ops).sessions && Run(ops).sessions[1].channel == Some(5) && 1 in ChannelSessions(Run(ops), 0)
  {
    var a, b := [ReportOp(1, s)], [ReportOp(1, s), MoveOp(1, 0)];
    var ops := [ReportOp(1, s), MoveOp(1, 0), MoveOp(1, 5)];
    assert a[..0] == [] && b[..1] == a && ops[..2] == b;
    assert SafeRun(a) && Run(a) == Report(EMPTY, 1, s);
    assert SafeRun(b) && Run(b) == Move(Run(a), 1, 0);
    assert SafeRun(ops) && Run(ops) == Move(Run(b), 1, 5);
  }

  // ----- the class -----

  class GlobalSessionManager {
    var sessions: map<int, Session>
    var userSessions: Index
    var channelSessions: Index
    var nextSessionId: int

    constructor ()
      ensures State() == EMPTY && nextSessionId == 1
    {
      sessions, userSessions, channelSessions := map[], map[], map[];
      nextSessionId := 1;
    }

    function State(): Tables
      reads this
    {
      Tables(sessions, userSessions, channelSessions)
    }

    method AllocateSessionId() returns (id: int)
      modifies this`nextSessionId
      ensures id == old(nextSessionId) && nextSessionId == id + 1
    {
      id := nextSessionId;
      nextSessionId := nextSessionId + 1;
    }

    method ReportSession(id: int, session: Session)
      modifies this`sessions, this`userSessions, this`channelSessions
      ensures State() == Report(old(State()), id, session)
      ensures old(Agree(State())) ==> (Agree(State()) <==> SafeReport(old(State()), id, session))
    {
      ghost var before := State();
      sessions := sessions[id := session];
      if session.user !in userSessions {
        userSessions := userSessions[session.user := {}];
      }
      userSessions := userSessions[session.user := userSessions[session.user] + {id}];
      assert userSessions == Add(before.users, session.user, id);
      var channel := IndexedChannel(session);
      if channel.Some? {
        AddToChannel(channel.value, id);
      }
      if Agree(before) {
        ReportAgreesExactly(before, id, session);
      }
    }

    method UpdateSessionChannel(id: int, newChannel: int)
      modifies this`sessions, this`channelSessions
      ensures State() == Move(old(State()), id, newChannel)
      ensures old(Agree(State())) ==> Agree(State())
    {
      ghost var before := State();
      if id !in sessions {
        return;
      }
      var session := sessions[id];
      var channel := IndexedChannel(session);
      if channel.Some? {
        TakeFromChannel(channel.value, id);
      }
      sessions := sessions[id := session.(channel := Some(newChannel))];
      AddToChannel(newChannel, id);
      if Agree(before) {
        MoveAgrees(before, id, newChannel);
      }
    }

    method AddToChannel(channel: int, id: int)
      modifies this`channelSessions
      ensures channelSessions == Add(old(channelSessions), channel, id)
    {
      if channel !in channelSessions {
        channelSessions := channelSessions[channel := {}];
      }
      channelSessions := channelSessions[channel := channelSessions[channel] + {id}];
    }

    method TakeFromChannel(channel: int, id: int)
      modifies this`channelSessions
      ensures channelSessions == Drop(old(channelSessions), channel, id)
    {
      if channel in channelSessions {
        var left := channelSessions[channel] - {id};
        channelSessions := channelSessions[channel := left];
        if |left| == 0 {
          channelSessions := channelSessions - {channel};
          assert channelSessions == old(channelSessions) - {channel};
        }
      }
    }

    method RemoveSession(id: int) returns (removed: Option<Session>)
      modifies this`sessions, this`userSessions, this`channelSessions
      ensures State() == Remove(old(State()), id)
      ensures removed == if id in old(sessions) then Some(old(sessions)[id]) else None
      ensures old(Agree(State())) ==> Agree(State())
    {
      ghost var before := State();
      if id !in sessions {
        return None;
      }
      var session := sessions[id];
      sessions := sessions - {id};
      if session.user in userSessions {
        var left := userSessions[session.user] - {id};
        userSessions := userSessions[session.user := left];
        if |left| == 0 {
          userSessions := userSessions - {session.user};
          assert userSessions == before.users - {session.user};
        }
      }
      var channel := IndexedChannel(session);
      if channel.Some? {
        TakeFromChannel(channel.value, id);
      }
      if Agree(before) {
        RemoveAgrees(before, id);
      }
      return Some(session);
    }

    method GetTotalUserCount() returns (n: nat)
      ensures UsersAgree(State()) ==> n == |set id <- sessions :: sessions[id].user|
    {
      n := |userSessions|;
      if UsersAgree(State()) {
        UserCount(State());
      }
    }

    /** Removes every session connected more than an hour before `now`, in milliseconds. */
    method Cleanup(now: int)
      modifies this`sessions, this`userSessions, this`channelSessions
      ensures old(Agree(State())) ==> Agree(State())
      ensures sessions == old(sessions) - (set id <- old(sessions) | Stale(old(sessions)[id], now))
    {
      var toRemove := set id <- sessions | Stale(sessions[id], now);
      ghost var all := toRemove;
      while toRemove != {}
        invariant old(Agree(State())) ==> Agree(State())
        invariant toRemove <= all
        invariant sessions == old(sessions) - (all - toRemove)
        decreases |toRemove|
      {
        NotEmpty(toRemove);
        var id :| id in toRemove;
        var gone := RemoveSession(id);
        assert all - (toRemove - {id}) == (all - toRemove) + {id};
        toRemove := toRemove - {id};
      }
    }
  }

  /** Connected, by the second, more than an hour before a time in milliseconds. */
  predicate Stale(s: Session, now: int)
    ensures Stale(s, now) <==> now - 1000 * s.connectedAt > 60 * 60 * 1000
  {
    s.connectedAt * 1000 < now - 3600000
  }
}
