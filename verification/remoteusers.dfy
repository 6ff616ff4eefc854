/**
 * The remote users of packages/edge-server/src/state/state-manager.ts: which Edges
 * have someone in a channel, kept beside the table of tracked users.
 */
module RemoteUsers {
  datatype RemoteUser = RemoteUser(edge: int, channel: int)

  datatype Tracker = Tracker(users: map<int, RemoteUser>, edges: map<int, set<int>>)

  const EMPTY := Tracker(map[], map[])

  /** What `getEdgesInChannel` returns. */
  function EdgesIn(t: Tracker, channel: int): set<int> {
    if channel in t.edges then t.edges[channel] else {}
  }

  /** The edges that have a tracked user in the channel. */
  function Present(users: map<int, RemoteUser>, channel: int): set<int> {
    set s <- users | users[s].channel == channel :: users[s].edge
  }

  /** The index is exact, and keeps no empty sets. */
  ghost predicate Exact(t: Tracker) {
    && (forall channel, edge :: edge in EdgesIn(t, channel) <==> edge in Present(t.users, channel))
    && (forall channel <- t.edges :: t.edges[channel] != {})
  }

  predicate OtherThere(users: map<int, RemoteUser>, session: int, u: RemoteUser) {
    exists s <- users :: s != session && users[s] == u
  }

  function Join(edges: map<int, set<int>>, channel: int, edge: int): map<int, set<int>> {
    edges[channel := (if channel in edges then edges[channel] else {}) + {edge}]
  }

  function Leave(edges: map<int, set<int>>, channel: int, edge: int): map<int, set<int>> {
    if channel !in edges then edges else
      if edges[channel] - {edge} == {} then edges - {channel} else edges[channel := edges[channel] - {edge}]
  }

  function Added(t: Tracker, session: int, edge: int, channel: int): Tracker {
    Tracker(t.users[session := RemoteUser(edge, channel)], Join(t.edges, channel, edge))
  }

  /** The index after a user has left a channel: the edge goes unless someone else of it is there. */
  function Left(t: Tracker, session: int, u: RemoteUser): map<int, set<int>> {
    if OtherThere(t.users, session, u) then t.edges else Leave(t.edges, u.channel, u.edge)
  }

  function Removed(t: Tracker, session: int): Tracker {
    if session !in t.users then t else Tracker(t.users - {session}, Left(t, session, t.users[session]))
  }

  function Moved(t: Tracker, session: int, channel: int): Tracker {
    if session !in t.users then t else
      var u := t.users[session];
      Tracker(t.users[session := u.(channel := channel)], Join(Left(t, session, u), channel, u.edge))
  }

  class EdgeStateManager {
    var remoteUsers: map<int, RemoteUser>
    var channelRemoteUsers: map<int, set<int>>

    constructor ()
      ensures State() == EMPTY
    {
      remoteUsers, channelRemoteUsers := map[], map[];
    }

    function State(): Tracker
      reads this
    {
      Tracker(remoteUsers, channelRemoteUsers)
    }

    method AddRemoteUser(session: int, edge: int, channel: int)
      modifies this
      ensures State() == Added(old(State()), session, edge, channel)
      ensures old(Exact(State())) ==> (Exact(State()) <==> SafeAdd(old(State()), session, edge, channel))
    {
      ghost var before := State();
      remoteUsers := remoteUsers[session := RemoteUser(edge, channel)];
      if channel !in channelRemoteUsers {
        channelRemoteUsers := channelRemoteUsers[channel := {}];
      }
      channelRemoteUsers := channelRemoteUsers[channel := channelRemoteUsers[channel] + {edge}];
      if Exact(before) {
        AddExactly(before, session, edge, channel);
      }
    }

    method LeaveChannel(session: int, u: RemoteUser)
      requires session in remoteUsers && remoteUsers[session] == u
      modifies this`channelRemoteUsers
      ensures channelRemoteUsers == Left(old(State()), session, u)
    {
      var hasOtherUsers := OtherThere(remoteUsers, session, u);
      if !hasOtherUsers && u.channel in channelRemoteUsers {
        var left := channelRemoteUsers[u.channel] - {u.edge};
        channelRemoteUsers := channelRemoteUsers[u.channel := left];
        if |left| == 0 {
          channelRemoteUsers := channelRemoteUsers - {u.channel};
          assert channelRemoteUsers == old(channelRemoteUsers) - {u.channel};
        }
      }
    }

    method RemoveRemoteUser(session: int)
      modifies this
      ensures State() == Removed(old(State()), session)
      ensures old(Exact(State())) ==> Exact(State())
    {
      ghost var before := State();
      if session in remoteUsers {
        LeaveChannel(session, remoteUsers[session]);
        remoteUsers := remoteUsers - {session};
      }
      if Exact(before) {
        RemoveExact(before, session);
      }
    }

    method UpdateRemoteUserChannel(session: int, channel: int)
      modifies this
      ensures State() == Moved(old(State()), session, channel)
      ensures old(Exact(State())) ==> Exact(State())
    {
      ghost var before := State();
      if session in remoteUsers {
        var u := remoteUsers[session];
        LeaveChannel(session, u);
        remoteUsers := remoteUsers[session := u.(channel := channel)];
        if channel !in channelRemoteUsers {
          channelRemoteUsers := channelRemoteUsers[channel := {}];
        }
        channelRemoteUsers := channelRemoteUsers[channel := channelRemoteUsers[channel] + {u.edge}];
      }
      if Exact(before) {
        MoveExact(before, session, channel);
      }
    }

    method Clear()
      modifies this
      ensures State() == EMPTY
    {
      remoteUsers, channelRemoteUsers := map[], map[];
    }
  }

  // ----- what each call leaves, session by session and Edge by Edge -----

  lemma AddDone(t: Tracker, session: int, edge: int, channel: int)
    ensures var t' := Added(t, session, edge, channel);
      && t'.users.Keys == t.users.Keys + {session} && t'.users[session].edge == edge && t'.users[session].channel == channel
      && (forall s <- t.users :: s != session ==> t'.users[s] == t.users[s])
      && (forall c, e :: e in EdgesIn(t', c) <==> e in EdgesIn(t, c) || (c == channel && e == edge))
  {
  }

  /** A user of the same Edge, other than this one, is tracked in the channel. */
  predicate Company(users: map<int, RemoteUser>, session: int, edge: int, channel: int) {
    exists s <- users :: s != session && users[s].edge == edge && users[s].channel == channel
  }

  lemma CompanyIsOther(users: map<int, RemoteUser>, session: int, u: RemoteUser)
    ensures Company(users, session, u.edge, u.channel) <==> OtherThere(users, session, u)
  {
    if OtherThere(users, session, u) {
      var s :| s in users && s != session && users[s] == u;
      assert users[s].edge == u.edge && users[s].channel == u.channel;
    }
    if Company(users, session, u.edge, u.channel) {
      var s :| s in users && s != session && users[s].edge == u.edge && users[s].channel == u.channel;
      assert users[s] == u;
    }
  }

  lemma MoveDone(t: Tracker, session: int, channel: int)
    ensures var t' := Moved(t, session, channel);
      if session !in t.users then t' == t else
      var u := t.users[session];
      && t'.users.Keys == t.users.Keys && t'.users[session].edge == u.edge && t'.users[session].channel == channel
      && (forall s <- t.users :: s != session ==> t'.users[s] == t.users[s])
      && (forall c, e :: e in EdgesIn(t', c)
           <==> (c == channel && e == u.edge)
                || (e in EdgesIn(t, c) && (c == u.channel && e == u.edge ==> Company(t.users, session, e, c))))
  {
    if session in t.users {
      CompanyIsOther(t.users, session, t.users[session]);
    }
  }

  lemma RemoveDone(t: Tracker, session: int)
    ensures var t' := Removed(t, session);
      if session !in t.users then t' == t else
      var u := t.users[session];
      && t'.users.Keys == t.users.Keys - {session} && (forall s <- t'.users :: t'.users[s] == t.users[s])
      && (forall c, e :: e in EdgesIn(t', c)
           <==> e in EdgesIn(t, c) && (c == u.channel && e == u.edge ==> Company(t.users, session, e, c)))
  {
    if session in t.users {
      CompanyIsOther(t.users, session, t.users[session]);
    }
  }

  // ----- every step keeps the index exact -----

  lemma JoinHolds(edges: map<int, set<int>>, channel: int, edge: int)
    requires forall c <- edges :: edges[c] != {}
    ensures var t, t' := Tracker(map[], edges), Tracker(map[], Join(edges, channel, edge));
      && (forall c, e :: e in EdgesIn(t', c) <==> e in EdgesIn(t, c) || (c == channel && e == edge))
      && (forall c <- t'.edges :: t'.edges[c] != {})
  {
  }

  lemma LeaveHolds(edges: map<int, set<int>>, channel: int, edge: int)
    requires forall c <- edges :: edges[c] != {}
    ensures var t, t' := Tracker(map[], edges), Tracker(map[], Leave(edges, channel, edge));
      && (forall c, e :: e in EdgesIn(t', c) <==> e in EdgesIn(t, c) && !(c == channel && e == edge))
      && (forall c <- t'.edges :: t'.edges[c] != {})
  {
    assert channel in edges ==> forall e :: e in edges[channel] && e != edge ==> e in edges[channel] - {edge};
  }

  lemma IsPresent(users: map<int, RemoteUser>, channel: int, edge: int)
    ensures edge in Present(users, channel) <==> exists s <- users :: users[s] == RemoteUser(edge, channel)
  {
    if edge in Present(users, channel) {
      var s :| s in users && users[s].channel == channel && users[s].edge == edge;
      assert users[s] == RemoteUser(edge, channel);
    }
  }

  /** Without one session, an edge is present where another session of it is. */
  lemma PresentWithout(users: map<int, RemoteUser>, session: int, channel: int, edge: int)
    requires session in users
    ensures edge in Present(users - {session}, channel)
      <==> edge in Present(users, channel) && (users[session] == RemoteUser(edge, channel) ==> OtherThere(users, session, users[session]))
  {
    IsPresent(users, channel, edge);
    IsPresent(users - {session}, channel, edge);
    var u := RemoteUser(edge, channel);
    if edge in Present(users - {session}, channel) {
      var s :| s in users - {session} && (users - {session})[s] == u;
      assert s in users && users[s] == u && s != session;
    }
    if edge in Present(users, channel) && (users[session] == u ==> OtherThere(users, session, u)) {
      var s :| s in users && users[s] == u;
      var other := s;
      if users[session] == u {
        other :| other in users && other != session && users[other] == u;
      }
      assert other in users - {session} && (users - {session})[other] == u;
    }
  }

  lemma PresentWith(users: map<int, RemoteUser>, session: int, u: RemoteUser, channel: int, edge: int)
    requires session !in users
    ensures edge in Present(users[session := u], channel) <==> edge in Present(users, channel) || u == RemoteUser(edge, channel)
  {
    var more := users[session := u];
    IsPresent(users, channel, edge);
    IsPresent(more, channel, edge);
    if edge in Present(users, channel) {
      var s :| s in users && users[s] == RemoteUser(edge, channel);
      assert s in more && more[s] == RemoteUser(edge, channel);
    }
    if u == RemoteUser(edge, channel) {
      assert session in more && more[session] == RemoteUser(edge, channel);
    }
  }

  lemma RemoveExact(t: Tracker, session: int)
    requires Exact(t)
    ensures Exact(Removed(t, session))
  {
    if session in t.users {
      var u := t.users[session];
      LeaveHolds(t.edges, u.channel, u.edge);
      forall channel, edge
        ensures edge in EdgesIn(Removed(t, session), channel) <==> edge in Present(t.users - {session}, channel)
      {
        PresentWithout(t.users, session, channel, edge);
      }
    }
  }

  lemma AddFreshExact(t: Tracker, session: int, edge: int, channel: int)
    requires Exact(t) && session !in t.users
    ensures Exact(Added(t, session, edge, channel))
  {
    JoinHolds(t.edges, channel, edge);
    forall c, e
      ensures e in EdgesIn(Added(t, session, edge, channel), c) <==> e in Present(t.users[session := RemoteUser(edge, channel)], c)
    {
      PresentWith(t.users, session, RemoteUser(edge, channel), c, e);
    }
  }

  /** A move is a removal and an addition, also into the channel the user is in. */
  lemma MoveExact(t: Tracker, session: int, channel: int)
    requires Exact(t)
    ensures Exact(Moved(t, session, channel))
  {
    if session in t.users {
      var u := t.users[session];
      RemoveExact(t, session);
      AddFreshExact(Removed(t, session), session, u.edge, channel);
      assert (t.users - {session})[session := u.(channel := channel)] == t.users[session := u.(channel := channel)];
    }
  }

  /** Adding is safe for an untracked session, or one whose old place keeps its edge. */
  predicate SafeAdd(t: Tracker, session: int, edge: int, channel: int) {
    session in t.users ==>
      t.users[session] == RemoteUser(edge, channel) || OtherThere(t.users, session, t.users[session])
  }

  /** Adding keeps the index exact exactly in that case: nothing takes the old place out of it. */
  lemma AddExactly(t: Tracker, session: int, edge: int, channel: int)
    requires Exact(t)
    ensures Exact(Added(t, session, edge, channel)) <==> SafeAdd(t, session, edge, channel)
  {
    if session !in t.users {
      AddFreshExact(t, session, edge, channel);
    } else {
      var old', new' := t.users[session], RemoteUser(edge, channel);
      var rest := t.users - {session};
      var added := Added(t, session, edge, channel);
      assert rest[session := new'] == added.users;
      JoinHolds(t.edges, channel, edge);
      forall c, e
        ensures e in EdgesIn(added, c) <==> e in Present(t.users, c) || (c == channel && e == edge)
        ensures e in Present(added.users, c)
          <==> (e in Present(t.users, c) && (old' == RemoteUser(e, c) ==> OtherThere(t.users, session, old')))
               || new' == RemoteUser(e, c)
      {
        PresentWithout(t.users, session, c, e);
        PresentWith(rest, session, new', c, e);
      }
      IsPresent(t.users, old'.channel, old'.edge);
      assert old'.edge in Present(t.users, old'.channel);
    }
  }

  /** Session 1 is added for Edge 10 and then for Edge 11: voice for its channel still goes to both. */
  lemma AddedTwice()
    ensures var t := Run([Add(1, 10, 5), Add(1, 11, 5)]);
      10 in EdgesIn(t, 5) && 10 !in Present(t.users, 5) && !Exact(t)
  {
    var one := [Add(1, 10, 5)];
    assert [Add(1, 10, 5), Add(1, 11, 5)][..1] == one && one[..0] == [];
    assert Run(one) == Added(EMPTY, 1, 10, 5);
  }

  // ----- whole runs -----

  datatype Op = Add(session: int, edge: int, channel: int) | Move(session: int, channel: int) | Remove(session: int) | ClearAll

  function Apply(t: Tracker, op: Op): Tracker {
    match op
    case Add(session, edge, channel) => Added(t, session, edge, channel)
    case Move(session, channel) => Moved(t, session, channel)
    case Remove(session) => Removed(t, session)
    case ClearAll => EMPTY
  }

  function Run(ops: seq<Op>): Tracker {
    if ops == [] then EMPTY else Apply(Run(ops[..|ops| - 1]), ops[|ops| - 1])
  }

  predicate SafeRun(ops: seq<Op>) {
    ops != [] ==>
      var t, last := Run(ops[..|ops| - 1]), ops[|ops| - 1];
      SafeRun(ops[..|ops| - 1]) && (last.Add? ==> SafeAdd(t, last.session, last.edge, last.channel))
  }

  /** Over every such run, the answer for a channel is the edges with a tracked user there. */
  lemma {:induction false} RunExact(ops: seq<Op>, channel: int)
    requires SafeRun(ops)
    ensures Exact(Run(ops)) && EdgesIn(Run(ops), channel) == Present(Run(ops).users, channel)
  {
    if ops != [] {
      var t, last := Run(ops[..|ops| - 1]), ops[|ops| - 1];
      RunExact(ops[..|ops| - 1], channel);
      match last
      case Add(session, edge, to) => AddExactly(t, session, edge, to);
      case Move(session, to) => MoveExact(t, session, to);
      case Remove(session) => RemoveExact(t, session);
      case ClearAll =>
    }
  }
}
