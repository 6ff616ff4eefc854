/**
 * User state changes in packages/hub-server/src/control-service.ts: the checks, the
 * coupled mute and deaf flags, and the changed fields that go out to every Edge.
 */
module UserState {
  import opened Wrappers

  datatype Flag = Mute | Deaf | Suppress | SelfMute | SelfDeaf | Priority | Recording

  /** Some flags with values, as in the partial objects that are assigned to a session. */
  type Flags = map<Flag, bool>

  datatype Session = Session(channel: Option<int>, flags: Flags)

  /** The fields present in a message; `profile` stands for texture and plugin fields. */
  datatype Fields = Fields(channel: Option<int>, flags: Flags, profile: bool)

  predicate Is(flags: Flags, f: Flag) {
    f in flags && flags[f]
  }

  predicate IsNot(flags: Flags, f: Flag) {
    f in flags && !flags[f]
  }

  datatype Who = Actor | Target

  datatype Need = Enter | Traverse | Move | MuteDeafen

  type Answers = (Who, int, Need) -> bool

  datatype Denial = MoveDenied | EnterDenied | TraverseDenied | SelfFields | MuteDeafenDenied | SuppressDenied

  datatype Reply = Rejected(denial: Denial) | Accepted(broadcast: Option<Fields>)

  predicate IsMoveDenial(d: Denial) {
    d.MoveDenied? || d.EnterDenied? || d.TraverseDenied?
  }

  // ----- the parts of a request -----

  function MoveDenial(s: Session, to: int, isSelf: bool, may: Answers): Option<Denial> {
    if isSelf then
      if may(Actor, to, Enter) then None else Some(EnterDenied)
    else
      var targetEnters := may(Target, to, Enter);
      if !targetEnters && !(s.channel.Some? && may(Actor, s.channel.value, Move)) then Some(MoveDenied)
      else if targetEnters && !may(Actor, to, Move) then Some(MoveDenied)
      else if !may(Target, to, Traverse) then Some(TraverseDenied)
      else None
  }

  function Only(flags: Flags, f: Flag): Flags {
    if f in flags then map[f := flags[f]] else map[]
  }

  function Assign(when: bool, f: Flag, value: bool): Flags {
    if when then map[f := value] else map[]
  }

  /** Deafening oneself mutes, and unmuting oneself undeafens; deafening wins over unmuting. */
  function SelfUpdates(u: Flags): Flags {
    Assign(SelfDeaf in u || IsNot(u, SelfMute), SelfDeaf, Is(u, SelfDeaf))
    + Assign(SelfMute in u || Is(u, SelfDeaf), SelfMute, Is(u, SelfMute) || Is(u, SelfDeaf))
  }

  predicate HasAdminFields(u: Flags) {
    Mute in u || Deaf in u || Suppress in u || Priority in u
  }

  /** The same between the flags that others set, and the two that stand alone. */
  function AdminUpdates(u: Flags): Flags {
    Assign(Deaf in u || IsNot(u, Mute), Deaf, Is(u, Deaf))
    + Assign(Mute in u || Is(u, Deaf), Mute, Is(u, Mute) || Is(u, Deaf))
    + Only(u, Suppress) + Only(u, Priority)
  }

  /** What a receiver of a broadcast does with its copy of the session. */
  function Patched(s: Session, d: Fields): Session {
    Session(if d.channel.Some? then d.channel else s.channel, s.flags + d.flags)
  }

  function MovedTo(s: Session, u: Fields): Session {
    if u.channel.Some? then s.(channel := u.channel) else s
  }

  function Verdict(s: Session, u: Fields, isSelf: bool, may: Answers): Option<Denial> {
    var denial := if u.channel.Some? then MoveDenial(s, u.channel.value, isSelf, may) else None;
    var moved := MovedTo(s, u);
    if denial.Some? then denial
    else if !isSelf && (SelfDeaf in u.flags || SelfMute in u.flags || u.profile) then Some(SelfFields)
    else AdminDenial(moved, u.flags, isSelf, may)
  }

  function AdminDenial(s: Session, u: Flags, isSelf: bool, may: Answers): Option<Denial> {
    if HasAdminFields(u) && !isSelf && s.channel.Some? && !may(Actor, s.channel.value, MuteDeafen) then Some(MuteDeafenDenied)
    else if Is(u, Suppress) then Some(SuppressDenied)
    else None
  }

  /** The flags that have been assigned when the request ends with a verdict. */
  function Assigned(u: Flags, verdict: Option<Denial>): Flags {
    match verdict
    case None => SelfUpdates(u) + AdminUpdates(u) + Only(u, Recording)
    case Some(d) => if d.MuteDeafenDenied? || d.SuppressDenied? then SelfUpdates(u) else map[]
  }

  /** The session record after the request: a refusal keeps what was applied before it. */
  function StateAfter(s: Session, u: Fields, isSelf: bool, may: Answers): Session {
    var verdict := Verdict(s, u, isSelf, may);
    if verdict.Some? && IsMoveDenial(verdict.value) then s
    else Session(MovedTo(s, u).channel, s.flags + Assigned(u.flags, verdict))
  }

  // ----- the handler -----

  class UserStateHandler {
    var session: Session

    constructor (session: Session)
      ensures this.session == session
    {
      this.session := session;
    }

    /** Applies the fields one group at a time and collects the ones to broadcast. */
    method Handle(u: Fields, isSelf: bool, may: Answers) returns (r: Reply)
      modifies this
      ensures session == StateAfter(old(session), u, isSelf, may)
      ensures r.Rejected? <==> Verdict(old(session), u, isSelf, may).Some?
      ensures r.Rejected? ==> Some(r.denial) == Verdict(old(session), u, isSelf, may)
      ensures r.Accepted? ==>
        session == if r.broadcast.Some? then Patched(old(session), r.broadcast.value) else old(session)
      ensures r.Accepted? ==> (r.broadcast.Some? <==> u.channel.Some? || u.flags != map[])
      ensures r.Accepted? && r.broadcast.Some? ==> r.broadcast.value == Fields(u.channel, Assigned(u.flags, None), false)
    {
      ghost var before := session.flags;
      var broadcast := false;
      if u.channel.Some? {
        var denial := MoveDenial(session, u.channel.value, isSelf, may);
        if denial.Some? {
          return Rejected(denial.value);
        }
        session := session.(channel := u.channel);
        broadcast := true;
      }
      if !isSelf && (SelfDeaf in u.flags || SelfMute in u.flags || u.profile) {
        assert before + map[] == before;
        return Rejected(SelfFields);
      }
      var own := ApplySelf(u.flags);
      broadcast := broadcast || own != map[];
      var denial, rest, touched := ApplyOthers(u.flags, isSelf, may);
      if denial.Some? {
        return Rejected(denial.value);
      }
      SomethingAsked(u.flags);
      MergeAssociates(before, own, rest);
      MergeAssociates(own, AdminUpdates(u.flags), Only(u.flags, Recording));
      if !broadcast && !touched {
        assert before + (own + rest) == before;
        return Accepted(None);
      }
      return Accepted(Some(Fields(u.channel, own + rest, false)));
    }

    /** The flags set by others, with their two checks, and then the recording flag. */
    method ApplyOthers(u: Flags, isSelf: bool, may: Answers) returns (denial: Option<Denial>, delta: Flags, touched: bool)
      modifies this
      ensures denial == AdminDenial(old(session), u, isSelf, may)
      ensures denial.Some? ==> session == old(session)
      ensures denial.None? ==> session == old(session).(flags := old(session).flags + delta)
      ensures denial.None? ==> delta == AdminUpdates(u) + Only(u, Recording) && (touched <==> HasAdminFields(u) || Recording in u)
      ensures denial.None? && !touched ==> delta == map[]
    {
      ghost var before := session.flags;
      denial, delta, touched := None, map[], false;
      if HasAdminFields(u) {
        if !isSelf && session.channel.Some? && !may(Actor, session.channel.value, MuteDeafen) {
          denial := Some(MuteDeafenDenied);
          return;
        }
        if Is(u, Suppress) {
          denial := Some(SuppressDenied);
          return;
        }
        delta := ApplyAdmin(u);
        touched := true;
      } else {
        assert before + map[] == before;
      }
      var recording := Only(u, Recording);
      session := session.(flags := session.flags + recording);
      MergeAssociates(before, delta, recording);
      delta := delta + recording;
      touched := touched || Recording in u;
    }

    method ApplySelf(u: Flags) returns (delta: Flags)
      modifies this
      ensures delta == SelfUpdates(u) && session == old(session).(flags := old(session).flags + delta)
    {
      ghost var before := session.flags;
      delta := map[];
      var fields := u;
      if SelfDeaf in u {
        var updates: Flags := map[SelfDeaf := u[SelfDeaf]];
        if u[SelfDeaf] {
          fields := fields[SelfMute := true];
          updates := updates[SelfMute := true];
        }
        session := session.(flags := session.flags + updates);
        delta := updates;
      }
      if SelfMute in fields {
        var updates: Flags := map[SelfMute := fields[SelfMute]];
        if !fields[SelfMute] {
          updates := updates[SelfDeaf := false];
        }
        session := session.(flags := session.flags + updates);
        MergeAssociates(before, delta, updates);
        delta := delta + updates;
      }
      assert session.flags == before + delta;
      assert delta == SelfUpdates(u);
    }

    method ApplyAdmin(u: Flags) returns (delta: Flags)
      modifies this
      ensures delta == AdminUpdates(u) && session == old(session).(flags := old(session).flags + delta)
    {
      delta := map[];
      var fields := u;
      if Deaf in u {
        delta := delta[Deaf := u[Deaf]];
        if u[Deaf] {
          fields := fields[Mute := true];
          delta := delta[Mute := true];
        }
      }
      if Mute in fields {
        delta := delta[Mute := fields[Mute]];
        if !fields[Mute] && Deaf !in delta {
          delta := delta[Deaf := false];
        }
      }
      if Suppress in u {
        delta := delta[Suppress := u[Suppress]];
      }
      if Priority in u {
        delta := delta[Priority := u[Priority]];
      }
      assert delta == AdminUpdates(u);
      session := session.(flags := session.flags + delta);
    }
  }

  lemma MergeAssociates(a: Flags, b: Flags, c: Flags)
    ensures (a + b) + c == a + (b + c)
  {
  }

  /** Every flag in a request changes something. */
  lemma SomethingAsked(u: Flags)
    ensures u != map[] <==> SelfUpdates(u) != map[] || HasAdminFields(u) || Recording in u
  {
    if u != map[] {
      var f :| f in u;
      match f
      case SelfMute => assert SelfMute in SelfUpdates(u);
      case SelfDeaf => assert SelfDeaf in SelfUpdates(u);
      case _ =>
    }
  }

  // ----- what every request keeps -----

  /** A deafened user is muted, by oneself or by others. */
  predicate Coupled(flags: Flags) {
    (Is(flags, SelfDeaf) ==> Is(flags, SelfMute)) && (Is(flags, Deaf) ==> Is(flags, Mute))
  }

  datatype Request = Request(u: Fields, isSelf: bool, may: Answers)

  function Run(s: Session, requests: seq<Request>): Session {
    if requests == [] then s else
      var q := requests[|requests| - 1];
      StateAfter(Run(s, requests[..|requests| - 1]), q.u, q.isSelf, q.may)
  }

  lemma SelfUpdatesKeep(flags: Flags, u: Flags)
    requires Coupled(flags)
    ensures Coupled(flags + SelfUpdates(u))
  {
  }

  lemma AdminUpdatesKeep(flags: Flags, u: Flags)
    requires Coupled(flags)
    ensures Coupled(flags + AdminUpdates(u))
  {
  }

  lemma RecordingKeeps(flags: Flags, u: Flags)
    requires Coupled(flags)
    ensures Coupled(flags + Only(u, Recording))
  {
  }

  lemma StepKeepsCoupling(s: Session, u: Fields, isSelf: bool, may: Answers)
    requires Coupled(s.flags)
    ensures Coupled(StateAfter(s, u, isSelf, may).flags)
  {
    var a, b, c := SelfUpdates(u.flags), AdminUpdates(u.flags), Only(u.flags, Recording);
    SelfUpdatesKeep(s.flags, u.flags);
    AdminUpdatesKeep(s.flags + a, u.flags);
    RecordingKeeps(s.flags + a + b, u.flags);
    MergeAssociates(s.flags, a, b);
    MergeAssociates(s.flags, a + b, c);
    assert s.flags + map[] == s.flags;
  }

  /** Over any run of requests, refused or not, deaf implies mute. */
  lemma {:induction false} RunKeepsCoupling(s: Session, requests: seq<Request>)
    requires Coupled(s.flags)
    ensures Coupled(Run(s, requests).flags)
  {
    if requests != [] {
      var q := requests[|requests| - 1];
      RunKeepsCoupling(s, requests[..|requests| - 1]);
      StepKeepsCoupling(Run(s, requests[..|requests| - 1]), q.u, q.isSelf, q.may);
    }
  }

  /**
   * A refused request is broadcast to nobody; it leaves the record as it was exactly when
   * what comes before the failing check changes nothing.
   */
  lemma RefusedUnchangedExactly(s: Session, u: Fields, isSelf: bool, may: Answers)
    requires Verdict(s, u, isSelf, may).Some?
    ensures StateAfter(s, u, isSelf, may) == s
      <==> (u.channel.Some? && MoveDenial(s, u.channel.value, isSelf, may).Some?)
           || ((u.channel.None? || u.channel == s.channel) && (!isSelf || s.flags + SelfUpdates(u.flags) == s.flags))
  {
    assert s.flags + map[] == s.flags;
    if !isSelf && SelfDeaf !in u.flags && SelfMute !in u.flags {
      assert SelfUpdates(u.flags) == map[];
    }
  }

  /** A user who joins a channel and asks for suppression is refused, but has moved. */
  lemma RefusedButMoved(s: Session, may: Answers)
    requires s.channel == Some(1) && may(Actor, 2, Enter)
    ensures var u := Fields(Some(2), map[Suppress := true], false);
      Verdict(s, u, true, may) == Some(SuppressDenied) && StateAfter(s, u, true, may).channel == Some(2)
  {
  }

  // ----- which requests are accepted, and what they do -----

  /** Oneself needs to enter; others are moved by those who may move them and where they can be. */
  predicate MayGo(s: Session, to: int, isSelf: bool, may: Answers) {
    if isSelf then may(Actor, to, Enter)
    else (
      && may(Target, to, Traverse)
      && if may(Target, to, Enter) then may(Actor, to, Move) else s.channel.Some? && may(Actor, s.channel.value, Move))
  }

  /** For all but oneself, the right to mute and deafen where the user is after the move. */
  predicate MaySet(channel: Option<int>, u: Flags, isSelf: bool, may: Answers) {
    Mute in u || Deaf in u || Suppress in u || Priority in u ==> isSelf || channel == None || may(Actor, channel.value, MuteDeafen)
  }

  lemma AcceptedExactly(s: Session, u: Fields, isSelf: bool, may: Answers)
    ensures Verdict(s, u, isSelf, may) == None
      <==> (u.channel == None || MayGo(s, u.channel.value, isSelf, may))
           && (isSelf || (SelfDeaf !in u.flags && SelfMute !in u.flags && !u.profile))
           && MaySet(if u.channel == None then s.channel else u.channel, u.flags, isSelf, may)
           && !(Suppress in u.flags && u.flags[Suppress])
  {
  }

  /** The reason given is the first that holds, in the order of the checks. */
  lemma RefusedFor(s: Session, u: Fields, isSelf: bool, may: Answers)
    requires Verdict(s, u, isSelf, may) != None
    ensures var d := Verdict(s, u, isSelf, may).value;
      && (d == EnterDenied <==> u.channel.Some? && isSelf && !MayGo(s, u.channel.value, isSelf, may))
      && (d == TraverseDenied <==> u.channel.Some? && !isSelf && !may(Target, u.channel.value, Traverse)
                                   && MayGo(s, u.channel.value, isSelf, (who, c, need) => need == Traverse || may(who, c, need)))
      && (d == MoveDenied <==> u.channel.Some? && !isSelf
                               && !MayGo(s, u.channel.value, isSelf, (who, c, need) => need == Traverse || may(who, c, need)))
      && (u.channel == None || MayGo(s, u.channel.value, isSelf, may) ==>
          if !isSelf && (SelfDeaf in u.flags || SelfMute in u.flags || u.profile) then d == SelfFields
          else if !MaySet(if u.channel == None then s.channel else u.channel, u.flags, isSelf, may) then d == MuteDeafenDenied
          else d == SuppressDenied)
  {
  }

  function At(flags: Flags, f: Flag): Option<bool> {
    if f in flags then Some(flags[f]) else None
  }

  /** The value in the request, or the one before. */
  function Or(asked: Option<bool>, before: Option<bool>): Option<bool> {
    if asked.Some? then asked else before
  }

  /** The two flags after a request about them: deafening mutes, and unmuting alone undeafens. */
  predicate CoupledSet(deafAfter: Option<bool>, muteAfter: Option<bool>, deaf: Option<bool>, mute: Option<bool>,
                       deafBefore: Option<bool>, muteBefore: Option<bool>) {
    match deaf
    case Some(true) => deafAfter == Some(true) && muteAfter == Some(true)
    case Some(false) => deafAfter == Some(false) && muteAfter == Or(mute, muteBefore)
    case None => muteAfter == Or(mute, muteBefore) && deafAfter == if mute == Some(false) then Some(false) else deafBefore
  }

  /** What an accepted request leaves, flag by flag. */
  lemma AcceptedDone(s: Session, u: Fields, isSelf: bool, may: Answers)
    requires Verdict(s, u, isSelf, may) == None
    ensures StateAfter(s, u, isSelf, may).channel == if u.channel == None then s.channel else u.channel
    ensures var a, b, q := StateAfter(s, u, isSelf, may).flags, s.flags, u.flags;
      && CoupledSet(At(a, SelfDeaf), At(a, SelfMute), At(q, SelfDeaf), At(q, SelfMute), At(b, SelfDeaf), At(b, SelfMute))
      && CoupledSet(At(a, Deaf), At(a, Mute), At(q, Deaf), At(q, Mute), At(b, Deaf), At(b, Mute))
      && (forall f | f in {Suppress, Priority, Recording} :: At(a, f) == Or(At(q, f), At(b, f)))
  {
    var b, q := s.flags, u.flags;
    AllAssigned(s, u, isSelf, may);
    SelfDone(b, q);
    AdminDone(b + SelfUpdates(q), q);
    RecordingDone(b + SelfUpdates(q) + AdminUpdates(q), q);
  }

  lemma AllAssigned(s: Session, u: Fields, isSelf: bool, may: Answers)
    requires Verdict(s, u, isSelf, may) == None
    ensures StateAfter(s, u, isSelf, may).flags == s.flags + SelfUpdates(u.flags) + AdminUpdates(u.flags) + Only(u.flags, Recording)
  {
    MergeAssociates(s.flags, SelfUpdates(u.flags), AdminUpdates(u.flags));
    MergeAssociates(s.flags, SelfUpdates(u.flags) + AdminUpdates(u.flags), Only(u.flags, Recording));
  }

  ghost predicate Untouched(a: Flags, b: Flags, flags: set<Flag>) {
    forall f <- flags :: At(a, f) == At(b, f)
  }

  lemma SelfDone(b: Flags, q: Flags)
    ensures var a := b + SelfUpdates(q);
      && CoupledSet(At(a, SelfDeaf), At(a, SelfMute), At(q, SelfDeaf), At(q, SelfMute), At(b, SelfDeaf), At(b, SelfMute))
      && Untouched(a, b, {Mute, Deaf, Suppress, Priority, Recording})
  {
  }

  lemma AdminDone(b: Flags, q: Flags)
    ensures var a := b + AdminUpdates(q);
      && CoupledSet(At(a, Deaf), At(a, Mute), At(q, Deaf), At(q, Mute), At(b, Deaf), At(b, Mute))
      && At(a, Suppress) == Or(At(q, Suppress), At(b, Suppress)) && At(a, Priority) == Or(At(q, Priority), At(b, Priority))
      && Untouched(a, b, {SelfMute, SelfDeaf, Recording})
  {
    AdminValues(q);
    PlusAt(b, AdminUpdates(q));
  }

  lemma AdminValues(q: Flags)
    ensures var a := AdminUpdates(q);
      && At(a, Deaf) == (if Deaf in q then Some(q[Deaf]) else if At(q, Mute) == Some(false) then Some(false) else None)
      && At(a, Mute) == (if At(q, Deaf) == Some(true) then Some(true) else At(q, Mute))
      && At(a, Suppress) == At(q, Suppress) && At(a, Priority) == At(q, Priority)
      && At(a, SelfMute) == At(a, SelfDeaf) == At(a, Recording) == None
  {
  }

  lemma PlusAt(b: Flags, x: Flags)
    ensures forall f :: At(b + x, f) == Or(At(x, f), At(b, f))
  {
  }

  lemma RecordingDone(b: Flags, q: Flags)
    ensures var a := b + Only(q, Recording);
      At(a, Recording) == Or(At(q, Recording), At(b, Recording)) && Untouched(a, b, {SelfMute, SelfDeaf, Mute, Deaf, Suppress, Priority})
  {
  }

  /** What a refused one leaves: nothing, the move alone, or the move and one's own two flags. */
  lemma RefusedDone(s: Session, u: Fields, isSelf: bool, may: Answers)
    requires Verdict(s, u, isSelf, may) != None
    ensures var d, after := Verdict(s, u, isSelf, may).value, StateAfter(s, u, isSelf, may);
      var a, b, q := after.flags, s.flags, u.flags;
      && (d in {EnterDenied, TraverseDenied, MoveDenied} ==> after == s)
      && (d in {SelfFields, MuteDeafenDenied, SuppressDenied} ==>
          after.channel == if u.channel == None then s.channel else u.channel)
      && (d == SelfFields ==> a == b)
      && (d in {MuteDeafenDenied, SuppressDenied} ==>
          && CoupledSet(At(a, SelfDeaf), At(a, SelfMute), At(q, SelfDeaf), At(q, SelfMute), At(b, SelfDeaf), At(b, SelfMute))
          && Untouched(a, b, {Mute, Deaf, Suppress, Priority, Recording}))
  {
    assert s.flags + map[] == s.flags;
    SelfDone(s.flags, u.flags);
  }
}
