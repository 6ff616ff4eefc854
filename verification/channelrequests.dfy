/**
 * What the channel handlers of packages/hub-server/src/control-service.ts do to the
 * channel table: create, edit (rename and move) and remove, with their refusals.
 */
module ChannelRequests {
  import opened Wrappers
  import opened Forest
  import opened HubTree

  datatype Need = MakeChannel | Write

  /** Answers that come from elsewhere: blank names, letter case, and ACLs on existing channels. */
  datatype Rules = Rules(blank: string -> bool, fold: string -> string, granted: (int, Need) -> bool)

  /** A channel that does not exist grants nothing. */
  predicate May(channels: Channels, rules: Rules, channel: int, need: Need) {
    channel in channels && rules.granted(channel, need)
  }

  datatype Hub = Hub(channels: Channels, nextId: int)

  datatype Request = Request(channel: Option<int>, name: Option<string>, parent: Option<int>)

  datatype Refusal =
    NameRequired | ParentNotFound | ChannelNotFound | PermissionDenied | NameTaken | CircularReference | RootChannel

  predicate IsCreate(q: Request) {
    q.channel.None? || q.channel == Some(0)
  }

  ghost function Create(h: Hub, q: Request, rules: Rules): (Hub, Result<int, Refusal>) {
    var parent := if q.parent.Some? then q.parent.value else 0;
    if q.name.None? || rules.blank(q.name.value) then (h, Err(NameRequired))
    else if parent > 0 && parent !in h.channels then (h, Err(ParentNotFound))
    else if !May(h.channels, rules, parent, MakeChannel) then (h, Err(PermissionDenied))
    else if Duplicate(h.channels, rules.fold, parent, q.name.value, None) then (h, Err(NameTaken))
    else (Hub(h.channels[h.nextId := Row(q.name.value, parent, true)], h.nextId + 1), Ok(h.nextId))
  }

  /** The refusal of a move, if it is refused; the name checked is the one before the edit. */
  ghost function MoveRefusal(h: Hub, c: int, parent: int, rules: Rules): Option<Refusal>
    requires c in h.channels
  {
    if parent > 0 && parent !in h.channels then Some(ParentNotFound)
    else if Circular(Parents(h.channels), c, parent) then Some(CircularReference)
    else if !May(h.channels, rules, parent, MakeChannel) then Some(PermissionDenied)
    else if Duplicate(h.channels, rules.fold, parent, h.channels[c].name, Some(c)) then Some(NameTaken)
    else None
  }

  ghost function Edit(h: Hub, c: int, q: Request, rules: Rules): (Hub, Result<int, Refusal>) {
    if c !in h.channels then (h, Err(ChannelNotFound))
    else if !May(h.channels, rules, c, Write) then (h, Err(PermissionDenied))
    else if q.name.Some? && Duplicate(h.channels, rules.fold, h.channels[c].parent, q.name.value, Some(c)) then
      (h, Err(NameTaken))
    else
      var refusal := if q.parent.Some? then MoveRefusal(h, c, q.parent.value, rules) else None;
      if refusal.Some? then (h, Err(refusal.value)) else
        (h.(channels := Updated(h.channels, c, q.name, q.parent)), Ok(c))
  }

  ghost function Handle(h: Hub, q: Request, rules: Rules): (Hub, Result<int, Refusal>) {
    if IsCreate(q) then Create(h, q, rules) else Edit(h, q.channel.value, q, rules)
  }

  ghost function Remove(h: Hub, c: int, rules: Rules): (Hub, Result<int, Refusal>) {
    if c !in h.channels then (h, Err(ChannelNotFound))
    else if c == 0 then (h, Err(RootChannel))
    else if !May(h.channels, rules, c, Write) then (h, Err(PermissionDenied))
    else (h.(channels := h.channels - Subtree(Parents(h.channels), c)), Ok(c))
  }

  // ----- the table stays a tree -----

  ghost predicate HubTreeOk(h: Hub) {
    ChannelTree(h.channels) && forall c <- h.channels :: c < h.nextId
  }

  lemma CreateKeepsTree(h: Hub, q: Request, rules: Rules)
    requires HubTreeOk(h)
    ensures HubTreeOk(Create(h, q, rules).0)
  {
    if Create(h, q, rules).1.Ok? {
      var parent := if q.parent.Some? then q.parent.value else 0;
      RowAdded(h, Row(q.name.value, parent, true));
    }
  }

  lemma CreatedParent(h: Hub, q: Request, rules: Rules)
    requires Create(h, q, rules).1.Ok?
    ensures (if q.parent.Some? then q.parent.value else 0) in h.channels
  {
  }

  lemma RowAdded(h: Hub, row: Row)
    requires HubTreeOk(h) && row.parent in h.channels
    ensures HubTreeOk(Hub(h.channels[h.nextId := row], h.nextId + 1))
  {
    var p := Parents(h.channels);
    assert 0 in p && row.parent in p && h.nextId > 0 && h.nextId !in p;
    AddKeepsTree(p, h.nextId, row.parent);
    assert Parents(h.channels[h.nextId := row]) == p[h.nextId := row.parent];
  }

  lemma EditKeepsTree(h: Hub, c: int, q: Request, rules: Rules)
    requires HubTreeOk(h) && c != 0
    ensures HubTreeOk(Edit(h, c, q, rules).0)
  {
    var (h', r) := Edit(h, c, q, rules);
    if r.Ok? {
      var p := Parents(h.channels);
      assert c in p && c > 0;
      if q.parent.Some? {
        assert MoveRefusal(h, c, q.parent.value, rules) == None && q.parent.value in p;
        CircularOnTree(p, c, q.parent.value);
        MoveKeepsTree(p, c, q.parent.value);
        assert Parents(h'.channels) == p[c := q.parent.value];
      } else {
        assert Parents(h'.channels) == p;
      }
    }
  }

  lemma RemoveKeepsTable(h: Hub, c: int, rules: Rules)
    requires HubTreeOk(h)
    ensures HubTreeOk(Remove(h, c, rules).0)
    ensures Remove(h, c, rules).1.Ok? ==> h.channels[c].parent in Remove(h, c, rules).0.channels
  {
    var p := Parents(h.channels);
    if Remove(h, c, rules).1.Ok? {
      RemoveKeepsTree(p, c);
      var h' := Remove(h, c, rules).0;
      assert Parents(h'.channels) == Without(p, Subtree(p, c));
      assert 0 in h'.channels;
      NoCycle(p, c);
    }
  }

  // ----- what an accepted request does -----

  lemma RefusedChangesNothing(h: Hub, q: Request, c: int, rules: Rules)
    ensures Handle(h, q, rules).1.Err? ==> Handle(h, q, rules).0 == h
    ensures Remove(h, c, rules).1.Err? ==> Remove(h, c, rules).0 == h
  {
  }

  /** An accepted creation adds one row, under the next number, as asked for, and nothing else. */
  lemma CreateDone(h: Hub, q: Request, rules: Rules)
    requires IsCreate(q) && Handle(h, q, rules).1.Ok?
    ensures var (after, r) := Handle(h, q, rules);
      && r == Ok(h.nextId) && after.nextId == h.nextId + 1 && after.channels.Keys == h.channels.Keys + {h.nextId}
      && q.name == Some(after.channels[h.nextId].name) && after.channels[h.nextId].inheritAcl
      && after.channels[h.nextId].parent == (if q.parent.Some? then q.parent.value else 0)
      && forall x <- h.channels :: x != h.nextId ==> after.channels[x] == h.channels[x]
  {
  }

  /** An accepted edit gives the channel the name and the parent that were asked for, and changes nothing else. */
  lemma EditDone(h: Hub, q: Request, rules: Rules)
    requires !IsCreate(q) && Handle(h, q, rules).1.Ok?
    ensures var (after, r) := Handle(h, q, rules);
      var c := q.channel.value;
      && r == Ok(c) && c in h.channels && after.nextId == h.nextId && after.channels.Keys == h.channels.Keys
      && (if q.name.Some? then q.name == Some(after.channels[c].name) else after.channels[c].name == h.channels[c].name)
      && (if q.parent.Some? then q.parent == Some(after.channels[c].parent) else after.channels[c].parent == h.channels[c].parent)
      && after.channels[c].inheritAcl == h.channels[c].inheritAcl
      && (forall x <- h.channels :: x != c ==> after.channels[x] == h.channels[x])
      && Parents(after.channels) == if q.parent.Some? then Parents(h.channels)[c := q.parent.value] else Parents(h.channels)
  {
  }

  /** An accepted removal takes out the channel with all that is below it, and changes nothing else. */
  lemma RemoveDone(h: Hub, c: int, rules: Rules)
    requires Remove(h, c, rules).1.Ok?
    ensures var (after, r) := Remove(h, c, rules);
      && r == Ok(c) && after.nextId == h.nextId
      && (forall x :: x in after.channels <==> x in h.channels && !Below(Parents(h.channels), x, c))
      && forall x <- after.channels :: after.channels[x] == h.channels[x]
  {
  }

  // ----- which requests are accepted -----

  /** No channel under this parent, other than one that is left aside, has the name up to letter case. */
  ghost predicate NameFree(h: Hub, rules: Rules, parent: int, name: string, aside: Option<int>) {
    forall x <- h.channels :: h.channels[x].parent == parent && aside != Some(x) ==> rules.fold(h.channels[x].name) != rules.fold(name)
  }

  lemma CreateAcceptedExactly(h: Hub, q: Request, rules: Rules)
    requires IsCreate(q)
    ensures Handle(h, q, rules).1.Ok? <==>
      && q.name.Some? && !rules.blank(q.name.value)
      && var parent := if q.parent.Some? then q.parent.value else 0;
        parent in h.channels && rules.granted(parent, MakeChannel) && NameFree(h, rules, parent, q.name.value, None)
  {
  }

  /**
   * An edit needs an existing channel and Write on it; a new name must be free beside it; a new
   * parent must exist and not be the channel or below it, needs MakeChannel there, and the old
   * name must be free there.
   */
  lemma EditAcceptedExactly(h: Hub, q: Request, rules: Rules)
    requires HubTreeOk(h) && !IsCreate(q)
    ensures var c := q.channel.value;
      Handle(h, q, rules).1.Ok? <==>
        && c in h.channels && rules.granted(c, Write)
        && (q.name.Some? ==> NameFree(h, rules, h.channels[c].parent, q.name.value, Some(c)))
        && (q.parent.Some? ==> MayMoveTo(h, rules, c, q.parent.value))
  {
    var c := q.channel.value;
    if c in h.channels && q.parent.Some? {
      assert c in Parents(h.channels) && c > 0;
      CircularOnTree(Parents(h.channels), c, q.parent.value);
    }
  }

  ghost predicate MayMoveTo(h: Hub, rules: Rules, c: int, parent: int)
    requires c in h.channels
  {
    && parent in h.channels && !Below(Parents(h.channels), parent, c)
    && rules.granted(parent, MakeChannel) && NameFree(h, rules, parent, h.channels[c].name, Some(c))
  }

  lemma RemoveAcceptedExactly(h: Hub, c: int, rules: Rules)
    ensures Remove(h, c, rules).1.Ok? <==> c in h.channels && c != 0 && rules.granted(c, Write)
  {
  }

  /** A refused creation is told something that is so. */
  lemma CreateRefusalsTrue(h: Hub, q: Request, rules: Rules)
    requires IsCreate(q) && Handle(h, q, rules).1.Err?
    ensures var parent := if q.parent.Some? then q.parent.value else 0;
      match Handle(h, q, rules).1.error
      case NameRequired => q.name.None? || rules.blank(q.name.value)
      case ParentNotFound => parent !in h.channels
      case PermissionDenied => parent !in h.channels || !rules.granted(parent, MakeChannel)
      case NameTaken => q.name.Some? && !NameFree(h, rules, parent, q.name.value, None)
      case _ => false
  {
  }

  /** ... and so is a refused edit. */
  lemma EditRefusalsTrue(h: Hub, q: Request, rules: Rules)
    requires HubTreeOk(h) && !IsCreate(q) && Handle(h, q, rules).1.Err?
    ensures var c := q.channel.value;
      match Handle(h, q, rules).1.error
      case ChannelNotFound => c !in h.channels
      case ParentNotFound => q.parent.Some? && q.parent.value !in h.channels
      case CircularReference => q.parent.Some? && Below(Parents(h.channels), q.parent.value, c)
      case PermissionDenied => c in h.channels && (!rules.granted(c, Write)
        || (q.parent.Some? && (q.parent.value !in h.channels || !rules.granted(q.parent.value, MakeChannel))))
      case NameTaken => c in h.channels
        && ((q.name.Some? && !NameFree(h, rules, h.channels[c].parent, q.name.value, Some(c)))
            || (q.parent.Some? && !NameFree(h, rules, q.parent.value, h.channels[c].name, Some(c))))
      case _ => false
  {
    if q.channel.value in h.channels && q.parent.Some? {
      assert q.channel.value in Parents(h.channels) && q.channel.value > 0;
      CircularOnTree(Parents(h.channels), q.channel.value, q.parent.value);
    }
  }

  // ----- sibling names -----

  /** No two channels under one parent have the same name, up to letter case. */
  ghost predicate SiblingNamesDiffer(channels: Channels, fold: string -> string) {
    forall x, y :: x in channels && y in channels && x != y && channels[x].parent == channels[y].parent ==>
      fold(channels[x].name) != fold(channels[y].name)
  }

  /** A rename and a move at once, to a place where the new name is taken. */
  ghost predicate NameTakenThere(h: Hub, q: Request, rules: Rules) {
    && !IsCreate(q) && q.name.Some? && q.parent.Some?
    && Duplicate(h.channels, rules.fold, q.parent.value, q.name.value, q.channel)
  }

  /**
   * The handler keeps sibling names different exactly when it does not accept such a
   * request: a move checks the old name in the new place, a rename the new name in the old.
   */
  lemma NamesDifferExactly(h: Hub, q: Request, rules: Rules)
    requires SiblingNamesDiffer(h.channels, rules.fold)
    requires forall c <- h.channels :: c < h.nextId
    requires Handle(h, q, rules).1.Ok?
    ensures SiblingNamesDiffer(Handle(h, q, rules).0.channels, rules.fold) <==> !NameTakenThere(h, q, rules)
  {
    var after, fold := Handle(h, q, rules).0.channels, rules.fold;
    if NameTakenThere(h, q, rules) {
      var c := q.channel.value;
      var x :| x in h.channels && h.channels[x].parent == q.parent.value && Some(x) != q.channel
        && fold(h.channels[x].name) == fold(q.name.value);
      assert after[x] == h.channels[x] && after[c].parent == after[x].parent && fold(after[c].name) == fold(after[x].name);
    }
  }

  function ClashHub(): Hub {
    Hub(map[0 := Row("Root", -1, true), 1 := Row("r", 0, true), 2 := Row("a", 1, true), 3 := Row("b", 0, true)], 4)
  }

  lemma ClashMoveNotCircular()
    ensures !Circular(Parents(ClashHub().channels), 3, 1)
  {
    var p := Parents(ClashHub().channels);
    assert p[1] == 0 && Climb(p, 1, 0) == 1 && Climb(p, 1, 1) == 0;
    forall k: nat
      ensures Climb(p, 1, k) != 3
    {
      if k >= 1 {
        ClimbEnded(p, 1, 1, k);
      }
    }
  }

  /** Such a request is accepted: channel 3 becomes the second "a" under channel 1. */
  lemma NamesCanClash(rules: Rules)
    requires rules.fold("a") != rules.fold("b") && rules.fold("a") != rules.fold("r") && rules.fold("b") != rules.fold("r")
    requires rules.granted(3, Write) && rules.granted(1, MakeChannel)
    ensures SiblingNamesDiffer(ClashHub().channels, rules.fold)
    ensures var q := Request(Some(3), Some("a"), Some(1));
      Handle(ClashHub(), q, rules).1 == Ok(3) && NameTakenThere(ClashHub(), q, rules)
  {
    var h := ClashHub();
    var q := Request(Some(3), Some("a"), Some(1));
    ClashMoveNotCircular();
    assert h.channels[2] == Row("a", 1, true) && h.channels[3] == Row("b", 0, true);
    assert !Duplicate(h.channels, rules.fold, 0, "a", Some(3));
    assert !Duplicate(h.channels, rules.fold, 1, "b", Some(3));
    assert MoveRefusal(h, 3, 1, rules) == None;
    assert Handle(h, q, rules) == Edit(h, 3, q, rules);
  }

  // ----- whole runs -----

  datatype Op = State(q: Request, rules: Rules) | Removal(channel: int, rules: Rules)

  ghost function Apply(h: Hub, op: Op): Hub {
    match op
    case State(q, rules) => Handle(h, q, rules).0
    case Removal(c, rules) => Remove(h, c, rules).0
  }

  ghost function Run(h: Hub, ops: seq<Op>): Hub {
    if ops == [] then h else Apply(Run(h, ops[..|ops| - 1]), ops[|ops| - 1])
  }

  /** Whatever is asked, accepted or refused, the channels stay a tree under channel 0. */
  lemma {:induction false} RunKeepsTree(h: Hub, ops: seq<Op>)
    requires HubTreeOk(h)
    ensures HubTreeOk(Run(h, ops))
  {
    if ops != [] {
      var before, last := Run(h, ops[..|ops| - 1]), ops[|ops| - 1];
      RunKeepsTree(h, ops[..|ops| - 1]);
      match last
      case State(q, rules) =>
        if IsCreate(q) {
          CreateKeepsTree(before, q, rules);
        } else {
          EditKeepsTree(before, q.channel.value, q, rules);
        }
      case Removal(c, rules) =>
        RemoveKeepsTable(before, c, rules);
    }
  }

  /** The table of a new Hub is such a tree. */
  lemma NewHubOk(rootName: string)
    ensures HubTreeOk(Hub(map[0 := Row(rootName, -1, true)], 1))
  {
    var p := Parents(map[0 := Row(rootName, -1, true)]);
    BelowSelf(p, 0);
  }

  /** So on a new Hub the channels are a tree after any requests, accepted or refused. */
  lemma NewHubKeepsTree(rootName: string, ops: seq<Op>)
    ensures HubTreeOk(Run(Hub(map[0 := Row(rootName, -1, true)], 1), ops))
  {
    NewHubOk(rootName);
    RunKeepsTree(Hub(map[0 := Row(rootName, -1, true)], 1), ops);
  }
}
