/**
 * Channel group membership, computed twice: root to leaf by `loadChannelGroups` of
 * packages/hub-server/src/channel-group-manager.ts, and leaf to root by
 * `calculateGroupMembers` of packages/protocol/src/permission.ts.
 */
module Groups {
  import opened Wrappers
  import opened Forest
  import opened Permissions

  datatype GroupDef = GroupDef(name: string, inherit: bool, inheritable: bool, add: seq<int>, remove: seq<int>)

  datatype FullGroup = FullGroup(def: GroupDef, members: set<int>)

  function Elems(s: seq<int>): set<int> {
    set x <- s
  }

  /** Parent members, then the added ones, then without the removed ones. */
  function Effective(parentMembers: set<int>, g: GroupDef): set<int> {
    parentMembers + Elems(g.add) - Elems(g.remove)
  }

  method CalculateInheritedMembers(parentMembers: set<int>, g: GroupDef) returns (members: set<int>)
    ensures members == Effective(parentMembers, g)
  {
    members := parentMembers;
    for i := 0 to |g.add|
      invariant members == parentMembers + Elems(g.add[..i])
    {
      assert g.add[..i + 1] == g.add[..i] + [g.add[i]];
      members := members + {g.add[i]};
    }
    assert g.add[..|g.add|] == g.add;
    for i := 0 to |g.remove|
      invariant members == parentMembers + Elems(g.add) - Elems(g.remove[..i])
    {
      assert g.remove[..i + 1] == g.remove[..i] + [g.remove[i]];
      members := members - {g.remove[i]};
    }
    assert g.remove[..|g.remove|] == g.remove;
  }

  // ----- root to leaf -----

  /** A definition met on the way down, on top of what the map holds under its name. */
  function Merge(existing: Option<FullGroup>, g: GroupDef): FullGroup {
    FullGroup(g, if existing.Some? && existing.value.def.inheritable && g.inherit
                 then Effective(existing.value.members, g) else Effective({}, g))
  }

  type GroupMap = map<string, FullGroup>

  function Lookup(m: GroupMap, name: string): Option<FullGroup> {
    if name in m then Some(m[name]) else None
  }

  function LoadLevel(m: GroupMap, groups: seq<GroupDef>): GroupMap {
    if groups == [] then m else
      var before := LoadLevel(m, groups[..|groups| - 1]);
      var g := groups[|groups| - 1];
      before[g.name := Merge(Lookup(before, g.name), g)]
  }

  function Load(path: seq<seq<GroupDef>>): GroupMap {
    if path == [] then map[] else LoadLevel(Load(path[..|path| - 1]), path[|path| - 1])
  }

  /** The nested loops over the hierarchy and the groups of each channel. */
  method LoadChannelGroups(path: seq<seq<GroupDef>>) returns (m: GroupMap)
    ensures m == Load(path)
  {
    m := map[];
    for i := 0 to |path|
      invariant m == Load(path[..i])
    {
      assert path[..i + 1][..i] == path[..i];
      ghost var start := m;
      var groups := path[i];
      for j := 0 to |groups|
        invariant m == LoadLevel(start, groups[..j])
      {
        assert groups[..j + 1][..j] == groups[..j];
        var g := groups[j];
        if g.name in m {
          var existing := m[g.name];
          if !existing.def.inheritable || !g.inherit {
            var members := CalculateInheritedMembers({}, g);
            m := m[g.name := FullGroup(g, members)];
          } else {
            var members := CalculateInheritedMembers(existing.members, g);
            m := m[g.name := FullGroup(g, members)];
          }
        } else {
          var members := CalculateInheritedMembers({}, g);
          m := m[g.name := FullGroup(g, members)];
        }
      }
      assert groups[..|groups|] == groups;
    }
    assert path[..|path|] == path;
  }

  /** The definition of a name among the groups of one channel. */
  function Find(groups: seq<GroupDef>, name: string): Option<GroupDef> {
    if groups == [] then None else
      var g := groups[|groups| - 1];
      if g.name == name then Some(g) else Find(groups[..|groups| - 1], name)
  }

  ghost predicate DistinctNames(groups: seq<GroupDef>) {
    forall i, j :: 0 <= i < j < |groups| ==> groups[i].name != groups[j].name
  }

  function Column(path: seq<seq<GroupDef>>, name: string): seq<Option<GroupDef>> {
    seq(|path|, i requires 0 <= i < |path| => Find(path[i], name))
  }

  /** The fold for a single name: levels that do not define it are passed over. */
  function Fold(column: seq<Option<GroupDef>>): Option<FullGroup> {
    if column == [] then None else
      var before := Fold(column[..|column| - 1]);
      match column[|column| - 1]
      case None => before
      case Some(g) => Some(Merge(before, g))
  }

  lemma {:induction false} FindMeansDefined(groups: seq<GroupDef>, name: string)
    ensures Find(groups, name).None? ==> forall g <- groups :: g.name != name
    ensures Find(groups, name).Some? ==> Find(groups, name).value in groups && Find(groups, name).value.name == name
  {
    if groups != [] {
      FindMeansDefined(groups[..|groups| - 1], name);
    }
  }

  lemma {:induction false} LevelByName(m: GroupMap, groups: seq<GroupDef>, name: string)
    requires DistinctNames(groups)
    ensures Lookup(LoadLevel(m, groups), name)
      == match Find(groups, name) { case None => Lookup(m, name) case Some(g) => Some(Merge(Lookup(m, name), g)) }
  {
    if groups != [] {
      var front, g := groups[..|groups| - 1], groups[|groups| - 1];
      LevelByName(m, front, name);
      if g.name == name {
        FindMeansDefined(front, name);
      }
    }
  }

  /** The loaded map holds, under each name, the fold over that name's definitions. */
  lemma {:induction false} LoadByName(path: seq<seq<GroupDef>>, name: string)
    requires forall groups <- path :: DistinctNames(groups)
    ensures Lookup(Load(path), name) == Fold(Column(path, name))
  {
    if path != [] {
      var front := path[..|path| - 1];
      LoadByName(front, name);
      LevelByName(Load(front), path[|path| - 1], name);
      assert Column(path, name)[..|path| - 1] == Column(front, name);
    }
  }

  // ----- leaf to root -----

  /** Root first, the channel itself last. */
  ghost function Hierarchy(p: map<int, int>, c: int): seq<int>
    requires Tree(p) && c in p
    decreases |Above(p, c)|
  {
    if c == 0 then [0] else
      ParentHasLessAbove(p, c);
      Hierarchy(p, p[c]) + [c]
  }

  /** The effective members at c, through the parents as long as the group is inherited. */
  ghost function GroupMembers(p: map<int, int>, defs: int -> Option<GroupDef>, c: int): set<int>
    requires Tree(p) && c in p
    decreases |Above(p, c)|
  {
    match defs(c)
    case None => {}
    case Some(g) =>
      if g.inherit && c != 0 && defs(p[c]).Some? && defs(p[c]).value.inheritable then
        ParentHasLessAbove(p, c);
        Effective(GroupMembers(p, defs, p[c]), g)
      else Effective({}, g)
  }

  method CalculateGroupMembers(p: map<int, int>, defs: int -> Option<GroupDef>, c: int) returns (members: set<int>)
    requires Tree(p) && c in p && p[0] < 0
    ensures members == GroupMembers(p, defs, c)
    decreases |Above(p, c)|
  {
    members := {};
    var group := defs(c);
    if group.None? {
      return;
    }
    var g := group.value;
    if g.inherit && p[c] >= 0 {
      if p[c] in p {
        var parentGroup := defs(p[c]);
        if parentGroup.Some? && parentGroup.value.inheritable {
          ParentHasLessAbove(p, c);
          members := CalculateGroupMembers(p, defs, p[c]);
        }
      }
    }
    members := CalculateInheritedMembers(members, g);
  }

  /** The same along the hierarchy: the last level, on top of the levels before it. */
  function Members(column: seq<Option<GroupDef>>): set<int> {
    if column == [] || column[|column| - 1].None? then {} else
      var g, n := column[|column| - 1].value, |column| - 1;
      if g.inherit && n > 0 && column[n - 1].Some? && column[n - 1].value.inheritable
      then Effective(Members(column[..n]), g) else Effective({}, g)
  }

  function DefsAlong(defs: int -> Option<GroupDef>, path: seq<int>): seq<Option<GroupDef>> {
    seq(|path|, i requires 0 <= i < |path| => defs(path[i]))
  }

  lemma {:induction false} MembersAlongHierarchy(p: map<int, int>, defs: int -> Option<GroupDef>, c: int)
    requires Tree(p) && c in p
    ensures Hierarchy(p, c) != [] && Hierarchy(p, c)[|Hierarchy(p, c)| - 1] == c
    ensures GroupMembers(p, defs, c) == Members(DefsAlong(defs, Hierarchy(p, c)))
    decreases |Above(p, c)|
  {
    var path := Hierarchy(p, c);
    var column := DefsAlong(defs, path);
    if c == 0 {
      assert column == [defs(0)];
    } else {
      ParentHasLessAbove(p, c);
      MembersAlongHierarchy(p, defs, p[c]);
      assert column[..|path| - 1] == DefsAlong(defs, Hierarchy(p, p[c]));
    }
  }

  // ----- who is a member -----

  /** Level i hands a member of the level before it on. */
  ghost predicate Passes(column: seq<GroupDef>, i: nat, u: int)
    requires 0 < i < |column|
  {
    u !in column[i].remove && column[i].inherit && column[i - 1].inheritable
  }

  /** Membership from level j on: added and not removed there, and handed on ever after. */
  ghost predicate Joins(column: seq<GroupDef>, j: nat, u: int) {
    && j < |column|
    && u in column[j].add && u !in column[j].remove
    && forall i :: j < i < |column| ==> Passes(column, i, u)
  }

  function Defined(column: seq<GroupDef>): seq<Option<GroupDef>> {
    seq(|column|, i requires 0 <= i < |column| => Some(column[i]))
  }

  lemma JoinsBefore(column: seq<GroupDef>, j: nat, u: int)
    requires j < |column| - 1
    ensures Joins(column, j, u) <==> Joins(column[..|column| - 1], j, u) && Passes(column, |column| - 1, u)
  {
    var front := column[..|column| - 1];
    forall i | j < i < |front|
      ensures Passes(front, i, u) == Passes(column, i, u)
    {
    }
  }

  /** A user is a member iff some level since the last break adds them and no later one removes them. */
  lemma {:induction false} MemberExactly(column: seq<GroupDef>, u: int)
    ensures u in Members(Defined(column)) <==> exists j: nat :: Joins(column, j, u)
  {
    if column != [] {
      var n := |column| - 1;
      var front, g := column[..n], column[n];
      MemberExactly(front, u);
      assert Defined(column)[..n] == Defined(front);
      forall j: nat | j < n
        ensures Joins(column, j, u) <==> Joins(front, j, u) && Passes(column, n, u)
      {
        JoinsBefore(column, j, u);
      }
      assert Joins(column, n, u) <==> u in g.add && u !in g.remove;
      assert n > 0 ==> (u in Members(Defined(column)) <==>
        (u in g.add && u !in g.remove) || (u in Members(Defined(front)) && Passes(column, n, u)));
    }
  }

  // ----- the two agree -----

  /** The definitions along the path, without the channels that lack one. */
  function Defs(column: seq<Option<GroupDef>>): (defs: seq<GroupDef>)
    ensures |defs| <= |column|
  {
    if column == [] then [] else
      var before := Defs(column[..|column| - 1]);
      match column[|column| - 1]
      case None => before
      case Some(g) => before + [g]
  }

  /** How many of them come after the last gap. */
  function Unbroken(column: seq<Option<GroupDef>>): (n: nat)
    ensures n <= |Defs(column)|
  {
    if column == [] || column[|column| - 1].None? then 0 else Unbroken(column[..|column| - 1]) + 1
  }

  /** The fold takes no notice of gaps. */
  lemma {:induction false} FoldSkipsGaps(column: seq<Option<GroupDef>>)
    ensures var defs := Defs(column);
      Fold(column) == if defs == [] then None else Some(FullGroup(defs[|defs| - 1], Members(Defined(defs))))
  {
    if column != [] {
      var front, last := column[..|column| - 1], column[|column| - 1];
      FoldSkipsGaps(front);
      if last.Some? {
        var before := Defs(front);
        assert Defined(before + [last.value])[..|before|] == Defined(before);
      }
    }
  }

  /** The definitions after the last gap. */
  function Tail(column: seq<Option<GroupDef>>): seq<GroupDef> {
    if column == [] || column[|column| - 1].None? then [] else Tail(column[..|column| - 1]) + [column[|column| - 1].value]
  }

  lemma {:induction false} TailEnds(column: seq<Option<GroupDef>>)
    ensures var defs := Defs(column); |Tail(column)| == Unbroken(column) && defs[|defs| - Unbroken(column)..] == Tail(column)
  {
    if column != [] && column[|column| - 1].Some? {
      TailEnds(column[..|column| - 1]);
    }
  }

  /** The recursion stops at a gap: only what comes after the last one counts. */
  lemma {:induction false} MembersAfterGap(column: seq<Option<GroupDef>>)
    ensures Members(column) == Members(Defined(Tail(column)))
  {
    if column != [] && column[|column| - 1].Some? {
      var front, g := column[..|column| - 1], column[|column| - 1].value;
      MembersAfterGap(front);
      MembersSnoc(Tail(front), g);
    }
  }

  /** One more definition at the end of an unbroken column. */
  lemma MembersSnoc(tail: seq<GroupDef>, g: GroupDef)
    ensures Members(Defined(tail + [g]))
      == if g.inherit && tail != [] && tail[|tail| - 1].inheritable then Effective(Members(Defined(tail)), g) else Effective({}, g)
  {
    assert Defined(tail + [g])[..|tail|] == Defined(tail);
  }

  /** Joining is the same seen from any level above. */
  lemma JoinsAfter(defs: seq<GroupDef>, from: nat, j: nat, u: int)
    requires from <= j < |defs|
    ensures Joins(defs, j, u) <==> Joins(defs[from..], j - from, u)
  {
    var tail := defs[from..];
    forall i | j < i < |defs|
      ensures Passes(defs, i, u) <==> Passes(tail, i - from, u)
    {
    }
    if Joins(tail, j - from, u) {
      forall i | j < i < |defs|
        ensures Passes(defs, i, u)
      {
        assert Passes(tail, i - from, u);
      }
    }
    if Joins(defs, j, u) {
      forall i | j - from < i < |tail|
        ensures Passes(tail, i, u)
      {
        assert Passes(defs, i + from, u);
      }
    }
  }

  /** The members under a name in the loaded map. */
  function FoldMembers(column: seq<Option<GroupDef>>): set<int> {
    var group := Fold(column);
    if group.Some? then group.value.members else {}
  }

  /** A user whom only the fold counts: joined above the last gap, handed on ever after, and not joined again. */
  ghost predicate AcrossGap(column: seq<Option<GroupDef>>, u: int) {
    var defs := Defs(column);
    var below := |defs| - Unbroken(column);
    (exists j: nat :: j < below && Joins(defs, j, u)) && !(exists j: nat :: j >= below && Joins(defs, j, u))
  }

  /** Who is a member, by the fold and by the recursion, for any column of definitions. */
  lemma MembersExactly(column: seq<Option<GroupDef>>, u: int)
    ensures var defs := Defs(column);
      (u in FoldMembers(column) <==> exists j: nat :: Joins(defs, j, u))
      && (u in Members(column) <==> exists j: nat :: j >= |defs| - Unbroken(column) && Joins(defs, j, u))
  {
    var defs := Defs(column);
    var below := |defs| - Unbroken(column);
    FoldSkipsGaps(column);
    MemberExactly(defs, u);
    MembersAfterGap(column);
    TailEnds(column);
    MemberExactly(defs[below..], u);
    forall j: nat | below <= j < |defs|
      ensures Joins(defs, j, u) <==> Joins(defs[below..], j - below, u)
    {
      JoinsAfter(defs, below, j, u);
    }
    if j: nat :| Joins(defs[below..], j, u) {
      assert Joins(defs, j + below, u);
    }
  }

  /** The fold counts the members of the recursion and those across a gap. */
  lemma AcrossGapExactly(column: seq<Option<GroupDef>>, u: int)
    ensures AcrossGap(column, u) <==> u in FoldMembers(column) && u !in Members(column)
    ensures u in Members(column) ==> u in FoldMembers(column)
  {
    var defs, below := Defs(column), |Defs(column)| - Unbroken(column);
    MembersExactly(column, u);
    if AcrossGap(column, u) {
      var j: nat :| j < below && Joins(defs, j, u);
      assert u in FoldMembers(column);
    } else if u in FoldMembers(column) {
      var j: nat :| Joins(defs, j, u);
      assert j < below || j >= below;
    }
  }

  /** Both algorithms give the same members exactly when nobody is a member across a gap. */
  lemma MembersAgreeExactly(column: seq<Option<GroupDef>>)
    ensures FoldMembers(column) == Members(column) <==> forall u :: !AcrossGap(column, u)
  {
    forall u
      ensures AcrossGap(column, u) <==> u in FoldMembers(column) && u !in Members(column)
      ensures u in Members(column) ==> u in FoldMembers(column)
    {
      AcrossGapExactly(column, u);
    }
    if forall u :: !AcrossGap(column, u) {
      forall u
        ensures u in FoldMembers(column) <==> u in Members(column)
      {
        assert !AcrossGap(column, u);
      }
    } else {
      var u :| AcrossGap(column, u);
      assert u in FoldMembers(column) && u !in Members(column);
    }
  }

  /** User 7 joins at the root, the next channel lacks the group, two more inherit it. */
  lemma GapCanMatter()
    ensures var g, add := GroupDef("g", true, true, [], []), GroupDef("g", true, true, [7], []);
      var column := [Some(add), None, Some(g), Some(g)];
      AcrossGap(column, 7) && 7 in FoldMembers(column) && 7 !in Members(column)
  {
    var g, add := GroupDef("g", true, true, [], []), GroupDef("g", true, true, [7], []);
    GapColumn(g, add);
    GapJoins(g, add, 7);
    MembersExactly([Some(add), None, Some(g), Some(g)], 7);
  }

  lemma GapColumn(g: GroupDef, add: GroupDef)
    ensures var column := [Some(add), None, Some(g), Some(g)]; Defs(column) == [add, g, g] && Unbroken(column) == 2
  {
    var column := [Some(add), None, Some(g), Some(g)];
    var one, two, three := [Some(add)], [Some(add), None], [Some(add), None, Some(g)];
    assert column[..3] == three && three[..2] == two && two[..1] == one && one[..0] == [];
    assert Defs(one) == [add];
    assert Defs(two) == [add] && Unbroken(two) == 0;
    assert Defs(three) == [add, g] && Unbroken(three) == 1;
  }

  lemma GapJoins(g: GroupDef, add: GroupDef, u: int)
    requires g.inherit && g.inheritable && g.add == [] == g.remove && add.inheritable && u in add.add && u !in add.remove
    ensures Joins([add, g, g], 0, u) && forall j: nat :: j > 0 ==> !Joins([add, g, g], j, u)
  {
    var defs := [add, g, g];
    assert Passes(defs, 1, u) && Passes(defs, 2, u);
  }

  /** Without gaps there is nobody to disagree about. */
  lemma {:induction false} NoGaps(column: seq<Option<GroupDef>>)
    requires forall d <- column :: d.Some?
    ensures Unbroken(column) == |column| == |Defs(column)| && Defined(Defs(column)) == column
  {
    if column != [] {
      assert column[|column| - 1] in column;
      NoGaps(column[..|column| - 1]);
      assert column == column[..|column| - 1] + [column[|column| - 1]];
    }
  }

  // ----- on a tree of channels -----

  /** The groups of the channels on the path to c, as the database lists them. */
  ghost function Rows(p: map<int, int>, groups: int -> seq<GroupDef>, c: int): seq<seq<GroupDef>>
    requires Tree(p) && c in p
  {
    seq(|Hierarchy(p, c)|, i requires 0 <= i < |Hierarchy(p, c)| => groups(Hierarchy(p, c)[i]))
  }

  function Named(groups: int -> seq<GroupDef>, name: string): int -> Option<GroupDef> {
    x => Find(groups(x), name)
  }

  /** The definition of a group at each channel of the path. */
  ghost function PathColumn(p: map<int, int>, groups: int -> seq<GroupDef>, c: int, name: string): seq<Option<GroupDef>>
    requires Tree(p) && c in p
  {
    DefsAlong(Named(groups, name), Hierarchy(p, c))
  }

  /** Both algorithms, on one tree and one set of definitions, work on this column. */
  lemma BothByColumn(p: map<int, int>, groups: int -> seq<GroupDef>, c: int, name: string)
    requires Tree(p) && c in p && forall x :: DistinctNames(groups(x))
    ensures Lookup(Load(Rows(p, groups, c)), name) == Fold(PathColumn(p, groups, c, name))
    ensures GroupMembers(p, Named(groups, name), c) == Members(PathColumn(p, groups, c, name))
  {
    forall row | row in Rows(p, groups, c)
      ensures DistinctNames(row)
    {
      var i :| 0 <= i < |Hierarchy(p, c)| && row == groups(Hierarchy(p, c)[i]);
      var x := Hierarchy(p, c)[i];
      assert DistinctNames(groups(x));
    }
    LoadByName(Rows(p, groups, c), name);
    assert Column(Rows(p, groups, c), name) == PathColumn(p, groups, c, name);
    MembersAlongHierarchy(p, Named(groups, name), c);
  }

  /**
   * When every channel on the path defines the group, the loaded map holds it with exactly the
   * members of the recursive calculation.
   */
  lemma SameMembers(p: map<int, int>, groups: int -> seq<GroupDef>, c: int, name: string)
    requires Tree(p) && c in p && forall x :: DistinctNames(groups(x))
    requires forall x <- Hierarchy(p, c) :: Find(groups(x), name).Some?
    ensures Find(groups(c), name).Some?
    ensures Lookup(Load(Rows(p, groups, c)), name)
      == Some(FullGroup(Find(groups(c), name).value, GroupMembers(p, Named(groups, name), c)))
  {
    var column := PathColumn(p, groups, c, name);
    BothByColumn(p, groups, c, name);
    ColumnDefined(p, groups, c, name);
    SameByColumn(column);
  }

  lemma ColumnDefined(p: map<int, int>, groups: int -> seq<GroupDef>, c: int, name: string)
    requires Tree(p) && c in p && forall x <- Hierarchy(p, c) :: Find(groups(x), name).Some?
    ensures var column := PathColumn(p, groups, c, name);
      column != [] && column[|column| - 1] == Find(groups(c), name) && forall d <- column :: d.Some?
  {
    var path, column := Hierarchy(p, c), PathColumn(p, groups, c, name);
    MembersAlongHierarchy(p, Named(groups, name), c);
    forall d | d in column
      ensures d.Some?
    {
      var i :| 0 <= i < |column| && column[i] == d;
      var x := path[i];
      assert x in path && column[i] == Find(groups(x), name);
    }
  }

  lemma SameByColumn(column: seq<Option<GroupDef>>)
    requires column != [] && forall d <- column :: d.Some?
    ensures column[|column| - 1].Some? && Fold(column) == Some(FullGroup(column[|column| - 1].value, Members(column)))
  {
    FoldSkipsGaps(column);
    NoGaps(column);
    assert column[|column| - 1] in column;
    assert Defined(Defs(column))[|column| - 1] == column[|column| - 1];
  }

  /**
   * In general they hold the same members exactly when nobody is a member across a gap, and then
   * as always a user is a member of the recursive calculation exactly when some level after
   * the last gap adds them, and they are handed on from there.
   */
  lemma TreeMembersExactly(p: map<int, int>, groups: int -> seq<GroupDef>, c: int, name: string, u: int)
    requires Tree(p) && c in p && forall x :: DistinctNames(groups(x))
    ensures var column := PathColumn(p, groups, c, name);
      var loaded := Lookup(Load(Rows(p, groups, c)), name);
      var members := GroupMembers(p, Named(groups, name), c);
      ((if loaded.Some? then loaded.value.members else {}) == members <==> forall v :: !AcrossGap(column, v))
      && (loaded.Some? && u in loaded.value.members <==> exists j: nat :: Joins(Defs(column), j, u))
      && (u in members <==> exists j: nat :: j >= |Defs(column)| - Unbroken(column) && Joins(Defs(column), j, u))
  {
    BothByColumn(p, groups, c, name);
    MembersAgreeExactly(PathColumn(p, groups, c, name));
    MembersExactly(PathColumn(p, groups, c, name), u);
  }

  // ----- the Edge's membership check -----

  /** A group as it is stored with a channel. */
  datatype StoredGroup = StoredGroup(add: seq<int>, remove: seq<int>, inherited: set<int>)

  /** What a stored group says of a user, if it says anything. */
  function Says(g: Option<StoredGroup>, u: int): Option<bool> {
    if g.None? then None
    else if u in g.value.add then Some(true)
    else if u in g.value.remove then Some(false)
    else if u in g.value.inherited then Some(true)
    else None
  }

  /** `inherited_members` is stored as the effective members that the channel itself does not add. */
  function Stored(effective: set<int>, g: GroupDef): StoredGroup {
    StoredGroup(g.add, g.remove, set u <- effective | u !in g.add)
  }

  /** The stored group names just the computed members, except for a user both added and removed. */
  lemma StoredCheckExactly(parentMembers: set<int>, g: GroupDef, u: int)
    ensures var effective := Effective(parentMembers, g);
      (Says(Some(Stored(effective, g)), u) == Some(true) <==> u in effective) <==> !(u in g.add && u in g.remove)
  {
    assert u in Effective(parentMembers, g) <==> (u in parentMembers || u in g.add) && u !in g.remove;
  }

  /** A user both added and removed counts for the stored check alone. */
  lemma AddedAndRemoved()
    ensures var g := GroupDef("g", true, true, [7], [7]);
      Says(Some(Stored(Effective({}, g), g)), 7) == Some(true) && 7 !in Effective({}, g)
  {
    StoredCheckExactly({}, GroupDef("g", true, true, [7], [7]), 7);
  }
}
