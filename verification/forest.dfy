/**
 * Channel trees given by parent links, with channel 0 as root: what it means to be
 * below a channel, and which edits keep the links a tree.
 */
module Forest {
  /** The channel reached from x by following k parent links, stopping at the root. */
  function Up(p: map<int, int>, x: int, k: nat): int
    decreases k
  {
    if k == 0 || x == 0 || x !in p then x else Up(p, p[x], k - 1)
  }

  /** x is a itself or one of its descendants. */
  ghost predicate Below(p: map<int, int>, x: int, a: int) {
    exists k: nat :: Up(p, x, k) == a
  }

  /** Every channel has an existing parent, and following parents leads to the root. */
  ghost predicate Tree(p: map<int, int>) {
    && 0 in p
    && (forall x <- p :: x >= 0)
    && (forall x <- p {:trigger p[x]} :: x != 0 ==> p[x] in p)
    && (forall x <- p :: Below(p, x, 0))
  }

  ghost function Subtree(p: map<int, int>, a: int): set<int> {
    set x <- p | Below(p, x, a)
  }

  lemma {:induction false} UpAdds(p: map<int, int>, x: int, j: nat, k: nat)
    ensures Up(p, Up(p, x, j), k) == Up(p, x, j + k)
    decreases j
  {
    if j == 0 || x == 0 || x !in p {
      Stays(p, x, k);
      Stays(p, x, j + k);
    } else {
      UpAdds(p, p[x], j - 1, k);
    }
  }

  lemma Stays(p: map<int, int>, x: int, k: nat)
    ensures x == 0 || x !in p ==> Up(p, x, k) == x
  {
  }

  lemma BelowSelf(p: map<int, int>, x: int)
    ensures Below(p, x, x)
  {
    assert Up(p, x, 0) == x;
  }

  lemma BelowTransitive(p: map<int, int>, x: int, y: int, z: int)
    requires Below(p, x, y) && Below(p, y, z)
    ensures Below(p, x, z)
  {
    var j: nat :| Up(p, x, j) == y;
    var k: nat :| Up(p, y, k) == z;
    UpAdds(p, x, j, k);
  }

  /** A channel is below a exactly when it is a or its parent is below a. */
  lemma BelowStep(p: map<int, int>, x: int, a: int)
    requires x in p && x != 0
    ensures Below(p, x, a) <==> x == a || Below(p, p[x], a)
  {
    if Below(p, x, a) && x != a {
      var k: nat :| Up(p, x, k) == a;
      assert Up(p, p[x], k - 1) == a;
    }
    if Below(p, p[x], a) {
      var k: nat :| Up(p, p[x], k) == a;
      assert Up(p, x, k + 1) == a;
    }
    if x == a {
      BelowSelf(p, x);
    }
  }

  lemma {:induction false} Repeats(p: map<int, int>, x: int, k: nat, m: nat)
    requires Up(p, x, k) == x
    ensures Up(p, x, m * k) == x
    decreases m
  {
    if m > 0 {
      Repeats(p, x, k, m - 1);
      UpAdds(p, x, (m - 1) * k, k);
      assert (m - 1) * k + k == m * k;
    }
  }

  /** No channel but the root lies above its own parent. */
  lemma NoCycle(p: map<int, int>, x: int)
    requires Tree(p) && x in p && x != 0
    ensures !Below(p, p[x], x)
  {
    if Below(p, p[x], x) {
      var k: nat :| Up(p, p[x], k) == x;
      assert Up(p, x, k + 1) == x;
      var j: nat :| Up(p, x, j) == 0;
      Repeats(p, x, k + 1, j);
      assert j * (k + 1) == j + j * k;
      UpAdds(p, x, j, j * k);
      Stays(p, 0, j * k);
      assert false;
    }
  }

  /** The root is below no other channel. */
  lemma RootNotBelow(p: map<int, int>, c: int)
    requires c != 0
    ensures !Below(p, 0, c)
  {
    forall k: nat
      ensures Up(p, 0, k) == 0
    {
      Stays(p, 0, k);
    }
  }

  // ----- moving a channel -----

  /** Cutting c from its parent does not matter to the climb of a channel that never meets c. */
  lemma {:induction false} ClimbAvoiding(p: map<int, int>, q: map<int, int>, c: int, x: int, k: nat)
    requires q.Keys == p.Keys && forall y <- p :: y != c ==> q[y] == p[y]
    requires !Below(p, x, c)
    ensures Up(q, x, k) == Up(p, x, k)
    decreases k
  {
    BelowSelf(p, x);
    if k > 0 && x != 0 && x in p {
      BelowStep(p, x, c);
      ClimbAvoiding(p, q, c, p[x], k - 1);
    }
  }

  /** ... nor does it to whether a channel is below c itself. */
  lemma {:induction false} BelowCut(p: map<int, int>, q: map<int, int>, c: int, x: int, k: nat)
    requires q.Keys == p.Keys && forall y <- p :: y != c ==> q[y] == p[y]
    requires Up(p, x, k) == c
    ensures Below(q, x, c)
    decreases k
  {
    BelowSelf(q, x);
    if x != c && k > 0 && x != 0 && x in p {
      BelowCut(p, q, c, p[x], k - 1);
      BelowStep(q, x, c);
    }
  }

  lemma {:induction false} MovedReachesRoot(p: map<int, int>, c: int, np: int, x: int, k: nat)
    requires Tree(p) && c in p && c != 0 && np in p && !Below(p, np, c)
    requires x in p && Up(p, x, k) == 0
    ensures Below(p[c := np], x, 0)
    decreases k
  {
    var q := p[c := np];
    if x == c {
      var j: nat :| Up(p, np, j) == 0;
      ClimbAvoiding(p, q, c, np, j);
      assert Up(q, np, j) == 0;
      BelowStep(q, c, 0);
    } else if x == 0 {
      BelowSelf(q, 0);
    } else {
      MovedReachesRoot(p, c, np, p[x], k - 1);
      BelowStep(q, x, 0);
    }
  }

  /** Moving c under np keeps the tree exactly when np is neither c nor below it. */
  lemma MoveKeepsTree(p: map<int, int>, c: int, np: int)
    requires Tree(p) && c in p && c != 0 && np in p
    ensures Tree(p[c := np]) <==> !Below(p, np, c)
  {
    var q := p[c := np];
    if Below(p, np, c) {
      var k: nat :| Up(p, np, k) == c;
      BelowCut(p, q, c, np, k);
      if Tree(q) {
        NoCycle(q, c);
      }
    } else {
      forall x | x in q
        ensures Below(q, x, 0)
      {
        var k: nat :| Up(p, x, k) == 0;
        MovedReachesRoot(p, c, np, x, k);
      }
    }
  }

  // ----- adding a channel -----

  lemma {:induction false} ClimbInside(p: map<int, int>, q: map<int, int>, x: int, k: nat)
    requires forall y <- p :: y in q && q[y] == p[y]
    requires Tree(p) && x in p
    ensures Up(q, x, k) == Up(p, x, k) && Up(p, x, k) in p
    decreases k
  {
    if k > 0 && x != 0 {
      ClimbInside(p, q, p[x], k - 1);
    }
  }

  lemma AddKeepsTree(p: map<int, int>, c: int, parent: int)
    requires Tree(p) && c !in p && c > 0 && parent in p
    ensures Tree(p[c := parent])
  {
    var q := p[c := parent];
    forall x | x in p
      ensures Below(q, x, 0)
    {
      var k: nat :| Up(p, x, k) == 0;
      ClimbInside(p, q, x, k);
    }
    BelowStep(q, c, 0);
  }

  // ----- removing a subtree -----

  ghost function Without(p: map<int, int>, gone: set<int>): map<int, int> {
    map x | x in p && x !in gone :: p[x]
  }

  lemma {:induction false} SurvivorClimbs(p: map<int, int>, c: int, x: int, k: nat)
    requires Tree(p) && x in p && !Below(p, x, c) && Up(p, x, k) == 0
    ensures Below(Without(p, Subtree(p, c)), x, 0)
    decreases k
  {
    var q := Without(p, Subtree(p, c));
    if x == 0 {
      BelowSelf(q, 0);
    } else {
      BelowStep(p, x, c);
      SurvivorClimbs(p, c, p[x], k - 1);
      BelowStep(q, x, 0);
    }
  }

  /** Taking out a channel with everything below it leaves a tree. */
  lemma RemoveKeepsTree(p: map<int, int>, c: int)
    requires Tree(p) && c != 0
    ensures Tree(Without(p, Subtree(p, c)))
  {
    var q := Without(p, Subtree(p, c));
    Stays(p, 0, 0);
    forall k: nat
      ensures Up(p, 0, k) == 0
    {
      Stays(p, 0, k);
    }
    forall x | x in q
      ensures Below(q, x, 0) && (x != 0 ==> q[x] in q)
    {
      var k: nat :| Up(p, x, k) == 0;
      SurvivorClimbs(p, c, x, k);
      if x != 0 {
        BelowStep(p, x, c);
      }
    }
  }

  // ----- subtrees, level by level -----

  ghost function Children(p: map<int, int>, c: int): set<int> {
    set x <- p | x != 0 && p[x] == c
  }

  /** A subtree is its root and the subtrees of the children. */
  lemma SubtreeSplits(p: map<int, int>, c: int, x: int)
    requires Tree(p) && c in p
    ensures x in Subtree(p, c) <==> x == c || exists d <- Children(p, c) :: x in Subtree(p, d)
  {
    BelowSelf(p, c);
    if x in Subtree(p, c) && x != c {
      var k: nat :| Up(p, x, k) == c;
      var d := LastBefore(p, x, c, k);
      assert x in Subtree(p, d);
    }
    forall d | d in Children(p, c) && x in Subtree(p, d)
      ensures x in Subtree(p, c)
    {
      BelowStep(p, d, c);
      BelowSelf(p, c);
      BelowTransitive(p, x, d, c);
    }
  }

  lemma {:induction false} LastBefore(p: map<int, int>, x: int, c: int, k: nat) returns (d: int)
    requires Tree(p) && x in p && x != c && Up(p, x, k) == c
    ensures d in Children(p, c) && Below(p, x, d)
    decreases k
  {
    if p[x] == c {
      d := x;
      BelowSelf(p, x);
    } else {
      d := LastBefore(p, p[x], c, k - 1);
      BelowStep(p, x, d);
    }
  }

  /** The subtree of a child is strictly smaller. */
  lemma ChildSubtreeSmaller(p: map<int, int>, c: int, d: int)
    requires Tree(p) && c in p && d in Children(p, c)
    ensures Subtree(p, d) < Subtree(p, c)
  {
    forall x | x in Subtree(p, d)
      ensures x in Subtree(p, c)
    {
      SubtreeSplits(p, c, x);
    }
    NoCycle(p, d);
    BelowSelf(p, c);
    assert c in Subtree(p, c) && c !in Subtree(p, d);
  }

  /** Subtrees of two children of one channel do not meet. */
  lemma SiblingsDisjoint(p: map<int, int>, c: int, d: int, e: int)
    requires Tree(p) && d in Children(p, c) && e in Children(p, c) && d != e
    ensures Subtree(p, d) !! Subtree(p, e)
  {
    forall x | x in Subtree(p, d) && x in Subtree(p, e)
      ensures false
    {
      var j: nat :| Up(p, x, j) == d;
      var k: nat :| Up(p, x, k) == e;
      if j <= k {
        OneAboveOther(p, x, j, k, c);
      } else {
        OneAboveOther(p, x, k, j, c);
      }
    }
  }

  lemma OneAboveOther(p: map<int, int>, x: int, j: nat, k: nat, c: int)
    requires Tree(p) && j <= k
    requires Up(p, x, j) in Children(p, c) && Up(p, x, k) in Children(p, c)
    ensures Up(p, x, j) == Up(p, x, k)
  {
    var d, e := Up(p, x, j), Up(p, x, k);
    UpAdds(p, x, j, k - j);
    if d != e {
      assert Up(p, d, k - j) == e;
      BelowStep(p, d, e);
      NoCycle(p, e);
    }
  }

  // ----- collecting a subtree, child by child -----

  ghost predicate NoRepeats(s: seq<int>) {
    forall i, j :: 0 <= i < j < |s| ==> s[i] != s[j]
  }

  function Elements(s: seq<int>): set<int> {
    set x <- s
  }

  ghost function Subtrees(p: map<int, int>, roots: seq<int>): set<int> {
    if roots == [] then {} else Subtrees(p, roots[..|roots| - 1]) + Subtree(p, roots[|roots| - 1])
  }

  lemma Appended(s: seq<int>, x: int)
    requires NoRepeats(s) && x !in Elements(s)
    ensures NoRepeats(s + [x]) && Elements(s + [x]) == Elements(s) + {x}
  {
    assert forall i :: 0 <= i < |s| ==> s[i] in s;
  }

  lemma {:induction false} InSubtrees(p: map<int, int>, roots: seq<int>, x: int)
    ensures x in Subtrees(p, roots) <==> exists d <- roots :: x in Subtree(p, d)
  {
    if roots != [] {
      var front, last := roots[..|roots| - 1], roots[|roots| - 1];
      InSubtrees(p, front, x);
      assert roots == front + [last];
    }
  }

  /** The rows under a channel, as the table lists them, are its children. */
  ghost predicate ListsChildren(p: map<int, int>, cid: int, children: seq<int>) {
    NoRepeats(children) && forall x :: x in children <==> x in Children(p, cid)
  }

  lemma AllSubtrees(p: map<int, int>, cid: int, children: seq<int>)
    requires Tree(p) && cid in p && ListsChildren(p, cid, children)
    ensures Subtree(p, cid) == {cid} + Subtrees(p, children)
  {
    forall x
      ensures x in Subtree(p, cid) <==> x == cid || x in Subtrees(p, children)
    {
      SubtreeSplits(p, cid, x);
      InSubtrees(p, children, x);
    }
  }

  /** A child's subtree is smaller and has nothing in common with what was collected before. */
  lemma ChildIsNew(p: map<int, int>, cid: int, children: seq<int>, i: nat)
    requires Tree(p) && cid in p && ListsChildren(p, cid, children) && i < |children|
    ensures children[i] in p && children[i] != 0
    ensures Subtree(p, children[i]) <= Subtree(p, cid) && |Subtree(p, children[i])| < |Subtree(p, cid)|
    ensures Subtree(p, children[i]) !! Subtrees(p, children[..i]) && cid !in Subtree(p, children[i])
  {
    var child := children[i];
    assert child in children;
    ChildSubtreeSmaller(p, cid, child);
    NoCycle(p, child);
    SmallerSet(Subtree(p, child), Subtree(p, cid));
    forall x | x in Subtree(p, child)
      ensures x !in Subtrees(p, children[..i])
    {
      InSubtrees(p, children[..i], x);
      forall d | d in children[..i]
        ensures x !in Subtree(p, d)
      {
        assert d in children && d != child;
        SiblingsDisjoint(p, cid, d, child);
      }
    }
  }

  /** Where the walk stands before the i-th child: its subtree is still to come. */
  lemma NextChild(p: map<int, int>, cid: int, children: seq<int>, i: nat, sofar: seq<int>, collected: seq<int>)
    requires Tree(p) && cid in p && ListsChildren(p, cid, children) && i < |children|
    requires Elements(sofar) !! Subtree(p, cid)
    requires Elements(collected) == Elements(sofar) + {cid} + Subtrees(p, children[..i])
    ensures children[i] in p && children[i] != 0
    ensures Elements(collected) !! Subtree(p, children[i]) && |Subtree(p, children[i])| < |Subtree(p, cid)|
    ensures Elements(collected) + Subtree(p, children[i]) == Elements(sofar) + {cid} + Subtrees(p, children[..i + 1])
  {
    ChildIsNew(p, cid, children, i);
    assert children[..i + 1][..i] == children[..i];
  }

  lemma SmallerSet(a: set<int>, b: set<int>)
    requires a < b
    ensures |a| < |b|
  {
    assert b == a + (b - a) && b - a != {};
  }
}
