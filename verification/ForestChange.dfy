/** Changes that keep a forest a forest: adding a leaf, moving a branch, removing a branch. */
module ForestChange {
  import opened Wrappers
  import opened Forest

  /** `s` without the first occurrence of `x`. */
  function Without<T(==)>(s: seq<T>, x: T): seq<T> {
    if s == [] then [] else if s[0] == x then s[1..] else [s[0]] + Without(s[1..], x)
  }

  lemma {:induction false} WithoutMember<T>(s: seq<T>, x: T, y: T)
    requires NoDup(s)
    ensures NoDup(Without(s, x))
    ensures y in Without(s, x) <==> y in s && y != x
  {
    if s != [] {
      WithoutMember(s[1..], x, y);
      if s[0] == x {
        assert forall i | 0 < i < |s| :: s[i] != x;
        assert y in s[1..] <==> y in s && y != x;
      } else {
        var rest := Without(s[1..], x);
        forall j | 0 <= j < |rest| ensures rest[j] != s[0] {
          WithoutMember(s[1..], x, rest[j]);
        }
      }
    }
  }

  ghost function MoveShape<T>(f: Shape<T>, n: T, d: T): Shape<T>
    requires IsForest(f) && n in f.nodes && d in f.nodes
  {
    var detached := if n in f.parent then f.kids[f.parent[n] := Without(f.kids[f.parent[n]], n)] else f.kids;
    Shape(f.nodes, f.parent[n := d], detached[d := detached[d] + [n]])
  }

  ghost function RemoveShape<T>(f: Shape<T>, n: T): Shape<T>
    requires IsForest(f) && n in f.nodes
  {
    var gone := Branch(f, n);
    Shape(f.nodes - gone, f.parent - gone, map m | m in f.nodes - gone :: Without(f.kids[m], n))
  }

  /** A new node without children, as the last child of `p` if there is one. */
  ghost function AddShape<T>(f: Shape<T>, n: T, p: Option<T>): Shape<T>
    requires IsForest(f) && n !in f.nodes && (p.Some? ==> p.value in f.nodes)
  {
    match p
    case None => Shape(f.nodes + {n}, f.parent, f.kids[n := []])
    case Some(q) => Shape(f.nodes + {n}, f.parent[n := q], f.kids[n := []][q := f.kids[q] + [n]])
  }

  // --- Moving ---

  ghost predicate MayMove<T>(f: Shape<T>, n: T, d: T) {
    && IsForest(f) && n in f.nodes && d in f.nodes
    && d !in Branch(f, n)
    && (n in f.parent ==> f.parent[n] != d)
  }

  /** Climbing from a node outside the moved branch is not affected. */
  lemma {:induction false} ClimbOutside<T>(parent: map<T, T>, n: T, d: T, m: T, k: nat)
    requires !Below(parent, m, n)
    ensures Climb(parent[n := d], m, k) == Climb(parent, m, k)
  {
    BelowSelf(parent, n);
    if k > 0 && m in parent {
      if Below(parent, parent[m], n) {
        BelowParent(parent, m);
        BelowTransitive(parent, m, parent[m], n);
      }
      ClimbOutside(parent, n, d, parent[m], k - 1);
    }
  }

  /** Within the moved branch, climbing is unchanged up to its root. */
  lemma {:induction false} ClimbInside<T>(parent: map<T, T>, n: T, d: T, m: T, j: nat)
    requires Rooted(parent, n) && Climb(parent, m, j) == Some(n)
    ensures Climb(parent[n := d], m, j) == Some(n)
  {
    if j > 0 {
      if m == n { RootedHasNoCycle(parent, n, j); }
      ClimbInside(parent, n, d, parent[m], j - 1);
    }
  }

  lemma MoveStaysRooted<T>(f: Shape<T>, n: T, d: T, m: T)
    requires MayMove(f, n, d) && m in f.nodes
    ensures Rooted(f.parent[n := d], m)
  {
    var parent := f.parent[n := d];
    var k := ClimbEnds(f, d);
    ClimbOutside(f.parent, n, d, d, k);
    if Below(f.parent, m, n) {
      var j: nat :| Climb(f.parent, m, j) == Some(n);
      ClimbInside(f.parent, n, d, m, j);
      ClimbAdd(parent, m, j, k + 1);
      assert Climb(parent, n, k + 1) == Climb(parent, d, k);
    } else {
      var i := ClimbEnds(f, m);
      ClimbOutside(f.parent, n, d, m, i);
    }
  }

  /** Lists of children that are exactly the inverse of the parent links make a forest. */
  lemma ForestFromLinks<T>(g: Shape<T>)
    requires g.kids.Keys == g.nodes
    requires forall c | c in g.parent :: c in g.nodes && g.parent[c] in g.nodes
    requires forall m | m in g.nodes :: LinksKids(g, m) && Rooted(g.parent, m)
    ensures IsForest(g)
  {
    forall c | c in g.parent ensures c in g.kids[g.parent[c]] {
      assert LinksKids(g, g.parent[c]);
    }
    forall n, c | n in g.nodes && c in g.kids[n] ensures c in g.parent && g.parent[c] == n {
      assert LinksKids(g, n);
    }
    forall n | n in g.nodes ensures NoDup(g.kids[n]) {
      assert LinksKids(g, n);
    }
  }

  ghost predicate LinksKids<T>(g: Shape<T>, m: T)
    requires m in g.kids
  {
    && NoDup(g.kids[m])
    && (forall c | c in g.kids[m] :: c in g.parent && g.parent[c] == m)
    && (forall c | c in g.parent :: g.parent[c] == m ==> c in g.kids[m])
  }

  lemma MoveLinksKids<T>(f: Shape<T>, n: T, d: T, m: T)
    requires MayMove(f, n, d) && m in f.nodes
    ensures LinksKids(MoveShape(f, n, d), m)
  {
    var g := MoveShape(f, n, d);
    WithoutMember(f.kids[m], n, n);
    forall c | c in g.kids[m] ensures c in g.parent && g.parent[c] == m {
      WithoutMember(f.kids[m], n, c);
    }
    forall c | c in g.parent && g.parent[c] == m ensures c in g.kids[m] {
      WithoutMember(f.kids[m], n, c);
    }
    assert n !in f.kids[d];
  }

  /** Moving a branch below a node outside it leaves a forest. */
  lemma MoveKeepsForest<T>(f: Shape<T>, n: T, d: T)
    requires MayMove(f, n, d)
    ensures IsForest(MoveShape(f, n, d)) && MoveShape(f, n, d).nodes == f.nodes
  {
    MovedParts(f, n, d);
    hide *;
    var g := MoveShape(f, n, d);
    forall m | m in g.nodes ensures LinksKids(g, m) && Rooted(g.parent, m) {
      MoveStaysRooted(f, n, d, m);
      MoveLinksKids(f, n, d, m);
    }
    ForestFromLinks(g);
  }

  lemma MovedParts<T>(f: Shape<T>, n: T, d: T)
    requires MayMove(f, n, d)
    ensures IsForest(f) && n in f.nodes && d in f.nodes
    ensures var g := MoveShape(f, n, d); g.nodes == f.nodes == g.kids.Keys && g.parent == f.parent[n := d]
    ensures var parent := MoveShape(f, n, d).parent; forall c | c in parent :: c in f.nodes && parent[c] in f.nodes
  {
  }

  /** After a move, a node is below `m` through its old ancestors, or by way of the destination. */
  lemma MoveBelow<T>(f: Shape<T>, n: T, d: T, x: T, m: T)
    requires MayMove(f, n, d) && x in f.nodes
    ensures Below(f.parent[n := d], x, m) <==>
              if Below(f.parent, x, n) then (Below(f.parent, x, m) && Below(f.parent, m, n)) || Below(f.parent, d, m)
              else Below(f.parent, x, m)
  {
    var parent := f.parent[n := d];
    if Below(f.parent, x, n) {
      var j: nat :| Climb(f.parent, x, j) == Some(n);
      MoveBelowInside(f, n, d, x, m, j);
    } else {
      if k: nat :| Climb(f.parent, x, k) == Some(m) {
        ClimbOutside(f.parent, n, d, x, k);
        assert Climb(parent, x, k) == Some(m);
      }
      if k: nat :| Climb(parent, x, k) == Some(m) {
        ClimbOutside(f.parent, n, d, x, k);
        assert Climb(f.parent, x, k) == Some(m);
      }
    }
  }

  lemma MoveBelowInside<T>(f: Shape<T>, n: T, d: T, x: T, m: T, j: nat)
    requires MayMove(f, n, d) && x in f.nodes && Climb(f.parent, x, j) == Some(n)
    ensures Below(f.parent[n := d], x, m) <==> (Below(f.parent, x, m) && Below(f.parent, m, n)) || Below(f.parent, d, m)
  {
    var parent := f.parent[n := d];
    ClimbInside(f.parent, n, d, x, j);
    if Below(parent, x, m) {
      var k: nat :| Climb(parent, x, k) == Some(m);
      if k <= j {
        ClimbInsidePrefix(f.parent, n, d, x, j, k);
        ClimbAdd(f.parent, x, k, j - k);
        assert Climb(f.parent, m, j - k) == Some(n);
      } else {
        ClimbAdd(parent, x, j, k - j);
        assert Climb(parent, n, k - j) == Climb(parent, d, k - j - 1);
        ClimbOutside(f.parent, n, d, d, k - j - 1);
        assert Climb(f.parent, d, k - j - 1) == Some(m);
      }
    }
    if Below(f.parent, d, m) {
      var i: nat :| Climb(f.parent, d, i) == Some(m);
      ClimbOutside(f.parent, n, d, d, i);
      ClimbAdd(parent, x, j, i + 1);
      assert Climb(parent, x, j + (i + 1)) == Climb(parent, n, i + 1) == Climb(parent, d, i);
    }
    if Below(f.parent, x, m) && Below(f.parent, m, n) {
      var k: nat :| Climb(f.parent, x, k) == Some(m);
      var i: nat :| Climb(f.parent, m, i) == Some(n);
      ClimbAdd(f.parent, x, k, i);
      SameDistance(f.parent, x, n, k + i, j);
      ClimbInsidePrefix(f.parent, n, d, x, j, k);
    }
  }

  lemma {:induction false} SameDistance<T>(parent: map<T, T>, x: T, n: T, i: nat, j: nat)
    requires Rooted(parent, n) && Climb(parent, x, i) == Some(n) && Climb(parent, x, j) == Some(n)
    ensures i == j
  {
    if i <= j {
      ClimbAdd(parent, x, i, j - i);
      RootedHasNoCycle(parent, n, j - i);
    } else {
      ClimbAdd(parent, x, j, i - j);
      RootedHasNoCycle(parent, n, i - j);
    }
  }

  lemma {:induction false} ClimbInsidePrefix<T>(parent: map<T, T>, n: T, d: T, m: T, j: nat, k: nat)
    requires Rooted(parent, n) && Climb(parent, m, j) == Some(n) && k <= j
    ensures Climb(parent[n := d], m, k) == Climb(parent, m, k)
  {
    if k > 0 {
      if m == n { RootedHasNoCycle(parent, n, j); }
      ClimbInsidePrefix(parent, n, d, parent[m], j - 1, k - 1);
    }
  }

  /** The branches after a move. */
  lemma MoveBranch<T>(f: Shape<T>, n: T, d: T, m: T)
    requires MayMove(f, n, d) && m in f.nodes
    ensures Branch(MoveShape(f, n, d), m) ==
              if m in Branch(f, n) then Branch(f, m)
              else if d in Branch(f, m) then Branch(f, m) + Branch(f, n)
              else Branch(f, m) - Branch(f, n)
  {
    var g := MoveShape(f, n, d);
    forall x | x in f.nodes
      ensures x in Branch(g, m) <==>
                if x in Branch(f, n) then (x in Branch(f, m) && m in Branch(f, n)) || d in Branch(f, m)
                  else x in Branch(f, m)
    {
      MoveBelow(f, n, d, x, m);
    }
    if m in Branch(f, n) {
      forall x | x in Branch(f, m) ensures x in Branch(f, n) {
        BelowTransitive(f.parent, x, m, n);
      }
      if d in Branch(f, m) { BelowTransitive(f.parent, d, m, n); }
    }
  }

  // --- Removing ---

  lemma {:induction false} ClimbWithout<T>(f: Shape<T>, n: T, m: T, k: nat)
    requires IsForest(f) && n in f.nodes && m in f.nodes && m !in Branch(f, n)
    ensures Climb(f.parent - Branch(f, n), m, k) == Climb(f.parent, m, k)
  {
    if k > 0 && m in f.parent {
      if Below(f.parent, f.parent[m], n) {
        BelowParent(f.parent, m);
        BelowTransitive(f.parent, m, f.parent[m], n);
      }
      ClimbWithout(f, n, f.parent[m], k - 1);
    }
  }

  /** Removing a branch leaves a forest. */
  lemma RemoveKeepsForest<T>(f: Shape<T>, n: T)
    requires IsForest(f) && n in f.nodes
    ensures IsForest(RemoveShape(f, n))
  {
    var g := RemoveShape(f, n);
    forall m | m in g.nodes ensures Rooted(g.parent, m) {
      var k := ClimbEnds(f, m);
      ClimbWithout(f, n, m, k);
    }
    forall c | c in g.parent ensures c in g.nodes && g.parent[c] in g.nodes && c in g.kids[g.parent[c]] {
      var p := f.parent[c];
      if p in Branch(f, n) {
        BelowParent(f.parent, c);
        BelowTransitive(f.parent, c, p, n);
      }
      BelowSelf(f.parent, n);
      WithoutMember(f.kids[p], n, c);
    }
    forall m | m in g.nodes ensures NoDup(g.kids[m]) {
      WithoutMember(f.kids[m], n, n);
    }
    forall m, c | m in g.nodes && c in g.kids[m] ensures c in g.parent && g.parent[c] == m {
      WithoutMember(f.kids[m], n, c);
      if Below(f.parent, c, n) {
        BelowSplits(f.parent, c, n);
        var b :| b in f.parent && f.parent[b] == n && Below(f.parent, c, b);
        ParentStaysBelow(f, n, c, m);
      }
    }
  }

  lemma ParentStaysBelow<T>(f: Shape<T>, n: T, c: T, m: T)
    requires IsForest(f) && m in f.nodes && c in f.kids[m] && c != n && Below(f.parent, c, n)
    ensures Below(f.parent, m, n)
  {
    var k: nat :| Climb(f.parent, c, k) == Some(n);
    assert Climb(f.parent, m, k - 1) == Some(n);
  }

  /** The branches after a removal. */
  lemma RemoveBranch<T>(f: Shape<T>, n: T, m: T)
    requires IsForest(f) && n in f.nodes && m in f.nodes && m !in Branch(f, n)
    ensures Branch(RemoveShape(f, n), m) == Branch(f, m) - Branch(f, n)
  {
    var g := RemoveShape(f, n);
    forall x | x in g.nodes ensures x in Branch(g, m) <==> x in Branch(f, m) {
      forall k: nat { ClimbWithout(f, n, x, k); }
    }
  }

  // --- Removing the children one after the other ---

  /** The forest once the branches of the first `i` children of `n` are gone. */
  ghost function UnloadedShape<T>(f: Shape<T>, n: T, i: nat): Shape<T>
    requires IsForest(f) && n in f.nodes && i <= |f.kids[n]|
  {
    var gone := Branches(f, f.kids[n][..i]);
    Shape(f.nodes - gone, f.parent - gone, map m | m in f.nodes - gone :: if m == n then f.kids[n][i..] else f.kids[m])
  }

  lemma {:induction false} WithoutAbsent<T>(s: seq<T>, x: T)
    requires x !in s
    ensures Without(s, x) == s
  {
    if s != [] {
      assert s[0] in s;
      WithoutAbsent(s[1..], x);
    }
  }

  lemma {:induction false} BranchesAppend<T>(f: Shape<T>, roots: seq<T>, c: T)
    ensures Branches(f, roots + [c]) == Branches(f, roots) + Branch(f, c)
  {
    if roots == [] {
      assert roots + [c] == [c];
    } else {
      assert (roots + [c])[1..] == roots[1..] + [c];
      BranchesAppend(f, roots[1..], c);
    }
  }

  lemma BranchesUpTo<T>(f: Shape<T>, n: T, i: nat)
    requires IsForest(f) && n in f.nodes && i <= |f.kids[n]|
    ensures n !in Branches(f, f.kids[n][..i]) && Branches(f, f.kids[n][..i]) <= Branch(f, n) - {n}
    ensures i == |f.kids[n]| ==> Branches(f, f.kids[n][..i]) == Branch(f, n) - {n}
    ensures i < |f.kids[n]| ==> Branches(f, f.kids[n][..i + 1]) == Branches(f, f.kids[n][..i]) + Branch(f, f.kids[n][i])
    ensures i < |f.kids[n]| ==> Branches(f, f.kids[n][..i]) !! Branch(f, f.kids[n][i])
  {
    var first := f.kids[n][..i];
    forall x | x in Branches(f, first) ensures x in Branch(f, n) - {n} {
      BranchesMember(f, first, x);
      var j :| 0 <= j < |first| && x in Branch(f, first[j]);
      ChildBranch(f, n, f.kids[n][j]);
    }
    if i == |f.kids[n]| {
      assert first == f.kids[n];
      BranchIsKidsBranches(f, n);
    } else {
      assert f.kids[n][..i + 1] == first + [f.kids[n][i]];
      BranchesAppend(f, first, f.kids[n][i]);
      forall x | x in Branches(f, first) ensures x !in Branch(f, f.kids[n][i]) {
        BranchesMember(f, first, x);
        var j :| 0 <= j < |first| && x in Branch(f, first[j]);
        SiblingBranches(f, n, f.kids[n][j], f.kids[n][i]);
      }
    }
  }

  lemma KidsOfNodes<T>(f: Shape<T>)
    requires IsForest(f)
    ensures f.kids.Keys == f.nodes
  {
  }

  lemma UnloadedParts<T>(f: Shape<T>, n: T, i: nat)
    requires IsForest(f) && n in f.nodes && i <= |f.kids[n]|
    ensures var g, gone := UnloadedShape(f, n, i), Branches(f, f.kids[n][..i]);
            && g.nodes == f.nodes - gone && g.parent == f.parent - gone && g.kids.Keys == g.nodes
            && forall m | m in g.nodes :: g.kids[m] == if m == n then f.kids[n][i..] else f.kids[m]
  {
  }

  lemma RemovedParts<T>(f: Shape<T>, n: T)
    requires IsForest(f) && n in f.nodes
    ensures var g := RemoveShape(f, n);
            && g.nodes == f.nodes - Branch(f, n) && g.parent == f.parent - Branch(f, n) && g.kids.Keys == g.nodes
            && forall m | m in g.nodes :: m in f.kids && g.kids[m] == Without(f.kids[m], n)
  {
  }

  lemma SameShape<T>(f: Shape<T>, g: Shape<T>)
    requires f.nodes == g.nodes && f.parent == g.parent && f.kids.Keys == f.nodes && g.kids.Keys == g.nodes
    requires forall m | m in f.nodes :: f.kids[m] == g.kids[m]
    ensures f == g
  {
    assert f.kids == g.kids;
  }

  lemma MinusTwice<T, V>(nodes: set<T>, parent: map<T, V>, a: set<T>, b: set<T>)
    ensures nodes - a - b == nodes - (a + b) && parent - a - b == parent - (a + b)
  {
  }

  lemma UnloadedStart<T>(f: Shape<T>, n: T)
    requires IsForest(f) && n in f.nodes
    ensures UnloadedShape(f, n, 0) == f && Branches(f, f.kids[n][..0]) == {}
  {
    assert f.kids[n][..0] == [] && f.kids[n][0..] == f.kids[n];
    UnloadedParts(f, n, 0);
    SameShape(UnloadedShape(f, n, 0), f);
  }

  /** Removing the next child's branch is the next step, and so far no other branch has changed inside. */
  lemma {:induction false} UnloadStep<T>(f: Shape<T>, n: T, i: nat)
    requires IsForest(f) && n in f.nodes && i <= |f.kids[n]|
    ensures IsForest(UnloadedShape(f, n, i)) && n in UnloadedShape(f, n, i).nodes
    ensures forall m | m in UnloadedShape(f, n, i).nodes ::
              Branch(UnloadedShape(f, n, i), m) == Branch(f, m) - Branches(f, f.kids[n][..i])
    decreases i
  {
    hide *;
    KidsOfNodes(f);
    BranchesUpTo(f, n, i);
    UnloadedParts(f, n, i);
    if i == 0 {
      UnloadedStart(f, n);
    } else {
      var g, before, c := UnloadedShape(f, n, i), UnloadedShape(f, n, i - 1), f.kids[n][i - 1];
      var gone := Branches(f, f.kids[n][..i - 1]);
      UnloadStep(f, n, i - 1);
      BranchesUpTo(f, n, i - 1);
      UnloadNext(f, n, i - 1);
      RemoveKeepsForest(before, c);
      RemovedParts(before, c);
      forall m | m in g.nodes ensures Branch(g, m) == Branch(f, m) - Branches(f, f.kids[n][..i]) {
        RemoveBranch(before, c, m);
      }
    }
  }

  lemma UnloadNext<T>(f: Shape<T>, n: T, i: nat)
    requires IsForest(f) && n in f.nodes && i < |f.kids[n]|
    requires IsForest(UnloadedShape(f, n, i))
    requires forall m | m in UnloadedShape(f, n, i).nodes ::
               Branch(UnloadedShape(f, n, i), m) == Branch(f, m) - Branches(f, f.kids[n][..i])
    ensures var g, c := UnloadedShape(f, n, i), f.kids[n][i];
            c in g.nodes && Branch(g, c) == Branch(f, c) && RemoveShape(g, c) == UnloadedShape(f, n, i + 1)
  {
    hide *;
    KidsOfNodes(f);
    var g, c := UnloadedShape(f, n, i), f.kids[n][i];
    var gone := Branches(f, f.kids[n][..i]);
    BranchesUpTo(f, n, i);
    ChildBranch(f, n, c);
    BranchHead(f, c);
    UnloadedParts(f, n, i);
    UnloadedParts(f, n, i + 1);
    assert Branch(g, c) == Branch(f, c);
    RemovedParts(g, c);
    MinusTwice(f.nodes, f.parent, gone, Branch(f, c));
    var next, removed := UnloadedShape(f, n, i + 1), RemoveShape(g, c);
    forall m | m in next.nodes ensures next.kids[m] == removed.kids[m] {
      if m == n {
        WithoutHead(f.kids[n], i);
      } else {
        OtherParent(f, n, c, m);
        WithoutAbsent(f.kids[m], c);
      }
    }
    SameShape(next, removed);
  }

  lemma WithoutHead<T>(s: seq<T>, i: nat)
    requires i < |s|
    ensures Without(s[i..], s[i]) == s[i + 1..]
  {
    assert s[i..][1..] == s[i + 1..];
  }

  lemma OtherParent<T>(f: Shape<T>, n: T, c: T, m: T)
    requires IsForest(f) && n in f.nodes && c in f.kids[n] && m in f.nodes && m != n
    ensures m in f.kids && c !in f.kids[m]
  {
    assert m in f.kids.Keys;
    assert f.parent[c] == n;
  }

  /** With all children gone, removing the node completes the removal of its branch. */
  lemma UnloadEnd<T>(f: Shape<T>, n: T)
    requires IsForest(f) && n in f.nodes
    ensures var g := UnloadedShape(f, n, |f.kids[n]|);
            IsForest(g) && n in g.nodes && g.kids[n] == [] && Branch(g, n) == {n} &&
              RemoveShape(g, n) == RemoveShape(f, n)
  {
    hide *;
    KidsOfNodes(f);
    var k := |f.kids[n]|;
    var g, gone := UnloadedShape(f, n, k), Branches(f, f.kids[n][..k]);
    BranchesUpTo(f, n, k);
    UnloadStep(f, n, k);
    BranchHead(f, n);
    UnloadedParts(f, n, k);
    assert Branch(g, n) == {n};
    RemovedParts(g, n);
    RemovedParts(f, n);
    MinusTwice(f.nodes, f.parent, gone, {n});
    assert gone + {n} == Branch(f, n);
    SameShape(RemoveShape(g, n), RemoveShape(f, n));
  }

  lemma BranchHead<T>(f: Shape<T>, n: T)
    requires n in f.nodes
    ensures n in Branch(f, n)
  {
    BelowSelf(f.parent, n);
  }

  // --- Adding ---

  /** Adding a leaf leaves a forest. */
  lemma AddKeepsForest<T>(f: Shape<T>, n: T, p: Option<T>)
    requires IsForest(f) && n !in f.nodes && (p.Some? ==> p.value in f.nodes)
    ensures IsForest(AddShape(f, n, p))
  {
    var g := AddShape(f, n, p);
    forall m | m in g.nodes ensures LinksKids(g, m) && Rooted(g.parent, m) {
      AddedRooted(f, n, p, m);
      AddedLinks(f, n, p, m);
    }
    ForestFromLinks(g);
  }

  lemma AddedRooted<T>(f: Shape<T>, n: T, p: Option<T>, m: T)
    requires IsForest(f) && n !in f.nodes && (p.Some? ==> p.value in f.nodes) && m in f.nodes + {n}
    ensures Rooted(AddShape(f, n, p).parent, m)
  {
    var g := AddShape(f, n, p);
    if m in f.nodes {
      var k := ClimbEnds(f, m);
      ClimbOld(f, n, p, m, k);
    } else if p.Some? {
      var k := ClimbEnds(f, p.value);
      ClimbOld(f, n, p, p.value, k);
      assert Climb(g.parent, n, k + 1).None?;
    } else {
      assert Climb(g.parent, n, 1).None?;
    }
  }

  lemma AddedLinks<T>(f: Shape<T>, n: T, p: Option<T>, m: T)
    requires IsForest(f) && n !in f.nodes && (p.Some? ==> p.value in f.nodes) && m in f.nodes + {n}
    ensures m in AddShape(f, n, p).kids && LinksKids(AddShape(f, n, p), m)
  {
    var g := AddShape(f, n, p);
    if m in f.nodes {
      LinkedKids(f, m);
      assert n !in f.kids[m];
      forall c | c in g.kids[m] ensures c in g.parent && g.parent[c] == m {
        assert c in f.kids[m] || (p == Some(m) && c == n);
      }
      forall c | c in g.parent && g.parent[c] == m ensures c in g.kids[m] {
        assert c == n || c in f.kids[m];
      }
    } else {
      assert g.kids[m] == [];
    }
  }

  lemma LinkedKids<T>(f: Shape<T>, m: T)
    requires IsForest(f) && m in f.nodes
    ensures LinksKids(f, m)
  {
  }

  lemma {:induction false} ClimbOld<T>(f: Shape<T>, n: T, p: Option<T>, m: T, k: nat)
    requires IsForest(f) && n !in f.nodes && (p.Some? ==> p.value in f.nodes) && m in f.nodes
    ensures Climb(AddShape(f, n, p).parent, m, k) == Climb(f.parent, m, k)
  {
    if k > 0 && m in f.parent { ClimbOld(f, n, p, f.parent[m], k - 1); }
  }
}
