/** What the loops of the tree table compute: the ancestors of a node, and the rows while a branch is being moved. */
module RowMoves {
  import opened Wrappers
  import opened Forest
  import opened ForestChange
  import opened RowLayout
  import opened RowBlocks

  // --- Climbing step by step ---

  /** The nodes 1, 2, ..., k steps above `n`. */
  ghost function ClimbedTo<T>(parent: map<T, T>, n: T, k: nat): seq<T> {
    if k == 0 then []
    else ClimbedTo(parent, n, k - 1) + if Climb(parent, n, k).Some? then [Climb(parent, n, k).value] else []
  }

  lemma ClimbOn<T>(parent: map<T, T>, n: T, k: nat, height: nat)
    requires Climb(parent, n, height).None? && k < height
    requires Climb(parent, n, k).Some? && Climb(parent, n, k).value in parent
    ensures Climb(parent, n, k + 1) == Some(parent[Climb(parent, n, k).value]) && k + 1 < height
  {
    ClimbAdd(parent, n, k, 1);
  }

  lemma {:induction false} ClimbedMember<T>(parent: map<T, T>, n: T, k: nat, m: T)
    ensures m in ClimbedTo(parent, n, k) <==> exists j: nat :: 1 <= j <= k && Climb(parent, n, j) == Some(m)
  {
    if k > 0 {
      ClimbedMember(parent, n, k - 1, m);
      ClimbedStep(parent, n, k, m);
      hide ClimbedTo, Climb;
      if j: nat :| 1 <= j <= k - 1 && Climb(parent, n, j) == Some(m) {
        assert 1 <= j <= k && Climb(parent, n, j) == Some(m);
      }
      if j: nat :| 1 <= j <= k && Climb(parent, n, j) == Some(m) {
        assert j < k ==> 1 <= j <= k - 1 && Climb(parent, n, j) == Some(m);
      }
    }
  }

  lemma ClimbedStep<T>(parent: map<T, T>, n: T, k: nat, m: T)
    requires k > 0
    ensures m in ClimbedTo(parent, n, k) <==> m in ClimbedTo(parent, n, k - 1) || Climb(parent, n, k) == Some(m)
  {
    hide Climb;
  }

  lemma ClimbedAll<T>(f: Shape<T>, n: T, k: nat, m: T)
    requires IsForest(f) && n in f.nodes && Climb(f.parent, n, k).Some? && Climb(f.parent, n, k).value !in f.parent
    ensures m in ClimbedTo(f.parent, n, k) <==> m != n && Below(f.parent, n, m)
  {
    ClimbedMember(f.parent, n, k, m);
    if m in ClimbedTo(f.parent, n, k) {
      var j: nat :| 1 <= j <= k && Climb(f.parent, n, j) == Some(m);
      NotOwnAncestor(f, n, j);
    }
    if m != n && Below(f.parent, n, m) {
      var j: nat :| Climb(f.parent, n, j) == Some(m);
      TopIsLast(f.parent, n, k, j);
      assert 1 <= j <= k && Climb(f.parent, n, j) == Some(m);
    }
  }

  lemma NotOwnAncestor<T>(f: Shape<T>, n: T, j: nat)
    requires IsForest(f) && n in f.nodes && 1 <= j
    ensures Climb(f.parent, n, j) != Some(n)
  {
    assert Rooted(f.parent, n);
    if Climb(f.parent, n, j) == Some(n) { RootedHasNoCycle(f.parent, n, j); }
  }

  lemma TopIsLast<T>(parent: map<T, T>, n: T, k: nat, j: nat)
    requires Climb(parent, n, k).Some? && Climb(parent, n, k).value !in parent && Climb(parent, n, j).Some?
    ensures j <= k
  {
    if j > k {
      ClimbPrefix(parent, n, k + 1, j);
      ClimbAdd(parent, n, k, 1);
    }
  }

  // --- Row order while the rows of a branch are being moved ---

  lemma {:induction false} WithoutIsRemove<T>(s: seq<T>, x: T)
    requires NoDup(s)
    ensures Without(s, x) == Remove(s, {x})
  {
    if s != [] {
      WithoutIsRemove(s[1..], x);
      if s[0] == x {
        RemoveNothing(s[1..], {x});
      }
    }
  }

  /** The rows once `n` and its children from number `i` on are in place. */
  ghost function MovedSoFar<T>(f: Shape<T>, rows: seq<T>, n: T, d: T, i: nat): seq<T>
    requires IsForest(f) && n in f.nodes && i <= |f.kids[n]|
  {
    var done := Branches(f, f.kids[n][i..]);
    if n == d then InsertAfter(Remove(rows, done), n, PreorderKids(f, n, i))
    else InsertAfter(Remove(rows, {n} + done), d, [n] + PreorderKids(f, n, i))
  }

  lemma {:induction false} InsertNothing<T>(s: seq<T>, d: T)
    ensures InsertAfter(s, d, []) == s
  {
    if s != [] && s[0] != d { InsertNothing(s[1..], d); }
  }

  lemma {:induction false} InsertTwice<T>(s: seq<T>, d: T, first: seq<T>, second: seq<T>)
    ensures InsertAfter(InsertAfter(s, d, first), d, second) == InsertAfter(s, d, second + first)
  {
    if s == [] {
    } else if s[0] == d {
      var rest := s[1..];
      assert s == [d] + rest;
      InsertHead(d, rest, first);
      InsertHead(d, first + rest, second);
      InsertHead(d, rest, second + first);
      assert second + (first + rest) == (second + first) + rest;
    } else {
      var rest := InsertAfter(s[1..], d, first);
      assert ([s[0]] + rest)[1..] == rest;
      InsertTwice(s[1..], d, first, second);
    }
  }

  lemma MovedSoFarStart<T>(f: Shape<T>, rows: seq<T>, n: T, d: T)
    requires IsForest(f) && n in f.nodes && NoDup(rows) && n in rows && d in rows
    ensures var r := MovedSoFar(f, rows, n, d, |f.kids[n]|);
            && r == (if n == d then rows else InsertAfter(Remove(rows, {n}), d, [n]))
            && NoDup(r) && Elements(r) == Elements(rows)
  {
    var k := |f.kids[n]|;
    assert f.kids[n][k..] == [] && Branches(f, f.kids[n][k..]) == {};
    RemoveNothing(rows, {});
    InsertNothing(rows, n);
    assert {n} + {} == {n} && [n] + PreorderKids(f, n, k) == [n];
    if n != d {
      EditPermutes(rows, {n}, d, [n]);
      SameElements(InsertAfter(Remove(rows, {n}), d, [n]), rows);
    }
  }

  lemma RowsOfNodes<T>(nodes: set<T>, rows: seq<T>)
    requires nodes <= Elements(rows)
    ensures forall n | n in nodes :: n in rows
  {
  }

  lemma SameElements<T>(s: seq<T>, t: seq<T>)
    requires multiset(s) == multiset(t)
    ensures Elements(s) == Elements(t)
  {
    forall x | x in s ensures x in t { assert x in multiset(s); }
    forall x | x in t ensures x in s { assert x in multiset(t); }
  }

  lemma MovedSoFarStep<T>(f: Shape<T>, rows: seq<T>, n: T, d: T, i: nat)
    requires IsForest(f) && n in f.nodes && i < |f.kids[n]| && d in f.nodes && (d == n || d !in Branch(f, n))
    ensures f.kids[n][i] in f.nodes
    ensures MovedRows(f, MovedSoFar(f, rows, n, d, i + 1), f.kids[n][i], n) == MovedSoFar(f, rows, n, d, i)
  {
    var c, later := f.kids[n][i], f.kids[n][i + 1..];
    ChildBranch(f, n, c);
    PartAvoids(f, n, i);
    var rest := f.kids[n][i..];
    assert rest[1..] == later && Branches(f, rest) == Branch(f, c) + Branches(f, later);
    if n == d {
      assert Branches(f, later) + Branch(f, c) == Branches(f, rest);
      BlockGrowsAtHead(rows, n, PreorderKids(f, n, i + 1), Preorder(f, c), Branches(f, later), Branch(f, c));
    } else {
      assert {n} + Branches(f, later) + Branch(f, c) == {n} + Branches(f, rest);
      assert [n] + Preorder(f, c) + PreorderKids(f, n, i + 1) == [n] + PreorderKids(f, n, i);
      BlockGrowsInside(rows, n, d, PreorderKids(f, n, i + 1), Preorder(f, c), {n} + Branches(f, later), Branch(f, c));
    }
  }

  lemma BlockGrowsAtHead<T>(rows: seq<T>, n: T, part: seq<T>, more: seq<T>, gone: set<T>, members: set<T>)
    requires n !in members && Elements(part) !! members
    ensures InsertAfter(Remove(InsertAfter(Remove(rows, gone), n, part), members), n, more) ==
              InsertAfter(Remove(rows, gone + members), n, more + part)
  {
    RemoveInserted(Remove(rows, gone), n, part, members);
    RemoveTwice(rows, gone, members);
    RemoveNothing(part, members);
    InsertTwice(Remove(rows, gone + members), n, part, more);
  }

  lemma BlockGrowsInside<T>(rows: seq<T>, n: T, d: T, part: seq<T>, more: seq<T>, gone: set<T>, members: set<T>)
    requires n != d && n in gone && d !in members && Elements([n] + part) !! members
    ensures InsertAfter(Remove(InsertAfter(Remove(rows, gone), d, [n] + part), members), n, more) ==
              InsertAfter(Remove(rows, gone + members), d, [n] + more + part)
  {
    RemoveInserted(Remove(rows, gone), d, [n] + part, members);
    RemoveTwice(rows, gone, members);
    RemoveNothing([n] + part, members);
    RemoveMember(rows, gone + members, n);
    InsertIntoBlock(Remove(rows, gone + members), d, n, part, more);
  }

  lemma PartAvoids<T>(f: Shape<T>, n: T, i: nat)
    requires IsForest(f) && n in f.nodes && i < |f.kids[n]|
    ensures Elements(PreorderKids(f, n, i + 1)) !! Branch(f, f.kids[n][i])
    ensures Elements([n] + PreorderKids(f, n, i + 1)) !! Branch(f, f.kids[n][i])
  {
    var c, part := f.kids[n][i], PreorderKids(f, n, i + 1);
    ChildBranch(f, n, c);
    PreorderKidsElements(f, n, i + 1);
    forall x | x in part ensures x !in Branch(f, c) {
      assert x in Elements(part);
      LaterBranchesApart(f, n, i, x);
    }
  }

  lemma LaterBranchesApart<T>(f: Shape<T>, n: T, i: nat, x: T)
    requires IsForest(f) && n in f.nodes && i < |f.kids[n]| && x in Branches(f, f.kids[n][i + 1..])
    ensures x !in Branch(f, f.kids[n][i])
  {
    var later := f.kids[n][i + 1..];
    BranchesMember(f, later, x);
    var j :| 0 <= j < |later| && x in Branch(f, later[j]);
    assert later[j] == f.kids[n][i + 1 + j];
    SiblingBranches(f, n, f.kids[n][i], f.kids[n][i + 1 + j]);
  }

  lemma MovedSoFarEnd<T>(f: Shape<T>, rows: seq<T>, n: T, d: T)
    requires IsForest(f) && n in f.nodes
    ensures MovedSoFar(f, rows, n, d, 0) == if n == d then SortedRows(f, rows, n) else MovedRows(f, rows, n, d)
  {
    assert f.kids[n][0..] == f.kids[n];
    BranchIsKidsBranches(f, n);
    assert Branch(f, n) - {n} == Branches(f, f.kids[n]);
  }

  /** Moving a branch leaves the preorder of the branches inside it alone. */
  lemma {:induction false} MovedPreorder<T>(f: Shape<T>, n: T, d: T, m: T)
    requires MayMove(f, n, d) && m in Branch(f, n)
    ensures IsForest(MoveShape(f, n, d)) && Preorder(MoveShape(f, n, d), m) == Preorder(f, m)
    decreases Branch(f, m), 1, 0
  {
    MoveKeepsForest(f, n, d);
    if d in Branch(f, m) { BelowTransitive(f.parent, d, m, n); }
    MovedKids(f, n, d, m);
    MovedPreorderKids(f, n, d, m, 0);
  }

  lemma MovedKids<T>(f: Shape<T>, n: T, d: T, m: T)
    requires MayMove(f, n, d) && m in Branch(f, n)
    ensures MoveShape(f, n, d).kids[m] == f.kids[m]
  {
    if n in f.parent && m == f.parent[n] {
      BelowParent(f.parent, n);
      BelowAntisymmetric(f.parent, n, m);
      ChildBranch(f, m, n);
    }
  }

  lemma {:induction false} MovedPreorderKids<T>(f: Shape<T>, n: T, d: T, m: T, i: nat)
    requires MayMove(f, n, d) && m in Branch(f, n) && i <= |f.kids[m]|
    ensures IsForest(MoveShape(f, n, d)) && MoveShape(f, n, d).kids[m] == f.kids[m]
    ensures PreorderKids(MoveShape(f, n, d), m, i) == PreorderKids(f, m, i)
    decreases Branch(f, m), 0, |f.kids[m]| - i
  {
    MoveKeepsForest(f, n, d);
    MovedKids(f, n, d, m);
    if i < |f.kids[m]| {
      ChildBranch(f, m, f.kids[m][i]);
      BelowParent(f.parent, f.kids[m][i]);
      BelowTransitive(f.parent, f.kids[m][i], m, n);
      MovedPreorder(f, n, d, f.kids[m][i]);
      MovedPreorderKids(f, n, d, m, i + 1);
    }
  }
}
