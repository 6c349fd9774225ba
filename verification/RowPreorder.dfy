/**
 * Rows in the order of the children arrays. A move puts the row of the node first among its new siblings but the node
 * last among the children, so it keeps that order exactly if there were no siblings.
 */
module RowPreorder {
  import opened Forest
  import opened ForestChange
  import opened RowLayout
  import opened RowBlocks
  import opened RowMoves
  import opened Visibility

  /** The rows of the branch of `m` stand together, in preorder. */
  ghost predicate PreorderAt<T>(f: Shape<T>, rows: seq<T>, m: T)
    requires IsForest(f) && m in f.nodes
  {
    exists i: nat :: StandsAt(rows, Preorder(f, m), i)
  }

  ghost predicate StandsAt<T>(rows: seq<T>, block: seq<T>, i: nat) {
    i + |block| <= |rows| && rows[i..i + |block|] == block
  }

  ghost predicate Around<T>(rows: seq<T>, before: seq<T>, block: seq<T>, after: seq<T>) {
    rows == before + block + after
  }

  /** There is a row for every node, and the rows of the branch of every root are its preorder. */
  ghost predicate PreorderLayout<T>(f: Shape<T>, rows: seq<T>)
    requires IsForest(f)
  {
    && NoDup(rows) && f.nodes <= Elements(rows)
    && forall m | m in f.nodes && m !in f.parent :: PreorderAt(f, rows, m)
  }

  lemma WhatIsAround<T>(f: Shape<T>, rows: seq<T>, m: T) returns (before: seq<T>, after: seq<T>)
    requires IsForest(f) && m in f.nodes && PreorderAt(f, rows, m)
    ensures Around(rows, before, Preorder(f, m), after)
  {
    var i: nat :| StandsAt(rows, Preorder(f, m), i);
    before, after := rows[..i], rows[i + |Preorder(f, m)|..];
  }

  lemma PreorderFrom<T>(g: Shape<T>, rows: seq<T>, m: T, before: seq<T>, after: seq<T>)
    requires IsForest(g) && m in g.nodes && rows == before + Preorder(g, m) + after
    ensures PreorderAt(g, rows, m)
  {
    assert StandsAt(rows, Preorder(g, m), |before|);
  }

  // --- Branches within branches ---

  lemma {:induction false} BranchInPreorder<T>(f: Shape<T>, n: T, m: T) returns (before: seq<T>, after: seq<T>)
    requires IsForest(f) && n in f.nodes && m in Branch(f, n)
    ensures Preorder(f, n) == before + Preorder(f, m) + after
    decreases Branch(f, n)
  {
    if m == n {
      before, after := [], [];
    } else {
      BranchSplits(f, n, m);
      var c :| c in f.kids[n] && m in Branch(f, c);
      ChildBranch(f, n, c);
      var outer, rest := ChildInPreorder(f, n, c);
      before, after := BranchInPreorder(f, c, m);
      Regroup(outer, before, Preorder(f, m), after, rest);
      before, after := outer + before, after + rest;
    }
  }

  /** The rows of every branch, not only of those of the roots, are its preorder. */
  lemma EveryBranchInPreorder<T>(f: Shape<T>, rows: seq<T>, m: T) returns (before: seq<T>, after: seq<T>)
    requires IsForest(f) && m in f.nodes && PreorderLayout(f, rows)
    ensures rows == before + Preorder(f, m) + after
  {
    var r := RootOf(f, m);
    assert PreorderAt(f, rows, r);
    hide IsForest, Preorder, Branch, PreorderAt;
    var outer, rest := WhatIsAround(f, rows, r);
    before, after := BranchInPreorder(f, r, m);
    Regroup(outer, before, Preorder(f, m), after, rest);
    before, after := outer + before, after + rest;
  }

  lemma Regroup<T>(a: seq<T>, b: seq<T>, c: seq<T>, d: seq<T>, e: seq<T>)
    ensures a + (b + c + d) + e == (a + b) + c + (d + e)
  {
  }

  // --- Moving to a node without children ---

  /** What a move does to a list of rows: the branch goes out, and behind `d` it comes in again. */
  ghost function Edited<T>(s: seq<T>, gone: set<T>, d: T, block: seq<T>): seq<T> {
    InsertAfter(Remove(s, gone), d, block)
  }

  lemma EditedConcat<T>(a: seq<T>, b: seq<T>, gone: set<T>, d: T, block: seq<T>)
    requires d !in a || d !in b
    ensures Edited(a + b, gone, d, block) == Edited(a, gone, d, block) + Edited(b, gone, d, block)
  {
    RemoveConcat(a, b, gone);
    RemoveMember(a, gone, d);
    RemoveMember(b, gone, d);
    InsertConcat(Remove(a, gone), Remove(b, gone), d, block);
    if d !in Remove(a, gone) { InsertAbsent(Remove(a, gone), d, block); }
    if d !in Remove(b, gone) { InsertAbsent(Remove(b, gone), d, block); }
  }

  lemma {:induction false} InsertAbsent<T>(s: seq<T>, d: T, block: seq<T>)
    requires d !in s
    ensures InsertAfter(s, d, block) == s
  {
    if s != [] { InsertAbsent(s[1..], d, block); }
  }

  /** The preorders of a list of nodes, one after the other. */
  ghost function Preorders<T>(f: Shape<T>, list: seq<T>): seq<T>
    requires IsForest(f) && forall c | c in list :: c in f.nodes
  {
    if list == [] then [] else Preorder(f, list[0]) + Preorders(f, list[1..])
  }

  lemma {:induction false} KidsPreorders<T>(f: Shape<T>, n: T, i: nat)
    requires IsForest(f) && n in f.nodes && i <= |f.kids[n]|
    ensures forall c | c in f.kids[n][i..] :: c in f.nodes
    ensures PreorderKids(f, n, i) == Preorders(f, f.kids[n][i..])
    decreases |f.kids[n]| - i
  {
    if i < |f.kids[n]| {
      ChildBranch(f, n, f.kids[n][i]);
      KidsPreorders(f, n, i + 1);
      assert f.kids[n][i..] == [f.kids[n][i]] + f.kids[n][i + 1..];
    }
  }

  /** The children of a node outside the branch, after a move to another node. */
  lemma KidsAfterMove<T>(f: Shape<T>, n: T, d: T, m: T)
    requires MayMove(f, n, d) && m in f.nodes && m != d
    ensures MoveShape(f, n, d).kids[m] == Without(f.kids[m], n)
  {
    if !(n in f.parent && m == f.parent[n]) { WithoutAbsent(f.kids[m], n); }
  }

  /** Moving to a node without children does to the preorder of every other branch what it does to the rows. */
  lemma {:induction false} MovedInPreorder<T>(f: Shape<T>, n: T, d: T, m: T)
    requires MayMove(f, n, d) && f.kids[d] == [] && m in f.nodes && m !in Branch(f, n)
    ensures IsForest(MoveShape(f, n, d))
    ensures Preorder(MoveShape(f, n, d), m) == Edited(Preorder(f, m), Branch(f, n), d, Preorder(f, n))
    decreases Branch(f, m), 1
  {
    var gone, block, g := Branch(f, n), Preorder(f, n), MoveShape(f, n, d);
    MoveKeepsForest(f, n, d);
    if m == d {
      LeafReceives(f, n, d);
    } else {
      hide *;
      MovedParts(f, n, d);
      var list := f.kids[m];
      PreorderOfKids(f, m);
      PreorderOfKids(g, m);
      KidsAfterMove(f, n, d, m);
      MovedKidsInPreorder(f, n, d, m, 0);
      WholeList(list);
      HeadOnly(f, m, d);
      EditedConcat([m], Preorders(f, list), gone, d, block);
      EditedOther(m, gone, d, block);
    }
  }

  /** The same for the children from number `i` on. */
  lemma {:induction false} MovedKidsInPreorder<T>(f: Shape<T>, n: T, d: T, m: T, i: nat)
    requires MayMove(f, n, d) && f.kids[d] == [] && m in f.nodes && m !in Branch(f, n) && i <= |f.kids[m]|
    ensures IsForest(MoveShape(f, n, d))
    ensures forall c | c in f.kids[m][i..] :: c in f.nodes
    ensures forall c | c in Without(f.kids[m][i..], n) :: c in MoveShape(f, n, d).nodes
    ensures Preorders(MoveShape(f, n, d), Without(f.kids[m][i..], n)) ==
              Edited(Preorders(f, f.kids[m][i..]), Branch(f, n), d, Preorder(f, n))
    decreases Branch(f, m), 0, |f.kids[m]| - i
  {
    var gone, block, g := Branch(f, n), Preorder(f, n), MoveShape(f, n, d);
    MoveKeepsForest(f, n, d);
    KidsWithoutKnown(f, n, d, m, i);
    if i < |f.kids[m]| {
      var c := f.kids[m][i];
      hide *;
      MovedKidsInPreorder(f, n, d, m, i + 1);
      PreordersStep(f, m, i, d);
      EditedConcat(Preorder(f, c), Preorders(f, f.kids[m][i + 1..]), gone, d, block);
      if c == n {
        WithoutFirst(f.kids[m], n, i);
        EditedBranch(f, n, d);
      } else {
        OtherChild(f, n, m, i);
        MovedInPreorder(f, n, d, c);
        WithoutNext(f, n, d, m, i);
      }
    }
  }

  lemma WholeList<T>(s: seq<T>)
    ensures s[0..] == s
  {
  }

  lemma KidsWithoutKnown<T>(f: Shape<T>, n: T, d: T, m: T, i: nat)
    requires MayMove(f, n, d) && IsForest(MoveShape(f, n, d)) && m in f.nodes && i <= |f.kids[m]|
    ensures forall c | c in f.kids[m][i..] :: c in f.nodes
    ensures forall c | c in Without(f.kids[m][i..], n) :: c in MoveShape(f, n, d).nodes
    ensures i == |f.kids[m]| ==>
              && Preorders(MoveShape(f, n, d), Without(f.kids[m][i..], n)) == []
              && Edited(Preorders(f, f.kids[m][i..]), Branch(f, n), d, Preorder(f, n)) == []
  {
    forall c | c in Without(f.kids[m][i..], n) ensures c in f.nodes {
      WithoutMember(f.kids[m][i..], n, c);
    }
  }

  lemma PreordersStep<T>(f: Shape<T>, m: T, i: nat, d: T)
    requires IsForest(f) && m in f.nodes && i < |f.kids[m]|
    ensures f.kids[m][i] in f.nodes && NoDup(f.kids[m])
    ensures forall c | c in f.kids[m][i..] :: c in f.nodes
    ensures Preorders(f, f.kids[m][i..]) == Preorder(f, f.kids[m][i]) + Preorders(f, f.kids[m][i + 1..])
    ensures d !in Preorder(f, f.kids[m][i]) || d !in Preorders(f, f.kids[m][i + 1..])
  {
    var c := f.kids[m][i];
    ChildBranch(f, m, c);
    KidsPreorders(f, m, i);
    KidsPreorders(f, m, i + 1);
    PreorderKidsElements(f, m, i);
    var a, b := Preorder(f, c), PreorderKids(f, m, i + 1);
    assert PreorderKids(f, m, i) == a + b;
    NotInBoth(a, b, d);
  }

  lemma NotInBoth<T>(a: seq<T>, b: seq<T>, d: T)
    requires NoDup(a + b)
    ensures NoDup(a) && (d !in a || d !in b)
  {
    forall i, j | 0 <= i < j < |a| ensures a[i] != a[j] { assert (a + b)[i] == a[i] && (a + b)[j] == a[j]; }
    forall i, j | 0 <= i < |a| && 0 <= j < |b| ensures a[i] != b[j] {
      assert (a + b)[i] == a[i] && (a + b)[|a| + j] == b[j];
    }
  }

  lemma WithoutFirst<T>(s: seq<T>, n: T, i: nat)
    requires NoDup(s) && i < |s| && s[i] == n
    ensures Without(s[i..], n) == s[i + 1..] == Without(s[i + 1..], n)
  {
    WithoutAbsent(s[i + 1..], n);
  }

  lemma WithoutNext<T>(f: Shape<T>, n: T, d: T, m: T, i: nat)
    requires MayMove(f, n, d) && IsForest(MoveShape(f, n, d)) && m in f.nodes && i < |f.kids[m]| && f.kids[m][i] != n
    requires forall c | c in Without(f.kids[m][i..], n) :: c in MoveShape(f, n, d).nodes
    requires forall c | c in Without(f.kids[m][i + 1..], n) :: c in MoveShape(f, n, d).nodes
    ensures f.kids[m][i] in MoveShape(f, n, d).nodes
    ensures Preorders(MoveShape(f, n, d), Without(f.kids[m][i..], n)) ==
              Preorder(MoveShape(f, n, d), f.kids[m][i]) + Preorders(MoveShape(f, n, d), Without(f.kids[m][i + 1..], n))
  {
    var list, rest := f.kids[m][i..], f.kids[m][i + 1..];
    assert list[1..] == rest;
    assert Without(list, n) == [list[0]] + Without(rest, n);
    assert Without(list, n)[1..] == Without(rest, n);
  }

  /** All rows of the branch itself go. */
  lemma EditedBranch<T>(f: Shape<T>, n: T, d: T)
    requires IsForest(f) && n in f.nodes
    ensures Edited(Preorder(f, n), Branch(f, n), d, Preorder(f, n)) == []
  {
    PreorderElements(f, n);
    RemoveAll(Preorder(f, n), Branch(f, n));
  }

  lemma OtherChild<T>(f: Shape<T>, n: T, m: T, i: nat)
    requires IsForest(f) && n in f.nodes && m in f.nodes && m !in Branch(f, n) && i < |f.kids[m]| && f.kids[m][i] != n
    ensures f.kids[m][i] in f.nodes && f.kids[m][i] !in Branch(f, n) && Branch(f, f.kids[m][i]) < Branch(f, m)
  {
    var c := f.kids[m][i];
    ChildBranch(f, m, c);
    if Below(f.parent, c, n) { AboveParent(f, c, n); }
  }

  lemma PreorderOfKids<T>(f: Shape<T>, m: T)
    requires IsForest(f) && m in f.nodes
    ensures m in f.kids && NoDup(f.kids[m]) && forall c | c in f.kids[m] :: c in f.nodes
    ensures Preorder(f, m) == [m] + Preorders(f, f.kids[m])
  {
    KidsPreorders(f, m, 0);
    assert f.kids[m][0..] == f.kids[m];
  }

  lemma HeadOnly<T>(f: Shape<T>, m: T, d: T)
    requires m != d
    ensures d !in [m]
  {
  }

  lemma EditedOther<T>(m: T, gone: set<T>, d: T, block: seq<T>)
    requires m !in gone && m != d
    ensures Edited([m], gone, d, block) == [m]
  {
    assert [m][1..] == [];
    assert Remove([m], gone) == [m] + Remove([m][1..], gone) == [m];
    assert InsertAfter([m], d, block) == [m] + InsertAfter([m][1..], d, block);
  }

  /** The new parent, so far without children, has the branch below it. */
  lemma LeafReceives<T>(f: Shape<T>, n: T, d: T)
    requires MayMove(f, n, d) && f.kids[d] == [] && IsForest(MoveShape(f, n, d))
    ensures Preorder(MoveShape(f, n, d), d) == Edited(Preorder(f, d), Branch(f, n), d, Preorder(f, n))
  {
    var g := MoveShape(f, n, d);
    BelowSelf(f.parent, n);
    MovedPreorder(f, n, d, n);
    assert g.kids[d] == [n];
    assert PreorderKids(g, d, 1) == [];
    assert Preorder(g, d) == [d] + (Preorder(g, n) + []);
    assert Preorder(f, d) == [d];
    assert Remove([d], Branch(f, n)) == [d];
  }

  lemma {:induction false} MoveToLeafKeepsPreorder<T>(f: Shape<T>, rows: seq<T>, n: T, d: T)
    requires MayMove(f, n, d) && PreorderLayout(f, rows) && f.kids[d] == []
    ensures IsForest(MoveShape(f, n, d)) && PreorderLayout(MoveShape(f, n, d), MovedRows(f, rows, n, d))
  {
    var gone, block, g := Branch(f, n), Preorder(f, n), MoveShape(f, n, d);
    MoveKeepsForest(f, n, d);
    MovedParts(f, n, d);
    PreorderElements(f, n);
    assert d in Elements(rows) && gone <= Elements(rows);
    EditPermutes(rows, gone, d, block);
    SameElements(MovedRows(f, rows, n, d), rows);
    forall m | m in g.nodes && m !in g.parent ensures PreorderAt(g, MovedRows(f, rows, n, d), m) {
      RootStays(f, n, d, m);
      RootInPreorder(f, rows, n, d, m);
    }
  }

  lemma RootStays<T>(f: Shape<T>, n: T, d: T, m: T)
    requires MayMove(f, n, d) && m in f.nodes && m !in MoveShape(f, n, d).parent
    ensures m !in f.parent && m !in Branch(f, n)
  {
    if m in Branch(f, n) { OnlySelfAboveRoot(f, m, n); }
  }

  lemma RootInPreorder<T>(f: Shape<T>, rows: seq<T>, n: T, d: T, m: T)
    requires MayMove(f, n, d) && PreorderLayout(f, rows) && f.kids[d] == []
    requires m in f.nodes && m !in f.parent && m !in Branch(f, n)
    ensures IsForest(MoveShape(f, n, d)) && m in MoveShape(f, n, d).nodes
    ensures PreorderAt(MoveShape(f, n, d), MovedRows(f, rows, n, d), m)
  {
    var gone, block, g := Branch(f, n), Preorder(f, n), MoveShape(f, n, d);
    MovedInPreorder(f, n, d, m);
    assert PreorderAt(f, rows, m);
    var before, after := WhatIsAround(f, rows, m);
    ApartIn(rows, before, Preorder(f, m), after, d);
    hide *;
    EditedAround(rows, before, Preorder(f, m), after, gone, d, block);
    MovedRowsAre(f, rows, n, d);
    PreorderFrom(g, MovedRows(f, rows, n, d), m, Edited(before, gone, d, block), Edited(after, gone, d, block));
  }

  lemma ApartIn<T>(rows: seq<T>, a: seq<T>, b: seq<T>, c: seq<T>, d: T)
    requires NoDup(rows) && rows == a + b + c
    ensures (d !in a || d !in b) && (d !in a + b || d !in c)
  {
    NotInBoth(a + b, c, d);
    NotInBoth(a, b, d);
  }

  lemma EditedAround<T>(rows: seq<T>, a: seq<T>, b: seq<T>, c: seq<T>, gone: set<T>, d: T, block: seq<T>)
    requires Around(rows, a, b, c) && (d !in a || d !in b) && (d !in a + b || d !in c)
    ensures Edited(rows, gone, d, block) ==
               Edited(a, gone, d, block) + Edited(b, gone, d, block) + Edited(c, gone, d, block)
  {
    hide Edited;
    EditedConcat(a + b, c, gone, d, block);
    EditedConcat(a, b, gone, d, block);
  }

  lemma MovedRowsAre<T>(f: Shape<T>, rows: seq<T>, n: T, d: T)
    requires IsForest(f) && n in f.nodes
    ensures MovedRows(f, rows, n, d) == Edited(rows, Branch(f, n), d, Preorder(f, n))
  {
  }

  // --- Moving to a node with children ---

  lemma {:induction false} RowBehind<T>(s: seq<T>, d: T, n: T, block: seq<T>) returns (i: nat)
    requires d in s
    ensures i + 1 < |InsertAfter(s, d, [n] + block)|
    ensures InsertAfter(s, d, [n] + block)[i] == d && InsertAfter(s, d, [n] + block)[i + 1] == n
  {
    if s[0] == d {
      i := 0;
    } else {
      i := RowBehind(s[1..], d, n, block);
      i := i + 1;
    }
  }

  /** The row behind the new parent is that of the node moved, but its first child was there before. */
  lemma MoveToSiblingsBreaksPreorder<T>(f: Shape<T>, rows: seq<T>, n: T, d: T)
    requires MayMove(f, n, d) && d in rows && f.kids[d] != []
    ensures IsForest(MoveShape(f, n, d)) && !PreorderLayout(MoveShape(f, n, d), MovedRows(f, rows, n, d))
  {
    MoveKeepsForest(f, n, d);
    var g, moved := MoveShape(f, n, d), MovedRows(f, rows, n, d);
    FirstChildStays(f, n, d);
    RemoveMember(rows, Branch(f, n), d);
    var i := RowBehind(Remove(rows, Branch(f, n)), d, n, PreorderKids(f, n, 0));
    hide Branch, Remove, MoveShape, IsForest;
    if PreorderLayout(g, moved) {
      var before, after := EveryBranchInPreorder(g, moved, d);
      FirstTwoRows(g, d);
      SecondRow(moved, before, Preorder(g, d), after, d, i);
    }
  }

  lemma SecondRow<T>(rows: seq<T>, before: seq<T>, block: seq<T>, after: seq<T>, d: T, i: nat)
    requires NoDup(rows) && rows == before + block + after && |block| > 1 && block[0] == d
    requires i + 1 < |rows| && rows[i] == d
    ensures block[1] == rows[i + 1]
  {
    assert rows[|before|] == d;
    assert i == |before|;
  }

  lemma FirstChildStays<T>(f: Shape<T>, n: T, d: T)
    requires MayMove(f, n, d) && f.kids[d] != []
    ensures var g := MoveShape(f, n, d); g.kids[d] != [] && g.kids[d][0] == f.kids[d][0] != n && d in g.nodes
  {
  }

  lemma FirstTwoRows<T>(f: Shape<T>, d: T)
    requires IsForest(f) && d in f.nodes && f.kids[d] != []
    ensures |Preorder(f, d)| > 1 && Preorder(f, d)[0] == d && Preorder(f, d)[1] == f.kids[d][0]
  {
    ChildBranch(f, d, f.kids[d][0]);
    assert PreorderKids(f, d, 0) == Preorder(f, f.kids[d][0]) + PreorderKids(f, d, 1);
  }

  /**
   * If the rows of every root were its preorder, they still are after a move exactly if the new parent had no
   * children.
   */
  lemma MoveKeepsPreorderIff<T>(f: Shape<T>, rows: seq<T>, n: T, d: T)
    requires MayMove(f, n, d) && PreorderLayout(f, rows)
    ensures IsForest(MoveShape(f, n, d))
    ensures PreorderLayout(MoveShape(f, n, d), MovedRows(f, rows, n, d)) <==> f.kids[d] == []
  {
    MoveKeepsForest(f, n, d);
    if f.kids[d] == [] {
      MoveToLeafKeepsPreorder(f, rows, n, d);
    } else {
      assert d in Elements(rows);
      MoveToSiblingsBreaksPreorder(f, rows, n, d);
    }
  }

  /** `c` below `d`, and `n` on its own. */
  ghost function OneBelow<T>(d: T, c: T, n: T): Shape<T> {
    Shape({d, c, n}, map[c := d], map[d := [c], c := [], n := []])
  }

  lemma {:induction false} OneBelowParts<T>(d: T, c: T, n: T)
    requires d != c && d != n && c != n
    ensures var f := OneBelow(d, c, n);
            && IsForest(f) && MayMove(f, n, d) && f.nodes == {d, c, n} && f.parent == map[c := d]
            && f.kids[d] == [c] && f.kids[c] == [] && f.kids[n] == []
  {
    var f := OneBelow(d, c, n);
    assert Climb(f.parent, d, 1).None? && Climb(f.parent, c, 2).None? && Climb(f.parent, n, 1).None?;
    if Below(f.parent, d, n) { OnlySelfAboveRoot(f, d, n); }
  }

  /** The rows `d`, `c`, `n` become `d`, `n`, `c` when `n` is moved below `d`, whose children are then `c` and `n`. */
  lemma MoveGoesInFront<T>(d: T, c: T, n: T)
    requires d != c && d != n && c != n
    ensures var f := OneBelow(d, c, n);
            && IsForest(f) && MayMove(f, n, d) && PreorderLayout(f, [d, c, n])
            && MovedRows(f, [d, c, n], n, d) == [d, n, c]
            && MoveShape(f, n, d).kids[d] == [c, n]
            && IsForest(MoveShape(f, n, d)) && !PreorderLayout(MoveShape(f, n, d), [d, n, c])
  {
    var f := OneBelow(d, c, n);
    OneBelowParts(d, c, n);
    hide *;
    OneBelowInOrder(f, d, c, n);
    MoveKeepsPreorderIff(f, [d, c, n], n, d);
    OneBelowMoved(f, d, c, n);
    NotEmpty(c);
  }

  lemma NotEmpty<T>(c: T)
    ensures [c] != []
  {
  }

  lemma OneBelowInOrder<T>(f: Shape<T>, d: T, c: T, n: T)
    requires d != c && d != n && c != n && IsForest(f) && f.nodes == {d, c, n} && f.parent == map[c := d]
    requires f.kids[d] == [c] && f.kids[c] == [] && f.kids[n] == []
    ensures PreorderLayout(f, [d, c, n])
  {
    hide IsForest, Preorder, PreorderAt;
    OneBelowPreorders(f, d, c, n);
    ThreeRows(d, c, n);
    PreorderFrom(f, [d, c, n], d, [], [n]);
    PreorderFrom(f, [d, c, n], n, [d, c], []);
  }

  lemma ThreeRows<T>(d: T, c: T, n: T)
    requires d != c && d != n && c != n
    ensures [d, c, n] == [] + [d, c] + [n] && [d, c, n] == [d, c] + [n] + []
    ensures NoDup([d, c, n]) && Elements([d, c, n]) == {d, c, n}
  {
    var rows := [d, c, n];
    assert rows[0] in Elements(rows) && rows[1] in Elements(rows) && rows[2] in Elements(rows);
  }

  lemma OneBelowPreorders<T>(f: Shape<T>, d: T, c: T, n: T)
    requires IsForest(f) && {d, c, n} <= f.nodes && f.kids[d] == [c] && f.kids[c] == [] && f.kids[n] == []
    ensures Preorder(f, d) == [d, c] && Preorder(f, n) == [n]
  {
    ChildBranch(f, d, c);
    assert PreorderKids(f, c, 0) == [] && PreorderKids(f, n, 0) == [] && PreorderKids(f, d, 1) == [];
    assert PreorderKids(f, d, 0) == Preorder(f, c) + PreorderKids(f, d, 1);
  }

  lemma OneBelowMoved<T>(f: Shape<T>, d: T, c: T, n: T)
    requires MayMove(f, n, d) && d != c && d != n && c != n && {d, c, n} <= f.nodes && f.parent == map[c := d]
    requires f.kids[d] == [c] && f.kids[c] == [] && f.kids[n] == []
    ensures MovedRows(f, [d, c, n], n, d) == [d, n, c] && MoveShape(f, n, d).kids[d] == [c, n]
  {
    OneBelowPreorders(f, d, c, n);
    PreorderElements(f, n);
    assert Elements([n]) == {n};
    MovedRowsAre(f, [d, c, n], n, d);
    hide *;
    OneBelowEdited(d, c, n);
    OneBelowKids(f, d, c, n);
  }

  lemma OneBelowKids<T>(f: Shape<T>, d: T, c: T, n: T)
    requires MayMove(f, n, d) && f.parent == map[c := d] && c != n && f.kids[d] == [c]
    ensures MoveShape(f, n, d).kids[d] == [c, n]
  {
  }

  lemma OneBelowEdited<T>(d: T, c: T, n: T)
    requires d != c && d != n && c != n
    ensures Edited([d, c, n], {n}, d, [n]) == [d, n, c]
  {
    RemoveConcat([d, c], [n], {n});
    assert [d, c] + [n] == [d, c, n];
    RemoveNothing([d, c], {n});
    RemoveAll([n], {n});
    InsertHead(d, [c], [n]);
    assert [d] + [c] == [d, c] && [d] + ([n] + [c]) == [d, n, c];
  }
}
