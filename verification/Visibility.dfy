/**
 * Which rows of a tree table are visible: what showing, hiding, expanding and collapsing a row does to the rows of
 * its branch, and why a row stays visible exactly when everything above it is expanded.
 */
module Visibility {
  import opened Wrappers
  import opened Forest
  import opened ForestChange
  import opened RowLayout
  import opened LoadOrder

  /** The rows carrying the class of an expanded or a collapsed row, the rows not hidden, and the initialized nodes. */
  datatype View<T> = View(expanded: set<T>, collapsed: set<T>, shown: set<T>, initialized: set<T>)

  ghost predicate OneClass<T>(v: View<T>, m: T) {
    && !(m in v.expanded && m in v.collapsed)
    && (m in v.initialized ==> m in v.expanded || m in v.collapsed)
  }

  /** All proper ancestors of `m` in `part` are expanded. */
  ghost predicate OpenAbove<T>(f: Shape<T>, v: View<T>, m: T, part: set<T>) {
    forall a | a in part && a != m && Below(f.parent, m, a) :: a in v.expanded
  }

  /** Within `part`, the visible rows are those whose proper ancestors are all expanded, and they are initialized. */
  ghost predicate DisplayedIn<T>(f: Shape<T>, v: View<T>, part: set<T>) {
    forall m | m in part :: DisplayedAt(f, v, part, m)
  }

  ghost predicate DisplayedAt<T>(f: Shape<T>, v: View<T>, part: set<T>, m: T) {
    && (m in v.shown <==> OpenAbove(f, v, m, part))
    && (m in v.shown ==> m in v.initialized)
    && OneClass(v, m)
  }

  ghost predicate Displayed<T>(f: Shape<T>, v: View<T>) {
    DisplayedIn(f, v, f.nodes)
  }

  /** Nothing below a collapsed row of `part` is visible. */
  ghost predicate Settled<T>(f: Shape<T>, v: View<T>, part: set<T>) {
    forall m | m in part :: SettledAt(f, v, m)
  }

  ghost predicate SettledAt<T>(f: Shape<T>, v: View<T>, m: T) {
    OneClass(v, m) && (m in v.collapsed ==> forall x | x in f.nodes && x != m && Below(f.parent, x, m) :: x !in v.shown)
  }

  ghost predicate SameAt<T>(v: View<T>, w: View<T>, m: T) {
    && (m in v.expanded <==> m in w.expanded) && (m in v.collapsed <==> m in w.collapsed)
    && (m in v.shown <==> m in w.shown) && (m in v.initialized <==> m in w.initialized)
  }

  /** The rows outside `part` are as they were. */
  ghost predicate SameOutside<T>(f: Shape<T>, v: View<T>, w: View<T>, part: set<T>) {
    forall m | m in f.nodes && m !in part :: SameAt(v, w, m)
  }

  /**
   * Initialized nodes stay initialized and keep their classes, and newly initialized ones start collapsed if `closed`
   * and expanded otherwise, except for those in `but`.
   */
  ghost predicate Keeps<T>(v: View<T>, w: View<T>, but: set<T>, closed: bool) {
    && v.initialized <= w.initialized
    && (forall m | m in v.initialized && m !in but ::
          (m in v.expanded <==> m in w.expanded) && (m in v.collapsed <==> m in w.collapsed))
    && (forall m | m in w.initialized && m !in v.initialized && m !in but ::
          if closed then m in w.collapsed else m in w.expanded)
  }

  /**
   * Nodes that stay uninitialized keep their classes, and if rows start collapsed, a row is visible as soon as it is
   * initialized, except for those in `but`.
   */
  ghost predicate Starts<T>(f: Shape<T>, v: View<T>, w: View<T>, but: set<T>, closed: bool) {
    forall m | m in f.nodes && m !in but :: StartsAt(v, w, closed, m)
  }

  ghost predicate StartsAt<T>(v: View<T>, w: View<T>, closed: bool, m: T) {
    && (m !in w.initialized ==> (m in v.expanded <==> m in w.expanded) && (m in v.collapsed <==> m in w.collapsed))
    && (closed && m in w.initialized && m !in v.initialized ==> m in w.shown)
  }

  /** What showing the row of `n` does: its branch is displayed, and nothing else changes. */
  ghost predicate BranchShown<T>(f: Shape<T>, v: View<T>, w: View<T>, n: T, closed: bool) {
    && SameOutside(f, v, w, Branch(f, n)) && Keeps(v, w, {}, closed) && Starts(f, v, w, {}, closed)
    && DisplayedIn(f, w, Branch(f, n))
  }

  /** What showing the first `i` children of `n` does. */
  ghost predicate KidsShown<T>(f: Shape<T>, v: View<T>, w: View<T>, n: T, i: nat, closed: bool)
    requires IsForest(f) && n in f.nodes && i <= |f.kids[n]|
  {
    && SameOutside(f, v, w, Branches(f, f.kids[n][..i])) && Keeps(v, w, {}, closed) && Starts(f, v, w, {}, closed)
    && forall j | 0 <= j < i :: DisplayedIn(f, w, Branch(f, f.kids[n][j]))
  }

  function Opened<T(==)>(v: View<T>, n: T): View<T> {
    v.(expanded := v.expanded + {n}, collapsed := v.collapsed - {n})
  }

  /** What expanding a row does; the children are shown only if the row itself is visible. */
  ghost predicate Expands<T>(f: Shape<T>, v: View<T>, w: View<T>, n: T, closed: bool)
    requires IsForest(f) && n in f.nodes
  {
    if n in v.expanded then w == v
    else if n !in v.shown then w == Opened(v, n)
    else KidsShown(f, Opened(v, n), w, n, |f.kids[n]|, closed)
  }

  /** The view after collapsing a row. */
  ghost function Collapsed<T>(f: Shape<T>, v: View<T>, n: T): View<T> {
    if n in v.collapsed then v
    else v.(expanded := v.expanded - {n}, collapsed := v.collapsed + {n}, shown := v.shown - (Branch(f, n) - {n}))
  }

  // --- Showing children one after the other ---

  lemma KidsShownStart<T>(f: Shape<T>, v: View<T>, n: T, closed: bool)
    requires IsForest(f) && n in f.nodes
    ensures KidsShown(f, v, v, n, 0, closed)
  {
  }

  lemma DisplayedAgrees<T>(f: Shape<T>, v: View<T>, w: View<T>, part: set<T>)
    requires DisplayedIn(f, v, part) && forall m | m in part :: SameAt(v, w, m)
    ensures DisplayedIn(f, w, part)
  {
    forall m | m in part ensures DisplayedAt(f, w, part, m) {
      assert DisplayedAt(f, v, part, m) && SameAt(v, w, m);
      assert forall a | a in part :: a in v.expanded <==> a in w.expanded by {
        forall a | a in part ensures a in v.expanded <==> a in w.expanded { assert SameAt(v, w, a); }
      }
    }
  }

  lemma SettledAgrees<T>(f: Shape<T>, v: View<T>, w: View<T>, c: T)
    requires Settled(f, v, Branch(f, c)) && forall m | m in Branch(f, c) :: SameAt(v, w, m)
    ensures Settled(f, w, Branch(f, c))
  {
    forall m | m in Branch(f, c) ensures SettledAt(f, w, m) {
      assert SettledAt(f, v, m) && SameAt(v, w, m);
      forall x | x in f.nodes && x != m && Below(f.parent, x, m) && m in w.collapsed ensures x !in w.shown {
        BelowTransitive(f.parent, x, m, c);
        assert SameAt(v, w, x);
      }
    }
  }

  lemma DisplayedIsSettled<T>(f: Shape<T>, v: View<T>, n: T)
    requires DisplayedIn(f, v, Branch(f, n))
    ensures Settled(f, v, Branch(f, n))
  {
    forall m | m in Branch(f, n) ensures SettledAt(f, v, m) {
      assert DisplayedAt(f, v, Branch(f, n), m);
      forall x | x in f.nodes && x != m && Below(f.parent, x, m) && m in v.collapsed ensures x !in v.shown {
        BelowTransitive(f.parent, x, m, n);
        assert DisplayedAt(f, v, Branch(f, n), x);
      }
    }
  }

  /** The next child's branch is still settled. */
  lemma NextSettled<T>(f: Shape<T>, v: View<T>, w: View<T>, n: T, i: nat, closed: bool)
    requires IsForest(f) && n in f.nodes && i < |f.kids[n]| && Settled(f, v, Branch(f, n))
    requires KidsShown(f, v, w, n, i, closed)
    ensures Settled(f, w, Branch(f, f.kids[n][i]))
  {
    var c := f.kids[n][i];
    ChildBranch(f, n, c);
    BranchesUpTo(f, n, i);
    assert Settled(f, v, Branch(f, c));
    forall m | m in Branch(f, c) ensures SameAt(v, w, m) {
      assert m in f.nodes && m !in Branches(f, f.kids[n][..i]);
    }
    SettledAgrees(f, v, w, c);
  }

  lemma KidsShownStep<T>(f: Shape<T>, v: View<T>, w: View<T>, x: View<T>, n: T, i: nat, closed: bool)
    requires IsForest(f) && n in f.nodes && i < |f.kids[n]|
    requires KidsShown(f, v, w, n, i, closed) && BranchShown(f, w, x, f.kids[n][i], closed)
    ensures KidsShown(f, v, x, n, i + 1, closed)
  {
    StartsOn(f, v, w, x, n, i, closed);
    var c := f.kids[n][i];
    BranchesUpTo(f, n, i);
    forall m | m in f.nodes && m !in Branches(f, f.kids[n][..i + 1]) ensures SameAt(v, x, m) {
      assert SameAt(v, w, m) && SameAt(w, x, m);
    }
    forall j | 0 <= j < i ensures DisplayedIn(f, x, Branch(f, f.kids[n][j])) {
      SiblingsApart(f, n, j, i);
      DisplayedAgrees(f, w, x, Branch(f, f.kids[n][j]));
    }
  }

  lemma StartsOn<T>(f: Shape<T>, v: View<T>, w: View<T>, x: View<T>, n: T, i: nat, closed: bool)
    requires IsForest(f) && n in f.nodes && i < |f.kids[n]|
    requires KidsShown(f, v, w, n, i, closed) && BranchShown(f, w, x, f.kids[n][i], closed)
    ensures Starts(f, v, x, {}, closed)
  {
    hide DisplayedIn, Branch;
    forall m | m in f.nodes ensures StartsAt(v, x, closed, m) {
      assert StartsAt(v, w, closed, m) && StartsAt(w, x, closed, m);
      if m in w.initialized && m !in v.initialized { StartedInside(f, v, w, x, n, i, m); }
    }
  }

  lemma StartedInside<T>(f: Shape<T>, v: View<T>, w: View<T>, x: View<T>, n: T, i: nat, m: T)
    requires IsForest(f) && n in f.nodes && i < |f.kids[n]|
    requires SameOutside(f, v, w, Branches(f, f.kids[n][..i])) && SameOutside(f, w, x, Branch(f, f.kids[n][i]))
    requires m in f.nodes && m in w.initialized && m !in v.initialized
    ensures m in w.shown ==> m in x.shown
  {
    assert m !in Branches(f, f.kids[n][..i]) ==> SameAt(v, w, m);
    BranchesMember(f, f.kids[n][..i], m);
    var j :| 0 <= j < i && m in Branch(f, f.kids[n][..i][j]);
    SiblingsApart(f, n, j, i);
    assert SameAt(w, x, m);
  }

  lemma SiblingsApart<T>(f: Shape<T>, n: T, j: nat, i: nat)
    requires IsForest(f) && n in f.nodes && j < i < |f.kids[n]|
    ensures forall m | m in Branch(f, f.kids[n][j]) :: m in f.nodes && m !in Branch(f, f.kids[n][i])
  {
    assert NoDup(f.kids[n]);
    SiblingBranches(f, n, f.kids[n][j], f.kids[n][i]);
  }

  // --- A whole branch ---

  /** With all children shown, the branch of an expanded row is displayed. */
  lemma OpenBranchDisplayed<T>(f: Shape<T>, v: View<T>, w: View<T>, n: T, closed: bool)
    requires IsForest(f) && n in f.nodes && KidsShown(f, v, w, n, |f.kids[n]|, closed)
    requires n in v.expanded && n !in v.collapsed && n in v.shown && n in v.initialized
    ensures BranchShown(f, v, w, n, closed)
  {
    BranchesUpTo(f, n, |f.kids[n]|);
    BranchHead(f, n);
    assert SameAt(v, w, n);
    forall m | m in Branch(f, n) ensures DisplayedAt(f, w, Branch(f, n), m) {
      if m == n {
        forall a | a in Branch(f, n) && Below(f.parent, n, a) ensures a == n { BelowAntisymmetric(f.parent, n, a); }
      } else {
        BranchSplits(f, n, m);
        var c :| c in f.kids[n] && m in Branch(f, c);
        var j :| 0 <= j < |f.kids[n]| && f.kids[n][j] == c;
        assert DisplayedIn(f, w, Branch(f, c));
        ChildBranch(f, n, c);
        forall a | a in Branch(f, n) && a != m && Below(f.parent, m, a) ensures a == n || a in Branch(f, c) {
          AboveInChild(f, n, c, m, a);
        }
        assert DisplayedAt(f, w, Branch(f, c), m);
      }
    }
  }

  /** What stands above a node of a child's branch, inside the branch of the parent. */
  lemma AboveInChild<T>(f: Shape<T>, n: T, c: T, m: T, a: T)
    requires IsForest(f) && n in f.nodes && c in f.kids[n] && m in Branch(f, c) && a in Branch(f, n)
    requires Below(f.parent, m, a)
    ensures a == n || a in Branch(f, c)
  {
    if a != n {
      BranchSplits(f, n, a);
      var b :| b in f.kids[n] && a in Branch(f, b);
      BelowTransitive(f.parent, m, a, b);
      if b != c { SiblingBranches(f, n, b, c); }
    }
  }

  /** The branch of a visible collapsed row is displayed once it is settled. */
  lemma ClosedBranchDisplayed<T>(f: Shape<T>, v: View<T>, n: T)
    requires IsForest(f) && n in f.nodes && Settled(f, v, Branch(f, n))
    requires n in v.collapsed && n in v.shown && n in v.initialized
    ensures DisplayedIn(f, v, Branch(f, n))
  {
    BranchHead(f, n);
    assert SettledAt(f, v, n);
    forall m | m in Branch(f, n) ensures DisplayedAt(f, v, Branch(f, n), m) {
      assert SettledAt(f, v, m);
      if m == n {
        forall a | a in Branch(f, n) && Below(f.parent, n, a) ensures a == n { BelowAntisymmetric(f.parent, n, a); }
      }
    }
  }

  lemma OpeningSettles<T>(f: Shape<T>, v: View<T>, n: T)
    requires Settled(f, v, Branch(f, n)) && n in f.nodes
    ensures Settled(f, Opened(v, n), Branch(f, n))
  {
    forall m | m in Branch(f, n) ensures SettledAt(f, Opened(v, n), m) {
      assert SettledAt(f, v, m);
    }
  }

  lemma ShowingSettles<T>(f: Shape<T>, v: View<T>, n: T)
    requires IsForest(f) && n in f.nodes && Settled(f, v, Branch(f, n))
    ensures Settled(f, v.(shown := v.shown + {n}), Branch(f, n))
  {
    forall m | m in Branch(f, n) ensures SettledAt(f, v.(shown := v.shown + {n}), m) {
      assert SettledAt(f, v, m);
      if Below(f.parent, n, m) { BelowAntisymmetric(f.parent, n, m); }
    }
  }

  /** After collapsing a row that has not been initialized, its branch can be shown. */
  lemma CollapseSettles<T>(f: Shape<T>, v: View<T>, w: View<T>, n: T)
    requires IsForest(f) && n in f.nodes && Settled(f, v, Branch(f, n)) && n !in v.initialized
    requires w == Collapsed(f, v, n).(initialized := v.initialized + {n})
    ensures Settled(f, w, Branch(f, n)) && SameOutside(f, v, w, Branch(f, n)) && Keeps(v, w, {}, true)
    ensures n in w.initialized
    ensures Starts(f, v, w, {n}, true)
  {
    BranchHead(f, n);
    assert SettledAt(f, v, n);
    forall m | m in Branch(f, n) ensures SettledAt(f, w, m) {
      assert SettledAt(f, v, m);
    }
  }

  /** After expanding a row that has not been initialized, its branch can be shown. */
  lemma ExpandSettles<T>(f: Shape<T>, v: View<T>, x: View<T>, w: View<T>, n: T)
    requires IsForest(f) && n in f.nodes && Settled(f, v, Branch(f, n)) && n !in v.initialized
    requires Expands(f, v, x, n, false) && w == x.(initialized := x.initialized + {n})
    ensures Settled(f, w, Branch(f, n)) && SameOutside(f, v, w, Branch(f, n)) && Keeps(v, w, {}, false)
    ensures n in w.initialized
    ensures Starts(f, v, w, {n}, false)
  {
    BranchHead(f, n);
    BranchesUpTo(f, n, |f.kids[n]|);
    assert SettledAt(f, v, n);
    if n !in v.expanded && n in v.shown {
      ExpandedKidsSettle(f, v, x, w, n);
    } else {
      forall m | m in Branch(f, n) ensures SettledAt(f, w, m) {
        assert SettledAt(f, v, m);
      }
    }
  }

  lemma ExpandedKidsSettle<T>(f: Shape<T>, v: View<T>, x: View<T>, w: View<T>, n: T)
    requires IsForest(f) && n in f.nodes && n !in v.initialized && n !in v.expanded
    requires KidsShown(f, Opened(v, n), x, n, |f.kids[n]|, false) && w == x.(initialized := x.initialized + {n})
    ensures Settled(f, w, Branch(f, n)) && SameOutside(f, v, w, Branch(f, n)) && Keeps(v, w, {}, false)
    ensures Starts(f, v, w, {n}, false)
  {
    var o := Opened(v, n);
    forall m | m in f.nodes && m != n ensures StartsAt(v, w, false, m) { assert StartsAt(o, x, false, m); }
    BranchHead(f, n);
    BranchesUpTo(f, n, |f.kids[n]|);
    assert SameAt(o, x, n);
    forall m | m in Branch(f, n) ensures SettledAt(f, w, m) {
      if m != n {
        BranchSplits(f, n, m);
        var c :| c in f.kids[n] && m in Branch(f, c);
        var j :| 0 <= j < |f.kids[n]| && f.kids[n][j] == c;
        assert DisplayedIn(f, x, Branch(f, c));
        DisplayedIsSettled(f, x, c);
        assert SettledAt(f, x, m);
      }
    }
    forall m | m in f.nodes && m !in Branch(f, n) ensures SameAt(v, w, m) {
      assert SameAt(o, x, m);
    }
  }

  /** Showing a row: initialize it, unhide it, and show the children if it is expanded. */
  lemma ShowEnds<T>(f: Shape<T>, v: View<T>, w: View<T>, x: View<T>, n: T, closed: bool)
    requires IsForest(f) && n in f.nodes && n in w.initialized && Settled(f, w, Branch(f, n))
    requires SameOutside(f, v, w, Branch(f, n)) && Keeps(v, w, {}, closed) && Starts(f, v, w, {n}, closed)
    requires closed ==> w.initialized == v.initialized + {n} || w.initialized == v.initialized
    requires var s := w.(shown := w.shown + {n});
             if n in w.expanded then KidsShown(f, s, x, n, |f.kids[n]|, closed) else x == s
    ensures BranchShown(f, v, x, n, closed)
  {
    var s := w.(shown := w.shown + {n});
    BranchHead(f, n);
    ShowStarts(f, v, w, x, n, closed);
    hide Starts;
    ShowingSettles(f, w, n);
    assert SettledAt(f, w, n);
    if n in w.expanded {
      OpenBranchDisplayed(f, s, x, n, closed);
    } else {
      ClosedBranchDisplayed(f, s, n);
    }
    forall m | m in f.nodes && m !in Branch(f, n) ensures SameAt(v, x, m) {
      assert SameAt(v, w, m);
      assert n in w.expanded ==> SameAt(s, x, m);
    }
  }

  lemma ShowStarts<T>(f: Shape<T>, v: View<T>, w: View<T>, x: View<T>, n: T, closed: bool)
    requires IsForest(f) && n in f.nodes && n in w.initialized && v.initialized <= w.initialized
    requires Starts(f, v, w, {n}, closed) && w.initialized <= x.initialized
    requires var s := w.(shown := w.shown + {n});
             if n in w.expanded then KidsShown(f, s, x, n, |f.kids[n]|, closed) else x == s
    requires closed ==> w.initialized == v.initialized + {n} || w.initialized == v.initialized
    ensures Starts(f, v, x, {}, closed)
  {
    hide IsForest, DisplayedIn;
    var s := w.(shown := w.shown + {n});
    forall m | m in f.nodes ensures StartsAt(v, x, closed, m) {
      assert m != n ==> StartsAt(v, w, closed, m);
      if n in w.expanded {
        assert StartsAt(s, x, closed, m);
        if m == n { KidsLeaveHead(f, s, x, n, closed); }
      }
    }
  }

  lemma KidsLeaveHead<T>(f: Shape<T>, v: View<T>, w: View<T>, n: T, closed: bool)
    requires IsForest(f) && n in f.nodes && KidsShown(f, v, w, n, |f.kids[n]|, closed)
    ensures SameAt(v, w, n)
  {
    BranchesUpTo(f, n, |f.kids[n]|);
    BranchHead(f, n);
  }

  lemma Unchanged<T>(f: Shape<T>, v: View<T>, part: set<T>, but: set<T>, closed: bool)
    ensures SameOutside(f, v, v, part) && Keeps(v, v, {}, closed) && Starts(f, v, v, but, closed)
  {
  }

  lemma OpenedIs<T>(v: View<T>, n: T)
    ensures Opened(v, n) == View(v.expanded + {n}, v.collapsed - {n}, v.shown, v.initialized)
  {
  }

  lemma CollapsedStarted<T>(f: Shape<T>, v: View<T>, n: T)
    ensures Collapsed(f, v, n).initialized == v.initialized
  {
  }

  lemma ExpandsFrom<T>(f: Shape<T>, v: View<T>, w: View<T>, n: T, closed: bool)
    requires IsForest(f) && n in f.nodes
    requires n in v.expanded ==> w == v
    requires n !in v.expanded && n !in v.shown ==> w == Opened(v, n)
    requires n !in v.expanded && n in v.shown ==> KidsShown(f, Opened(v, n), w, n, |f.kids[n]|, closed)
    ensures Expands(f, v, w, n, closed)
  {
  }

  lemma NoBranches<T>(f: Shape<T>, n: T, shown: set<T>)
    requires IsForest(f) && n in f.nodes
    ensures Branches(f, f.kids[n][..0]) == {} && shown - {} == shown
  {
    assert f.kids[n][..0] == [];
  }

  // --- The whole table ---

  /** Expanding a row of a displayed table leaves it displayed, and keeps the classes of all other initialized rows. */
  lemma ExpandKeepsDisplayed<T>(f: Shape<T>, v: View<T>, w: View<T>, n: T, closed: bool)
    requires IsForest(f) && n in f.nodes && Displayed(f, v) && Expands(f, v, w, n, closed)
    ensures Displayed(f, w) && n in w.expanded && Keeps(v, w, {n}, closed) && Starts(f, v, w, {n}, closed)
    ensures n !in v.shown ==> w.initialized == v.initialized
  {
    hide *;
    ExpandStarts(f, v, w, n, closed);
    ExpandsCases(f, v, w, n, closed);
    if n in v.expanded {
      KeptAll(v, {n}, closed);
    } else if n in v.shown {
      ExpandShownDisplayed(f, v, w, n, closed);
    } else {
      ExpandHiddenDisplayed(f, v, n);
      OpenedKeeps(v, n, closed);
    }
  }

  lemma ExpandsCases<T>(f: Shape<T>, v: View<T>, w: View<T>, n: T, closed: bool)
    requires IsForest(f) && n in f.nodes && Expands(f, v, w, n, closed)
    ensures n in f.kids
    ensures if n in v.expanded then w == v
            else if n !in v.shown then w == Opened(v, n)
            else KidsShown(f, Opened(v, n), w, n, |f.kids[n]|, closed)
  {
    hide KidsShown, Opened;
  }

  lemma KeptAll<T>(v: View<T>, but: set<T>, closed: bool)
    ensures Keeps(v, v, but, closed)
  {
  }

  lemma OpenedKeeps<T>(v: View<T>, n: T, closed: bool)
    ensures Keeps(v, Opened(v, n), {n}, closed) && n in Opened(v, n).expanded
  {
  }

  lemma ExpandStarts<T>(f: Shape<T>, v: View<T>, w: View<T>, n: T, closed: bool)
    requires IsForest(f) && n in f.nodes && Expands(f, v, w, n, closed)
    ensures Starts(f, v, w, {n}, closed) && (n !in v.shown ==> w.initialized == v.initialized)
  {
    hide IsForest, DisplayedIn;
    if n !in v.expanded && n in v.shown {
      forall m | m in f.nodes && m != n ensures StartsAt(v, w, closed, m) {
        assert StartsAt(Opened(v, n), w, closed, m);
      }
    }
  }

  lemma ExpandHiddenDisplayed<T>(f: Shape<T>, v: View<T>, n: T)
    requires IsForest(f) && n in f.nodes && Displayed(f, v) && n !in v.shown
    ensures Displayed(f, Opened(v, n))
  {
    var w := Opened(v, n);
    assert DisplayedAt(f, v, f.nodes, n);
    var a :| a in f.nodes && a != n && Below(f.parent, n, a) && a !in v.expanded;
    forall m | m in f.nodes ensures DisplayedAt(f, w, f.nodes, m) {
      assert DisplayedAt(f, v, f.nodes, m);
      if m != n && Below(f.parent, m, n) {
        BelowTransitive(f.parent, m, n, a);
        if m == a { BelowAntisymmetric(f.parent, n, a); }
        assert a !in w.expanded;
        assert !OpenAbove(f, w, m, f.nodes);
      } else {
        assert OpenAbove(f, w, m, f.nodes) <==> OpenAbove(f, v, m, f.nodes);
      }
    }
  }

  lemma ExpandShownDisplayed<T>(f: Shape<T>, v: View<T>, w: View<T>, n: T, closed: bool)
    requires IsForest(f) && n in f.nodes && n in f.kids && Displayed(f, v) && n in v.shown && n !in v.expanded
    requires KidsShown(f, Opened(v, n), w, n, |f.kids[n]|, closed)
    ensures Displayed(f, w) && n in w.expanded && Keeps(v, w, {n}, closed)
  {
    hide *;
    var o := Opened(v, n);
    OpenedParts(f, v, n);
    OpenBranchDisplayed(f, o, w, n, closed);
    BranchShownParts(f, o, w, n, closed);
    forall m | m in f.nodes ensures DisplayedAt(f, w, f.nodes, m) {
      if m in Branch(f, n) {
        InsideDisplayed(f, v, w, n, m);
      } else {
        OutsideDisplayed(f, v, w, n, m);
      }
    }
    DisplayedFrom(f, w);
    KeepsAcross(f, v, w, n, closed);
  }

  lemma OpenedParts<T>(f: Shape<T>, v: View<T>, n: T)
    requires IsForest(f) && n in f.nodes && Displayed(f, v) && n in v.shown
    ensures var o := Opened(v, n); n in o.expanded && n !in o.collapsed && n in o.shown && n in o.initialized
    ensures n in v.initialized
  {
    assert DisplayedAt(f, v, f.nodes, n);
  }

  lemma BranchShownParts<T>(f: Shape<T>, v: View<T>, w: View<T>, n: T, closed: bool)
    requires BranchShown(f, v, w, n, closed)
    ensures SameOutside(f, v, w, Branch(f, n)) && Keeps(v, w, {}, closed) && DisplayedIn(f, w, Branch(f, n))
  {
  }

  lemma DisplayedFrom<T>(f: Shape<T>, v: View<T>)
    requires forall m | m in f.nodes :: DisplayedAt(f, v, f.nodes, m)
    ensures Displayed(f, v)
  {
  }

  lemma KeepsAcross<T>(f: Shape<T>, v: View<T>, w: View<T>, n: T, closed: bool)
    requires Keeps(Opened(v, n), w, {}, closed) && n in v.initialized
    ensures Keeps(v, w, {n}, closed) && n in w.expanded
  {
  }

  /** Above the branch of a visible row everything is expanded, so inside the branch only the branch counts. */
  lemma InsideDisplayed<T>(f: Shape<T>, v: View<T>, w: View<T>, n: T, m: T)
    requires IsForest(f) && n in f.nodes && m in Branch(f, n) && Displayed(f, v) && n in v.shown
    requires SameOutside(f, Opened(v, n), w, Branch(f, n)) && DisplayedIn(f, w, Branch(f, n))
    ensures DisplayedAt(f, w, f.nodes, m)
  {
    assert DisplayedAt(f, w, Branch(f, n), m);
    assert DisplayedAt(f, v, f.nodes, n);
    forall a | a in f.nodes && a != m && Below(f.parent, m, a) && a !in Branch(f, n) ensures a in w.expanded {
      BelowLinear(f.parent, m, a, n);
      BranchHead(f, n);
      assert SameAt(Opened(v, n), w, a);
    }
  }

  lemma OutsideDisplayed<T>(f: Shape<T>, v: View<T>, w: View<T>, n: T, m: T)
    requires IsForest(f) && n in f.nodes && m in f.nodes && m !in Branch(f, n) && Displayed(f, v)
    requires SameOutside(f, Opened(v, n), w, Branch(f, n))
    ensures DisplayedAt(f, w, f.nodes, m)
  {
    BranchHead(f, n);
    assert DisplayedAt(f, v, f.nodes, m) && SameAt(Opened(v, n), w, m);
    forall a | a in f.nodes && a != m && Below(f.parent, m, a) ensures a in v.expanded <==> a in w.expanded {
      if a in Branch(f, n) { BelowTransitive(f.parent, m, a, n); }
      assert SameAt(Opened(v, n), w, a);
    }
  }

  /** Collapsing a row of a displayed table leaves it displayed, and keeps the classes of all other rows. */
  lemma CollapseKeepsDisplayed<T>(f: Shape<T>, v: View<T>, n: T, closed: bool)
    requires IsForest(f) && n in f.nodes && Displayed(f, v)
    ensures Displayed(f, Collapsed(f, v, n)) && n in Collapsed(f, v, n).collapsed
    ensures Keeps(v, Collapsed(f, v, n), {n}, closed)
  {
    var w := Collapsed(f, v, n);
    if n !in v.collapsed {
      BranchHead(f, n);
      forall m | m in f.nodes ensures DisplayedAt(f, w, f.nodes, m) {
        assert DisplayedAt(f, v, f.nodes, m);
        if m != n && m in Branch(f, n) {
          assert !OpenAbove(f, w, m, f.nodes);
        } else {
          assert OpenAbove(f, w, m, f.nodes) <==> OpenAbove(f, v, m, f.nodes);
        }
      }
    }
  }

  /** With everything above a row expanded, the row is visible. */
  lemma OpenIsShown<T>(f: Shape<T>, v: View<T>, n: T)
    requires Displayed(f, v) && n in f.nodes && OpenAbove(f, v, n, f.nodes)
    ensures n in v.shown && n in v.initialized
  {
    assert DisplayedAt(f, v, f.nodes, n);
  }

  // --- The first rendering ---

  /** The rows after showing the first `i` roots. */
  ghost predicate RootsShown<T>(f: Shape<T>, v: View<T>, w: View<T>, roots: seq<T>, i: nat, closed: bool)
    requires i <= |roots|
  {
    && SameOutside(f, v, w, Branches(f, roots[..i])) && Keeps(v, w, {}, closed)
    && forall j | 0 <= j < i :: DisplayedIn(f, w, Branch(f, roots[j]))
  }

  lemma RootBranchesApart<T>(f: Shape<T>, a: T, b: T)
    requires a in f.nodes && b in f.nodes && a !in f.parent && b !in f.parent && a != b
    ensures Branch(f, a) !! Branch(f, b)
  {
    forall m | m in Branch(f, a) && m in Branch(f, b) ensures false {
      BelowLinear(f.parent, m, a, b);
      OnlySelfAboveRoot(f, a, b);
      OnlySelfAboveRoot(f, b, a);
    }
  }

  lemma OnlySelfAboveRoot<T>(f: Shape<T>, a: T, b: T)
    requires a !in f.parent && Below(f.parent, a, b)
    ensures a == b
  {
    var k: nat :| Climb(f.parent, a, k) == Some(b);
  }

  lemma RootsSettled<T>(f: Shape<T>, v: View<T>, w: View<T>, roots: seq<T>, i: nat, closed: bool)
    requires IsForest(f) && AreRoots(f, roots) && i < |roots| && Settled(f, v, f.nodes)
    requires RootsShown(f, v, w, roots, i, closed)
    ensures Settled(f, w, Branch(f, roots[i]))
  {
    forall m | m in Branch(f, roots[i]) ensures SameAt(v, w, m) {
      BranchesMember(f, roots[..i], m);
      if j :| 0 <= j < i && m in Branch(f, roots[..i][j]) {
        RootBranchesApart(f, roots[i], roots[j]);
      }
    }
    SettledAgrees(f, v, w, roots[i]);
  }

  lemma RootsShownStep<T>(f: Shape<T>, v: View<T>, w: View<T>, x: View<T>, roots: seq<T>, i: nat, closed: bool)
    requires IsForest(f) && AreRoots(f, roots) && i < |roots|
    requires RootsShown(f, v, w, roots, i, closed) && BranchShown(f, w, x, roots[i], closed)
    ensures RootsShown(f, v, x, roots, i + 1, closed)
  {
    hide DisplayedIn, IsForest, Branches, Branch;
    assert roots[..i + 1] == roots[..i] + [roots[i]];
    BranchesAppend(f, roots[..i], roots[i]);
    forall m | m in f.nodes && m !in Branches(f, roots[..i + 1]) ensures SameAt(v, x, m) {
      assert SameAt(v, w, m) && SameAt(w, x, m);
    }
    forall j | 0 <= j < i ensures DisplayedIn(f, x, Branch(f, roots[j])) {
      RootBranchesApart(f, roots[j], roots[i]);
      BranchInNodes(f, roots[j]);
      DisplayedAgrees(f, w, x, Branch(f, roots[j]));
    }
  }

  lemma BranchInNodes<T>(f: Shape<T>, n: T)
    ensures Branch(f, n) <= f.nodes
  {
  }

  /** Once all roots are shown, the table is displayed. */
  lemma RootsShownEnd<T>(f: Shape<T>, v: View<T>, w: View<T>, roots: seq<T>, closed: bool)
    requires IsForest(f) && AreRoots(f, roots) && RootsShown(f, v, w, roots, |roots|, closed)
    ensures Displayed(f, w) && Keeps(v, w, {}, closed)
  {
    forall m | m in f.nodes ensures DisplayedAt(f, w, f.nodes, m) {
      var r := RootOf(f, m);
      var j :| 0 <= j < |roots| && roots[j] == r;
      assert DisplayedIn(f, w, Branch(f, r));
      assert DisplayedAt(f, w, Branch(f, r), m);
      forall a | a in f.nodes && Below(f.parent, m, a) ensures a in Branch(f, r) {
        BelowLinear(f.parent, m, a, r);
        if Below(f.parent, r, a) { OnlySelfAboveRoot(f, r, a); BelowSelf(f.parent, a); }
      }
    }
  }

  lemma RootOf<T>(f: Shape<T>, m: T) returns (r: T)
    requires IsForest(f) && m in f.nodes
    ensures r in f.nodes && r !in f.parent && m in Branch(f, r)
  {
    var height := ClimbEnds(f, m);
    r := RootWithin(f, m, height);
  }

  lemma {:induction false} RootWithin<T>(f: Shape<T>, m: T, height: nat) returns (r: T)
    requires IsForest(f) && m in f.nodes && Climb(f.parent, m, height).None?
    ensures r in f.nodes && r !in f.parent && m in Branch(f, r)
  {
    if m in f.parent {
      r := RootWithin(f, f.parent[m], height - 1);
      BelowParent(f.parent, m);
      BelowTransitive(f.parent, m, f.parent[m], r);
    } else {
      r := m;
      BelowSelf(f.parent, m);
    }
  }

  lemma RootsShownStart<T>(f: Shape<T>, v: View<T>, roots: seq<T>, closed: bool)
    ensures RootsShown(f, v, v, roots, 0, closed)
  {
  }

  lemma RootIsNode<T>(f: Shape<T>, roots: seq<T>, i: nat)
    requires AreRoots(f, roots) && i < |roots|
    ensures roots[i] in f.nodes
  {
  }

  // --- Expanding and collapsing many rows ---

  lemma DisplayedSettles<T>(f: Shape<T>, v: View<T>, n: T)
    requires IsForest(f) && n in f.nodes && Displayed(f, v)
    ensures Settled(f, v, Branch(f, n))
  {
    forall m | m in Branch(f, n) ensures SettledAt(f, v, m) {
      assert DisplayedAt(f, v, f.nodes, m);
      forall x | x in f.nodes && x != m && Below(f.parent, x, m) && m in v.collapsed ensures x !in v.shown {
        assert DisplayedAt(f, v, f.nodes, x);
      }
    }
  }

  lemma CollapsedClass<T>(f: Shape<T>, v: View<T>, n: T)
    requires n in f.nodes && Displayed(f, v)
    ensures n in Collapsed(f, v, n).collapsed && n !in Collapsed(f, v, n).expanded
    ensures v.collapsed <= Collapsed(f, v, n).collapsed
  {
    assert DisplayedAt(f, v, f.nodes, n);
  }

  /** `n` and everything above it are expanded. */
  ghost predicate OpenFrom<T>(f: Shape<T>, v: View<T>, n: T) {
    forall a | a in f.nodes && Below(f.parent, n, a) :: a in v.expanded
  }

  lemma ClimbParent<T>(parent: map<T, T>, n: T, height: nat)
    requires n in parent && Climb(parent, n, height).None?
    ensures height > 0 && Climb(parent, parent[n], height - 1).None?
  {
  }

  /** Expanding a row whose parent is open all the way up. */
  lemma RevealStep<T>(f: Shape<T>, v: View<T>, w: View<T>, n: T, closed: bool)
    requires IsForest(f) && n in f.nodes && Displayed(f, v) && Expands(f, v, w, n, closed)
    requires n in f.parent ==> OpenFrom(f, v, f.parent[n])
    ensures Displayed(f, w) && OpenFrom(f, w, n) && n in w.shown && Keeps(v, w, {n}, closed)
  {
    hide Expands;
    ExpandKeepsDisplayed(f, v, w, n, closed);
    forall a | a in f.nodes && a != n && Below(f.parent, n, a) ensures a in w.expanded {
      AboveParent(f, n, a);
      forall b | b in f.nodes && Below(f.parent, a, b) ensures b in v.expanded {
        BelowTransitive(f.parent, f.parent[n], a, b);
      }
      OpenIsShown(f, v, a);
      BelowSelf(f.parent, a);
    }
    OpenIsShown(f, w, n);
  }

  /** A row and everything above it. */
  ghost function Above<T>(f: Shape<T>, n: T): set<T> {
    set a | a in f.nodes && Below(f.parent, n, a)
  }

  /** What revealing the parent and then expanding the row itself keeps. */
  lemma RevealKeeps<T>(f: Shape<T>, v: View<T>, w: View<T>, x: View<T>, n: T, closed: bool)
    requires IsForest(f) && n in f.nodes && Keeps(w, x, {n}, closed)
    requires if n in f.parent then Keeps(v, w, Above(f, f.parent[n]), closed) else v == w
    ensures Keeps(v, x, Above(f, n), closed)
  {
    BelowSelf(f.parent, n);
    if n in f.parent {
      BelowParent(f.parent, n);
      forall a | a in Above(f, f.parent[n]) ensures a in Above(f, n) {
        BelowTransitive(f.parent, n, f.parent[n], a);
      }
    }
  }

  lemma AboveParent<T>(f: Shape<T>, n: T, a: T)
    requires a != n && Below(f.parent, n, a)
    ensures n in f.parent && Below(f.parent, f.parent[n], a)
  {
    var k: nat :| Climb(f.parent, n, k) == Some(a);
    assert Climb(f.parent, f.parent[n], k - 1) == Some(a);
  }

  /** The first `i` nodes are expanded and visible. */
  ghost predicate AllOpen<T>(f: Shape<T>, v: View<T>, nodes: seq<T>, i: nat)
    requires i <= |nodes|
  {
    forall j | 0 <= j < i :: nodes[j] in v.expanded && nodes[j] in v.shown
  }

  lemma NodeOf<T>(f: Shape<T>, nodes: seq<T>, i: nat)
    requires Elements(nodes) == f.nodes && i < |nodes|
    ensures nodes[i] in f.nodes
  {
    assert nodes[i] in Elements(nodes);
  }

  lemma AllOpenStep<T>(f: Shape<T>, v: View<T>, w: View<T>, nodes: seq<T>, i: nat, closed: bool)
    requires IsForest(f) && Elements(nodes) == f.nodes && ParentsFirst(f.parent, nodes) && i < |nodes|
    requires nodes[i] in f.nodes && Displayed(f, v) && AllOpen(f, v, nodes, i) && Expands(f, v, w, nodes[i], closed)
    ensures Displayed(f, w) && AllOpen(f, w, nodes, i + 1)
  {
    hide Expands;
    ExpandKeepsDisplayed(f, v, w, nodes[i], closed);
    forall j | 0 <= j <= i ensures nodes[j] in w.expanded {
      NodeOf(f, nodes, j);
      assert DisplayedAt(f, v, f.nodes, nodes[j]);
    }
    forall j | 0 <= j <= i ensures nodes[j] in w.shown {
      NodeOf(f, nodes, j);
      forall a | a in f.nodes && a != nodes[j] && Below(f.parent, nodes[j], a) ensures a in w.expanded {
        var k: nat :| Climb(f.parent, nodes[j], k) == Some(a);
        AncestorsFirst(f.parent, nodes, j, k);
      }
      OpenIsShown(f, w, nodes[j]);
    }
  }

  lemma AllOpenEnd<T>(f: Shape<T>, v: View<T>, nodes: seq<T>)
    requires Elements(nodes) == f.nodes && AllOpen(f, v, nodes, |nodes|)
    ensures f.nodes <= v.shown && f.nodes <= v.expanded
  {
  }

  lemma AllIn<T>(nodes: seq<T>, all: set<T>, some: set<T>)
    requires Elements(nodes) == all && forall j | 0 <= j < |nodes| :: nodes[j] in some
    ensures all <= some
  {
  }

  lemma AllCollapsed<T>(f: Shape<T>, v: View<T>)
    requires IsForest(f) && Displayed(f, v) && f.nodes <= v.collapsed
    ensures forall m | m in f.nodes :: m in v.shown <==> m !in f.parent
  {
    forall m | m in f.nodes ensures m in v.shown <==> m !in f.parent {
      assert DisplayedAt(f, v, f.nodes, m);
      if m in f.parent {
        assert DisplayedAt(f, v, f.nodes, f.parent[m]);
        BelowParent(f.parent, m);
        NoSelfParent(f, m);
      } else {
        forall a | a in f.nodes && Below(f.parent, m, a) ensures a == m { OnlySelfAboveRoot(f, m, a); }
      }
    }
  }

  lemma NoSelfParent<T>(f: Shape<T>, m: T)
    requires IsForest(f) && m in f.nodes && m in f.parent
    ensures f.parent[m] != m
  {
    assert Rooted(f.parent, m);
    if f.parent[m] == m {
      assert Climb(f.parent, m, 1) == Climb(f.parent, m, 0);
      RootedHasNoCycle(f.parent, m, 1);
    }
  }

  // --- Removing ---

  ghost function LessView<T>(v: View<T>, gone: set<T>): View<T> {
    View(v.expanded - gone, v.collapsed - gone, v.shown - gone, v.initialized - gone)
  }

  /** Taking a branch and its rows away leaves the rest displayed. */
  lemma RemoveKeepsDisplayed<T>(f: Shape<T>, v: View<T>, n: T)
    requires IsForest(f) && n in f.nodes && Displayed(f, v)
    ensures Displayed(RemoveShape(f, n), LessView(v, Branch(f, n)))
  {
    var gone, g, w := Branch(f, n), RemoveShape(f, n), LessView(v, Branch(f, n));
    RemovedParts(f, n);
    forall m | m in g.nodes ensures DisplayedAt(g, w, g.nodes, m) {
      assert DisplayedAt(f, v, f.nodes, m);
      forall a | a in f.nodes && Below(f.parent, m, a) ensures a !in gone && Below(g.parent, m, a) {
        if a in gone { BelowTransitive(f.parent, m, a, n); }
        var k: nat :| Climb(f.parent, m, k) == Some(a);
        ClimbWithout(f, n, m, k);
        assert Climb(g.parent, m, k) == Some(a);
      }
      forall a | a in g.nodes && Below(g.parent, m, a) ensures Below(f.parent, m, a) {
        var k: nat :| Climb(g.parent, m, k) == Some(a);
        ClimbWithout(f, n, m, k);
        assert Climb(f.parent, m, k) == Some(a);
      }
    }
  }
}
