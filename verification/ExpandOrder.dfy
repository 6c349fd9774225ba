/**
 * Expanding all rows of a tree table, one after the other: which orders of the nodes leave every row visible. A row
 * that is expanded before it is first shown collapses again when it is shown, if rows start collapsed.
 */
module ExpandOrder {
  import opened Wrappers
  import opened Forest
  import opened ForestChange
  import opened RowLayout
  import opened LoadOrder
  import opened Visibility

  /** The row is expanded, and has been shown before. */
  ghost predicate Steady<T>(v: View<T>, m: T) {
    m in v.initialized && m in v.expanded
  }

  /** Node number `i` has children, was never shown, and comes before `a` although `a`, above it, is not steady. */
  ghost predicate OutOfOrder<T>(f: Shape<T>, v: View<T>, nodes: seq<T>, i: int, a: T)
    requires IsForest(f)
  {
    && 0 <= i < |nodes| && nodes[i] in f.nodes && nodes[i] !in v.initialized && f.kids[nodes[i]] != []
    && a in f.nodes && a != nodes[i] && Below(f.parent, nodes[i], a) && !Steady(v, a) && a !in nodes[..i]
  }

  /**
   * Every uninitialized node with children comes after each of its proper ancestors that is not both initialized and
   * expanded.
   */
  ghost predicate UnfoldsInOrder<T>(f: Shape<T>, v: View<T>, nodes: seq<T>)
    requires IsForest(f)
  {
    forall i, a | a in f.nodes :: !OutOfOrder(f, v, nodes, i, a)
  }

  /** The views while the nodes are expanded one after the other, as far as they go. */
  ghost predicate Expanding<T>(f: Shape<T>, views: seq<View<T>>, nodes: seq<T>, closed: bool)
    requires IsForest(f)
  {
    && 0 < |views| <= |nodes| + 1 && Displayed(f, views[0]) && Elements(nodes) == f.nodes && NoDup(nodes)
    && forall i | 0 <= i < |views| - 1 :: StepOf(f, views, nodes, closed, i)
  }

  ghost predicate StepOf<T>(f: Shape<T>, views: seq<View<T>>, nodes: seq<T>, closed: bool, i: nat)
    requires IsForest(f) && i + 1 < |views| <= |nodes| + 1
  {
    nodes[i] in f.nodes && Expands(f, views[i], views[i + 1], nodes[i], closed)
  }

  lemma ExpandingStart<T>(f: Shape<T>, v: View<T>, nodes: seq<T>, closed: bool)
    requires IsForest(f) && Displayed(f, v) && Elements(nodes) == f.nodes && NoDup(nodes)
    ensures Expanding(f, [v], nodes, closed)
  {
  }

  lemma ExpandingNext<T>(f: Shape<T>, views: seq<View<T>>, w: View<T>, nodes: seq<T>, closed: bool)
    requires IsForest(f) && Expanding(f, views, nodes, closed) && |views| <= |nodes| && nodes[|views| - 1] in f.nodes
    requires Expands(f, views[|views| - 1], w, nodes[|views| - 1], closed)
    ensures Expanding(f, views + [w], nodes, closed)
  {
    hide Expands, Displayed;
    var more := views + [w];
    forall i | 0 <= i < |more| - 1 ensures StepOf(f, more, nodes, closed, i) {
      assert i < |views| - 1 ==> StepOf(f, views, nodes, closed, i);
    }
  }

  /** What expanding `n` means for another node. */
  lemma StepFor<T>(f: Shape<T>, v: View<T>, w: View<T>, n: T, closed: bool, m: T)
    requires IsForest(f) && n in f.nodes && Displayed(f, v) && Expands(f, v, w, n, closed) && m in f.nodes && m != n
    ensures Steady(v, m) ==> Steady(w, m)
    ensures closed && !Steady(v, m) ==> !Steady(w, m)
    ensures !closed && m in v.expanded ==> m in w.expanded
    ensures closed && m !in v.initialized && m in w.initialized ==> m in w.shown
  {
    ExpandKeepsDisplayed(f, v, w, n, closed);
    assert StartsAt(v, w, closed, m);
    assert DisplayedAt(f, w, f.nodes, m);
  }

  lemma StepItself<T>(f: Shape<T>, v: View<T>, w: View<T>, n: T, closed: bool)
    requires IsForest(f) && n in f.nodes && Displayed(f, v) && Expands(f, v, w, n, closed)
    ensures Displayed(f, w) && n in w.expanded && v.initialized <= w.initialized
    ensures n in v.initialized ==> Steady(w, n)
    ensures n !in v.initialized ==> n !in v.shown && n !in w.initialized
  {
    ExpandKeepsDisplayed(f, v, w, n, closed);
    assert DisplayedAt(f, v, f.nodes, n);
  }

  /** Rows below a row that is not steady are hidden. */
  lemma HiddenBelow<T>(f: Shape<T>, v: View<T>, m: T, a: T)
    requires IsForest(f) && Displayed(f, v) && m in f.nodes && a in f.nodes && a != m && Below(f.parent, m, a)
    requires !Steady(v, a)
    ensures m !in v.shown
  {
    assert DisplayedAt(f, v, f.nodes, m) && DisplayedAt(f, v, f.nodes, a);
    if m in v.shown {
      forall b | b in f.nodes && b != a && Below(f.parent, a, b) ensures b in v.expanded {
        BelowTransitive(f.parent, m, a, b);
        if b == m { BelowAntisymmetric(f.parent, m, a); }
      }
    }
  }

  lemma AboveHasKids<T>(f: Shape<T>, m: T, a: T)
    requires IsForest(f) && m in f.nodes && a in f.nodes && a != m && Below(f.parent, m, a)
    ensures f.kids[a] != []
  {
    BranchSplits(f, a, m);
  }

  /** In order, every node with children is steady once it has been expanded. */
  lemma {:induction false} OpensInOrder<T>(f: Shape<T>, views: seq<View<T>>, nodes: seq<T>, i: nat)
    requires IsForest(f) && Expanding(f, views, nodes, true) && UnfoldsInOrder(f, views[0], nodes) && i < |views|
    ensures Displayed(f, views[i]) && views[0].initialized <= views[i].initialized
    ensures forall m | m in f.nodes && Steady(views[0], m) :: Steady(views[i], m)
    ensures forall j | 0 <= j < i && nodes[j] in f.nodes && f.kids[nodes[j]] != [] :: Steady(views[i], nodes[j])
  {
    hide Expands, StepOf, Displayed, UnfoldsInOrder, Below;
    if i > 0 {
      OpensInOrder(f, views, nodes, i - 1);
      StepAt(f, views, nodes, true, i - 1);
      var v, w, n := views[i - 1], views[i], nodes[i - 1];
      StepItself(f, v, w, n, true);
      if f.kids[n] != [] && n !in v.initialized { SteadyAbove(f, views, nodes, i - 1); }
      forall m | m in f.nodes && m != n && Steady(v, m) ensures Steady(w, m) {
        StepFor(f, v, w, n, true, m);
      }
    }
  }

  /** In order, a node with children that was never shown is visible by its turn, so it has been shown. */
  lemma SteadyAbove<T>(f: Shape<T>, views: seq<View<T>>, nodes: seq<T>, i: nat)
    requires IsForest(f) && i < |views| && i < |nodes| && nodes[i] in f.nodes && UnfoldsInOrder(f, views[0], nodes)
    requires Displayed(f, views[i]) && nodes[i] !in views[0].initialized && f.kids[nodes[i]] != []
    requires forall m | m in f.nodes && Steady(views[0], m) :: Steady(views[i], m)
    requires forall j | 0 <= j < i && nodes[j] in f.nodes && f.kids[nodes[j]] != [] :: Steady(views[i], nodes[j])
    ensures nodes[i] in views[i].initialized
  {
    var n := nodes[i];
    forall a | a in f.nodes && a != n && Below(f.parent, n, a) ensures a in views[i].expanded {
      assert !OutOfOrder(f, views[0], nodes, i, a);
      AboveHasKids(f, n, a);
      if !Steady(views[0], a) {
        var j :| 0 <= j < i && nodes[j] == a;
      }
    }
    OpenIsShown(f, views[i], n);
  }

  /**
   * `m` is uninitialized before its turn and not steady after it, and `a` above it is not steady before its own turn.
   */
  ghost predicate Late<T>(v: View<T>, m: T, a: T, mDone: bool, aDone: bool) {
    (!aDone ==> !Steady(v, a)) && if mDone then !Steady(v, m) else m !in v.initialized
  }

  lemma LateStep<T>(f: Shape<T>, v: View<T>, w: View<T>, n: T, m: T, a: T, mDone: bool, aDone: bool)
    requires IsForest(f) && n in f.nodes && Displayed(f, v) && Expands(f, v, w, n, true)
    requires m in f.nodes && a in f.nodes && a != m && Below(f.parent, m, a)
    requires Late(v, m, a, mDone, aDone) && (n == m ==> !mDone) && (!mDone ==> !aDone && n != a)
    ensures Displayed(f, w) && Late(w, m, a, mDone || n == m, aDone || n == a)
  {
    StepItself(f, v, w, n, true);
    if n != a { StepFor(f, v, w, n, true, a); }
    if n != m {
      StepFor(f, v, w, n, true, m);
      if !mDone { HiddenBelow(f, w, m, a); }
    }
  }

  /** Out of order, a node is not shown before its turn, and not steady after it. */
  lemma {:induction false} LateStaysClosed<T>(f: Shape<T>, views: seq<View<T>>, nodes: seq<T>, k: nat, a: T, i: nat)
    requires IsForest(f) && Expanding(f, views, nodes, true) && i < |views| <= |nodes| + 1 && k < |nodes|
    requires OutOfOrder(f, views[0], nodes, k, a)
    ensures Displayed(f, views[i]) && Late(views[i], nodes[k], a, i > k, a in nodes[..i])
  {
    hide *;
    LateStart(f, views, nodes, k, a);
    if i > 0 {
      LateStaysClosed(f, views, nodes, k, a, i - 1);
      StepAt(f, views, nodes, true, i - 1);
      LateTurn(nodes, k, a, i);
      LateStep(f, views[i - 1], views[i], nodes[i - 1], nodes[k], a, i - 1 > k, a in nodes[..i - 1]);
    }
  }

  lemma StepAt<T>(f: Shape<T>, views: seq<View<T>>, nodes: seq<T>, closed: bool, i: nat)
    requires IsForest(f) && Expanding(f, views, nodes, closed) && i + 1 < |views|
    ensures i < |nodes| && nodes[i] in f.nodes && Expands(f, views[i], views[i + 1], nodes[i], closed)
  {
    assert StepOf(f, views, nodes, closed, i);
  }

  lemma LateStart<T>(f: Shape<T>, views: seq<View<T>>, nodes: seq<T>, k: nat, a: T)
    requires IsForest(f) && Expanding(f, views, nodes, true) && k < |nodes| && OutOfOrder(f, views[0], nodes, k, a)
    ensures Displayed(f, views[0]) && Late(views[0], nodes[k], a, false, a in nodes[..0]) && NoDup(nodes)
    ensures nodes[k] in f.nodes && a in f.nodes && a != nodes[k] && Below(f.parent, nodes[k], a) && a !in nodes[..k]
    ensures f.kids[nodes[k]] != []
  {
  }

  lemma LateTurn<T>(nodes: seq<T>, k: nat, a: T, i: nat)
    requires NoDup(nodes) && k < |nodes| && 0 < i <= |nodes| && a !in nodes[..k] && a != nodes[k]
    ensures nodes[i - 1] == nodes[k] <==> i - 1 == k
    ensures i - 1 <= k ==> a !in nodes[..i - 1] && a != nodes[i - 1]
    ensures a in nodes[..i] <==> a in nodes[..i - 1] || nodes[i - 1] == a
  {
    assert nodes[..i] == nodes[..i - 1] + [nodes[i - 1]];
    if i - 1 <= k { assert nodes[..k][..i - 1] == nodes[..i - 1]; }
    assert i - 1 < k ==> nodes[i - 1] in nodes[..k] by { if i - 1 < k { assert nodes[..k][i - 1] == nodes[i - 1]; } }
  }

  /** Otherwise every row keeps the class it is given. */
  lemma {:induction false} OpensUnlessClosed<T>(f: Shape<T>, views: seq<View<T>>, nodes: seq<T>, i: nat)
    requires IsForest(f) && Expanding(f, views, nodes, false) && i < |views|
    ensures Displayed(f, views[i]) && forall j | 0 <= j < i :: nodes[j] in views[i].expanded
  {
    hide Expands, StepOf, Displayed, IsForest;
    if i > 0 {
      OpensUnlessClosed(f, views, nodes, i - 1);
      StepAt(f, views, nodes, false, i - 1);
      var v, w, n := views[i - 1], views[i], nodes[i - 1];
      StepItself(f, v, w, n, false);
      forall j | 0 <= j < i - 1 ensures nodes[j] in w.expanded {
        NodeOf(f, nodes, j);
        StepFor(f, v, w, n, false, nodes[j]);
      }
    }
  }

  /** After expanding out of order, the children of the node that came too early are hidden. */
  lemma HiddenAtTheEnd<T>(f: Shape<T>, views: seq<View<T>>, nodes: seq<T>, k: nat, a: T, c: T)
    requires IsForest(f) && Expanding(f, views, nodes, true) && |views| == |nodes| + 1
    requires k < |nodes| && OutOfOrder(f, views[0], nodes, k, a) && c in f.kids[nodes[k]]
    ensures c in f.nodes && Displayed(f, views[|nodes|]) && c !in views[|nodes|].shown
  {
    hide *;
    LateStart(f, views, nodes, k, a);
    LateStaysClosed(f, views, nodes, k, a, |nodes|);
    LateIsNotSteady(views[|nodes|], nodes[k], a, a in nodes[..|nodes|]);
    KidBelow(f, nodes[k], c);
    HiddenBelow(f, views[|nodes|], c, nodes[k]);
  }

  lemma LateIsNotSteady<T>(v: View<T>, m: T, a: T, aDone: bool)
    requires Late(v, m, a, true, aDone)
    ensures !Steady(v, m)
  {
  }

  lemma KidBelow<T>(f: Shape<T>, n: T, c: T)
    requires IsForest(f) && n in f.nodes && c in f.kids[n]
    ensures c in f.nodes && c != n && Below(f.parent, c, n)
  {
    ChildBranch(f, n, c);
    BelowParent(f.parent, c);
    NoSelfParent(f, c);
  }

  /**
   * Expanding all nodes of a displayed table leaves every row visible exactly if rows do not start collapsed, or every
   * uninitialized node with children is listed after each of its proper ancestors that is not both initialized and
   * expanded.
   */
  lemma ExpandAllShowsIff<T>(f: Shape<T>, views: seq<View<T>>, nodes: seq<T>, closed: bool)
    requires IsForest(f) && Expanding(f, views, nodes, closed) && |views| == |nodes| + 1
    ensures Displayed(f, views[|nodes|])
    ensures f.nodes <= views[|nodes|].shown <==> !closed || UnfoldsInOrder(f, views[0], nodes)
  {
    var last := views[|nodes|];
    if closed && !UnfoldsInOrder(f, views[0], nodes) {
      var k, a :| a in f.nodes && OutOfOrder(f, views[0], nodes, k, a);
      HiddenAtTheEnd(f, views, nodes, k, a, f.kids[nodes[k]][0]);
    } else {
      if closed { OpensInOrder(f, views, nodes, |nodes|); } else { OpensUnlessClosed(f, views, nodes, |nodes|); }
      forall m | m in f.nodes ensures m in last.shown {
        forall a | a in f.nodes && a != m && Below(f.parent, m, a) ensures a in last.expanded {
          AboveHasKids(f, m, a);
          assert a in Elements(nodes);
          var j :| 0 <= j < |nodes| && nodes[j] == a;
        }
        OpenIsShown(f, last, m);
      }
    }
  }

  /** With parents listed before their children, as loading leaves them, all rows are in order, and end up expanded. */
  lemma ParentsFirstUnfolds<T>(f: Shape<T>, views: seq<View<T>>, nodes: seq<T>, closed: bool)
    requires IsForest(f) && Expanding(f, views, nodes, closed) && |views| == |nodes| + 1
    requires ParentsFirst(f.parent, nodes)
    ensures UnfoldsInOrder(f, views[0], nodes) && f.nodes <= views[|nodes|].expanded
  {
    forall i, a | a in f.nodes ensures !OutOfOrder(f, views[0], nodes, i, a) {
      if OutOfOrder(f, views[0], nodes, i, a) {
        var k: nat :| Climb(f.parent, nodes[i], k) == Some(a);
        AncestorsFirst(f.parent, nodes, i, k);
      }
    }
    AllOpenedBy(f, views, nodes, closed, |nodes|);
    AllOpenEnd(f, views[|nodes|], nodes);
  }

  lemma {:induction false} AllOpenedBy<T>(f: Shape<T>, views: seq<View<T>>, nodes: seq<T>, closed: bool, i: nat)
    requires IsForest(f) && Expanding(f, views, nodes, closed) && ParentsFirst(f.parent, nodes) && i < |views|
    ensures Displayed(f, views[i]) && AllOpen(f, views[i], nodes, i)
  {
    hide Expands, StepOf, Displayed, IsForest, ParentsFirst;
    if i > 0 {
      AllOpenedBy(f, views, nodes, closed, i - 1);
      StepAt(f, views, nodes, closed, i - 1);
      AllOpenStep(f, views[i - 1], views[i], nodes, i - 1, closed);
    }
  }

  // --- A table that stays partly closed ---

  /** `y` below `x` below `first`, and `second` without children. */
  ghost function ThreeInARow<T>(first: T, x: T, y: T, second: T): Shape<T> {
    Shape({first, x, y, second}, map[x := first, y := x], map[first := [x], x := [y], y := [], second := []])
  }

  lemma {:induction false} ThreeIsForest<T>(first: T, x: T, y: T, second: T)
    requires NoDup([first, x, y, second])
    ensures IsForest(ThreeInARow(first, x, y, second)) && MayMove(ThreeInARow(first, x, y, second), x, second)
    ensures var g := MoveShape(ThreeInARow(first, x, y, second), x, second);
            g.nodes == {first, x, y, second} && g.parent == map[x := second, y := x] && g.kids[x] == [y]
  {
    var f := ThreeInARow(first, x, y, second);
    var rows := [first, x, y, second];
    assert rows[0] != rows[1] && rows[0] != rows[2] && rows[0] != rows[3];
    assert rows[1] != rows[2] && rows[1] != rows[3] && rows[2] != rows[3];
    assert Climb(f.parent, first, 1).None? && Climb(f.parent, x, 2).None?;
    assert Climb(f.parent, y, 3).None? && Climb(f.parent, second, 1).None?;
    if Below(f.parent, second, x) { OnlySelfAboveRoot(f, second, x); }
  }

  /**
   * Loaded as `first`, `x`, `y`, `second`, rendered with collapsed rows, and `x` moved below `second`: then `x` comes
   * before its new parent, and expanding all rows leaves `y` hidden.
   */
  lemma MovedRowStaysClosed<T>(first: T, x: T, y: T, second: T, views: seq<View<T>>)
    requires NoDup([first, x, y, second])
    ensures IsForest(ThreeInARow(first, x, y, second)) && MayMove(ThreeInARow(first, x, y, second), x, second)
    ensures var f := ThreeInARow(first, x, y, second);
            var rendered := View({}, {first, second}, {first, second}, {first, second});
            var g := MoveShape(f, x, second);
            && Displayed(f, rendered) && IsForest(g) && Displayed(g, rendered)
            && (|views| == 5 && views[0] == rendered && Expanding(g, views, [first, x, y, second], true) ==>
                  y !in views[4].shown)
  {
    var f, nodes := ThreeInARow(first, x, y, second), [first, x, y, second];
    var rendered := View({}, {first, second}, {first, second}, {first, second});
    ThreeIsForest(first, x, y, second);
    MoveKeepsForest(f, x, second);
    var g := MoveShape(f, x, second);
    FirstRendering(f, first, x, y, second, first);
    FirstRendering(g, first, x, y, second, second);
    hide *;
    if |views| == 5 && views[0] == rendered && Expanding(g, views, nodes, true) {
      TooEarly(g, rendered, first, x, y, second);
      OneKid(x, y);
      HiddenAtTheEnd(g, views, nodes, 1, second, y);
    }
  }

  lemma OneKid<T>(x: T, y: T)
    ensures y in [y]
  {
  }

  lemma FirstRendering<T>(f: Shape<T>, first: T, x: T, y: T, second: T, above: T)
    requires NoDup([first, x, y, second]) && (above == first || above == second)
    requires f.nodes == {first, x, y, second} && f.parent == map[x := above, y := x]
    ensures Displayed(f, View({}, {first, second}, {first, second}, {first, second}))
  {
    var v := View({}, {first, second}, {first, second}, {first, second});
    var rows := [first, x, y, second];
    assert rows[0] != rows[1] && rows[0] != rows[2] && rows[1] != rows[2] && rows[1] != rows[3] && rows[2] != rows[3];
    BelowParent(f.parent, x);
    BelowParent(f.parent, y);
    forall m | m in f.nodes ensures DisplayedAt(f, v, f.nodes, m) {
      if m == first || m == second {
        forall a | a in f.nodes && Below(f.parent, m, a) ensures a == m { OnlySelfAboveRoot(f, m, a); }
      }
    }
  }

  lemma TooEarly<T>(g: Shape<T>, v: View<T>, first: T, x: T, y: T, second: T)
    requires NoDup([first, x, y, second]) && IsForest(g)
    requires v == View({}, {first, second}, {first, second}, {first, second})
    requires g.nodes == {first, x, y, second} && g.parent == map[x := second, y := x] && g.kids[x] == [y]
    ensures OutOfOrder(g, v, [first, x, y, second], 1, second)
  {
    var rows := [first, x, y, second];
    assert rows[0] != rows[1] && rows[0] != rows[3] && rows[1] != rows[2] && rows[1] != rows[3];
    assert rows[..1] == [first] && g.parent[x] == second;
    BelowParent(g.parent, x);
  }
}
