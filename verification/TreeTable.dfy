/** The tree table: nodes with parent ids and children, the table of nodes by id, and the row order. */
module TreeTable {
  import opened Wrappers
  import opened Forest
  import opened ForestChange
  import opened RowLayout
  import opened RowBlocks
  import opened RowMoves
  import opened RowPreorder
  import opened LoadOrder
  import opened Visibility
  import opened ExpandOrder

  /** The attributes of a table row. Rows without an id are not nodes; an empty parent id is none. */
  datatype Row = Row(id: Option<string>, parentId: Option<string>)

  function RowParent(row: Row): Option<string> {
    if row.parentId == Some("") then None else row.parentId
  }

  /** The rows with an id, in order. */
  function NodeRows(data: seq<Row>): (r: seq<Row>)
    ensures forall row | row in r :: row.id.Some?
  {
    if data == [] then []
    else NodeRows(data[..|data| - 1]) + if data[|data| - 1].id.Some? then data[|data| - 1..] else []
  }

  lemma NodeRowsLast(data: seq<Row>, row: Row)
    ensures NodeRows(data + [row]) == NodeRows(data) + if row.id.Some? then [row] else []
  {
    assert (data + [row])[..|data|] == data && (data + [row])[|data|..] == [row];
  }

  /** Rows without an id are passed over, and all others stay in order. */
  lemma {:induction false} NodeRowsInParts(a: seq<Row>, b: seq<Row>, row: Row)
    ensures NodeRows(a + b) == NodeRows(a) + NodeRows(b)
    ensures NodeRows([row]) == if row.id.Some? then [row] else []
    decreases |b|
  {
    NodeRowsLast([], row);
    assert [] + [row] == [row];
    if b == [] {
      assert a + b == a;
    } else {
      var front, last := b[..|b| - 1], b[|b| - 1];
      NodeRowsInParts(a, front, row);
      assert b == front + [last];
      OneRowMore(a, front, last);
    }
  }

  lemma OneRowMore(a: seq<Row>, front: seq<Row>, last: Row)
    requires NodeRows(a + front) == NodeRows(a) + NodeRows(front)
    ensures NodeRows(a + (front + [last])) == NodeRows(a) + NodeRows(front + [last])
  {
    NodeRowsLast(front, last);
    NodeRowsLast(a + front, last);
    hide *;
    assert a + front + [last] == a + (front + [last]);
    Associative(NodeRows(a), NodeRows(front), if last.id.Some? then [last] else []);
  }

  lemma Associative<T>(a: seq<T>, b: seq<T>, c: seq<T>)
    ensures a + b + c == a + (b + c)
  {
  }

  function NamedBy(row: Row): set<string> {
    if RowParent(row).Some? then {RowParent(row).value} else {}
  }

  function IdsOf(data: seq<Row>): set<string> {
    set row | row in data && row.id.Some? :: row.id.value
  }

  /** The parents that the rows name. */
  function NamedIn(data: seq<Row>): set<string> {
    set row | row in data && row.id.Some? && RowParent(row).Some? :: RowParent(row).value
  }

  /** Ids are new, and no row names itself as its parent. Whether the parents are known does not matter. */
  ghost predicate NewIds(data: seq<Row>, known: set<string>) {
    forall i | 0 <= i < |data| && data[i].id.Some? ::
      data[i].id.value !in known + IdsOf(data[..i]) && RowParent(data[i]) != data[i].id
  }

  /** No row has been named as a parent before its turn, be it by `named` or by an earlier row. */
  ghost predicate NamesNoLater(data: seq<Row>, named: set<string>) {
    forall i | 0 <= i < |data| && data[i].id.Some? :: data[i].id.value !in named + NamedIn(data[..i])
  }

  class Node {
    const id: string
    var parentId: Option<string>
    var children: seq<Node>
    var initialized: bool

    constructor (id: string, row: Row)
      ensures this.id == id && parentId == RowParent(row) && children == [] && !initialized
      ensures row.parentId in [None, Some("")] ==> parentId == None
      ensures row.parentId !in [None, Some("")] ==> parentId == row.parentId
    {
      this.id, this.parentId, children, initialized := id, RowParent(row), [], false;
    }

    method AddChild(child: Node)
      modifies this`children
      ensures children == old(children) + [child]
    {
      children := children + [child];
    }

    /** Removes the child from the list; for a node that is not in the list, the last entry goes instead. */
    method RemoveChild(child: Node)
      modifies this`children
      ensures child in old(children) ==> children == Without(old(children), child)
      ensures child !in old(children) && old(children) != [] ==> children == old(children)[..|old(children)| - 1]
    {
      var i := 0;
      while i < |children| && children[i] != child
        invariant i <= |children| && child !in children[..i]
      {
        i := i + 1;
      }
      if i < |children| {
        WithoutAt(children, child, i);
        children := children[..i] + children[i + 1..];
      } else if children != [] {
        children := children[..|children| - 1];
      }
    }
  }

  lemma NextChild<T>(s: seq<T>, i: nat)
    requires i < |s|
    ensures s[i] in s[i..]
  {
    assert s[i..][0] == s[i];
  }

  lemma {:induction false} WithoutAt<T>(s: seq<T>, x: T, i: nat)
    requires i < |s| && s[i] == x && x !in s[..i]
    ensures Without(s, x) == s[..i] + s[i + 1..]
  {
    if i > 0 {
      assert s[..i][0] == s[0];
      assert s[1..][..i - 1] == s[..i][1..];
      WithoutAt(s[1..], x, i - 1);
    }
  }

  /** The table by id, the list of nodes and the rows all hold exactly the nodes in `all`. */
  ghost predicate Registered(tree: map<string, Node>, nodes: seq<Node>, rows: seq<Node>, all: set<Node>) {
    && NoDup(nodes) && NoDup(rows) && Elements(rows) == Elements(nodes) == all
    && (forall n | n in all :: n.id in tree && tree[n.id] == n)
    && (forall id | id in tree :: tree[id] in all && tree[id].id == id)
  }

  /** A node names its parent; a node without a parent names none, or one that is not known. */
  ghost predicate LinkFits(f: Shape<Node>, known: set<string>, n: Node)
    reads n`parentId
  {
    if n in f.parent then n.parentId == Some(f.parent[n].id) else n.parentId.Some? ==> n.parentId.value !in known
  }

  ghost predicate FitsAt(f: Shape<Node>, known: set<string>, n: Node)
    reads n`parentId, n`children
  {
    n in f.kids && n.children == f.kids[n] && LinkFits(f, known, n)
  }

  /** The children lists and parent ids of the nodes are those of `f`. */
  ghost predicate Fits(f: Shape<Node>, known: set<string>)
    reads f.nodes`parentId, f.nodes`children
  {
    forall n | n in f.nodes :: FitsAt(f, known, n)
  }

  /** No node without a parent names one that is known. */
  ghost predicate Placed(f: Shape<Node>, known: set<string>)
    reads f.nodes`parentId
  {
    forall n | n in f.nodes && n !in f.parent :: n.parentId.Some? ==> n.parentId.value !in known
  }

  class Tree {
    var tree: map<string, Node>
    var nodes: seq<Node>
    var roots: seq<Node>
    /** The rows of the table in document order, each named by its node. */
    var rows: seq<Node>

    /** The rows with the class of an expanded row, with that of a collapsed row, and the rows not hidden. */
    var expandedRows: set<Node>
    var collapsedRows: set<Node>
    var shownRows: set<Node>

    const expandable: bool
    const initiallyCollapsed: bool

    /** The forest that the nodes make up. */
    ghost var shape: Shape<Node>

    /**
     * Ids name nodes uniquely, there is a row for each node, and the lists of children are those of a forest in which
     * every listed node names its parent.
     */
    ghost predicate Listed()
      reads `tree, `nodes, `rows, `shape, nodes`parentId, nodes`children
    {
      Registered(tree, nodes, rows, shape.nodes) && IsForest(shape) && Fits(shape, {})
    }

    /** And conversely every node that names a known parent is listed by it. */
    ghost predicate Valid()
      reads `tree, `nodes, `rows, `shape, nodes`parentId, nodes`children
    {
      Registered(tree, nodes, rows, shape.nodes) && IsForest(shape) && Fits(shape, tree.Keys)
    }

    /** The node names a parent that is not known. */
    predicate Stray(n: Node)
      reads `tree, n`parentId
    {
      n.parentId.Some? && n.parentId.value !in tree
    }

    ghost predicate NoStrays(part: set<Node>)
      reads `tree, part`parentId
    {
      forall n | n in part :: !Stray(n)
    }

    constructor (expandable: bool, initiallyCollapsed: bool)
      ensures Valid() && nodes == [] && roots == [] && rows == [] && tree == map[]
      ensures this.expandable == expandable && this.initiallyCollapsed == initiallyCollapsed
      ensures expandedRows == collapsedRows == shownRows == {}
    {
      this.expandable, this.initiallyCollapsed := expandable, initiallyCollapsed;
      tree, nodes, roots, rows := map[], [], [], [];
      expandedRows, collapsedRows, shownRows := {}, {}, {};
      shape := Shape({}, map[], map[]);
    }

    method ParentNode(n: Node) returns (p: Node?)
      requires Valid() && n in nodes
      ensures p == null <==> n !in shape.parent
      ensures p != null ==> p == shape.parent[n] && p in nodes
    {
      assert FitsAt(shape, tree.Keys, n);
      if n.parentId.Some? && n.parentId.value in tree {
        p := tree[n.parentId.value];
      } else {
        p := null;
      }
    }

    /** The loop over parents ends, and collects exactly the proper ancestors. */
    method Ancestors(n: Node) returns (ancestors: seq<Node>)
      requires Valid() && n in nodes
      ensures forall m | m in nodes :: m in ancestors <==> m != n && Below(shape.parent, n, m)
    {
      ghost var height := ClimbEnds(shape, n);
      ghost var k := 0;
      ancestors := [];
      var node := n;
      var p := ParentNode(node);
      while p != null
        invariant node in nodes && Climb(shape.parent, n, k) == Some(node) && k < height
        invariant p == null <==> node !in shape.parent
        invariant p != null ==> p == shape.parent[node] && p in nodes
        invariant ancestors == ClimbedTo(shape.parent, n, k)
        decreases height - k
      {
        ClimbOn(shape.parent, n, k, height);
        k := k + 1;
        ancestors := ancestors + [p];
        node := p;
        p := ParentNode(node);
      }
      forall m | m in nodes ensures m in ancestors <==> m != n && Below(shape.parent, n, m) {
        ClimbedAll(shape, n, k, m);
      }
    }

    /** Hangs `n` under `d`: the links change as in MoveShape. */
    method SetParent(n: Node, d: Node)
      requires Valid() && MayMove(shape, n, d) && !Stray(n)
      modifies this`shape, n`parentId, shape.nodes`children
      ensures Valid() && shape == MoveShape(old(shape), n, d)
    {
      hide *;
      ghost var f := shape;
      AllLinks();
      MovePossible(f, n, d);
      MoveKeepsForest(f, n, d);
      ValidIsLinked();
      Detach(n);
      n.parentId := Some(d.id);
      d.AddChild(n);
      shape := MoveShape(f, n, d);
      MoveFits(f, tree.Keys, n, d);
      ValidFrom();
    }

    /** Takes a node out of its parent's list of children. */
    method Detach(n: Node)
      requires Linked() && n in shape.nodes && !Stray(n)
      modifies shape.nodes`children
      ensures forall m | m in shape.nodes :: m in shape.kids && m.children == DetachedKids(shape, n, m)
    {
      hide *;
      LinkedNodes();
      ParentLink(n);
      StrayIs(n);
      DetachedAway(shape, n);
      if n.parentId.Some? {
        tree[n.parentId.value].RemoveChild(n);
      }
    }

    /** What links alone say: the nodes can be found by id, and their fields are those of a forest. */
    ghost predicate Linked()
      reads this, shape.nodes
    {
      IsForest(shape) && Fits(shape, tree.Keys) && forall m | m in shape.nodes :: m.id in tree && tree[m.id] == m
    }

    lemma LinkedNodes()
      requires Linked()
      ensures IsForest(shape) && shape.kids.Keys == shape.nodes
      ensures forall m | m in shape.nodes :: m.children == shape.kids[m]
    {
      forall m | m in shape.nodes ensures m.children == shape.kids[m] { assert FitsAt(shape, tree.Keys, m); }
    }

    lemma ParentLink(n: Node)
      requires Linked() && n in shape.nodes
      ensures n in shape.parent <==> n.parentId.Some? && n.parentId.value in tree
      ensures n in shape.parent ==>
                && n.parentId.Some? && n.parentId.value in tree && tree[n.parentId.value] == shape.parent[n]
                && shape.parent[n] in shape.nodes && n in shape.kids[shape.parent[n]]
    {
      assert FitsAt(shape, tree.Keys, n);
    }

    lemma StrayIs(n: Node)
      ensures Stray(n) <==> n.parentId.Some? && n.parentId.value !in tree
    {
    }

    /** Only a node without a parent can be a stray. */
    lemma NotStray(n: Node)
      requires Valid() && n in shape.nodes
      ensures !Stray(n) <==> (n.parentId.Some? ==> n in shape.parent)
    {
      LinksOf(n);
    }

    lemma ChildNotStray(n: Node, c: Node)
      requires Valid() && n in shape.nodes && n in shape.kids && c in shape.kids[n]
      ensures c in nodes && !Stray(c)
    {
      assert c in shape.parent && c in shape.nodes;
      LinksOf(c);
    }

    lemma ValidIsLinked()
      requires Valid()
      ensures Linked()
    {
    }

    lemma ValidFrom()
      requires Registered(tree, nodes, rows, shape.nodes) && IsForest(shape) && Fits(shape, tree.Keys)
      ensures Valid()
    {
    }

    lemma AllLinks()
      requires Valid()
      ensures Registered(tree, nodes, rows, shape.nodes) && IsForest(shape) && Fits(shape, tree.Keys)
      ensures shape.kids.Keys == shape.nodes && (forall m | m in shape.nodes :: m in nodes && m in rows)
      ensures forall m | m in shape.nodes :: m.children == shape.kids[m]
      ensures forall m | m in shape.nodes :: LinkFits(shape, tree.Keys, m)
    {
      forall m | m in shape.nodes
        ensures m in nodes && m in rows && m.children == shape.kids[m]
        ensures LinkFits(shape, tree.Keys, m)
      {
        assert m in Elements(nodes) && m in Elements(rows) && FitsAt(shape, tree.Keys, m);
      }
    }

    /** What validity says about one node. */
    lemma LinksOf(n: Node)
      requires Valid() && n in shape.nodes
      ensures n in nodes && FitsAt(shape, tree.Keys, n) && n.children == shape.kids[n]
      ensures n in shape.parent <==> n.parentId.Some? && n.parentId.value in tree
      ensures n in shape.parent ==>
                && n.parentId.Some? && n.parentId.value in tree && tree[n.parentId.value] == shape.parent[n]
                && shape.parent[n] in shape.nodes && n in shape.kids[shape.parent[n]]
    {
      assert FitsAt(shape, tree.Keys, n);
    }

    /** The row of `n` goes after the row of `d`; a row put after itself stays where it is. */
    method InsertRowAfter(n: Node, d: Node)
      requires NoDup(rows) && n in rows && d in rows
      modifies this`rows
      ensures rows == if n == d then old(rows) else InsertAfter(Remove(old(rows), {n}), d, [n])
    {
      if n != d {
        WithoutIsRemove(rows, n);
        rows := InsertAfter(Without(rows, n), d, [n]);
      }
    }

    /** The rows of a branch go after the row of `d`, or, for `d` itself, into the order of the children arrays. */
    method MoveRows(n: Node, d: Node, ghost f: Shape<Node>)
      requires IsForest(f) && n in f.nodes && d in f.nodes && (d == n || d !in Branch(f, n))
      requires forall m | m in f.nodes :: m.children == f.kids[m]
      requires NoDup(rows) && f.nodes <= Elements(rows)
      modifies this`rows
      ensures rows == if n == d then SortedRows(f, old(rows), n) else MovedRows(f, old(rows), n, d)
      ensures NoDup(rows) && Elements(rows) == Elements(old(rows))
      decreases Branch(f, n)
    {
      hide *;
      RowsOfNodes(f.nodes, rows);
      ghost var start := rows;
      var children := n.children;
      InsertRowAfter(n, d);
      var i := |children|;
      MovedSoFarStart(f, start, n, d);
      while i > 0
        invariant 0 <= i <= |children|
        invariant rows == MovedSoFar(f, start, n, d, i)
        invariant NoDup(rows) && Elements(rows) == Elements(start)
      {
        i := i - 1;
        ChildBranch(f, n, children[i]);
        MoveRows(children[i], n, f);
        MovedSoFarStep(f, start, n, d, i);
      }
      MovedSoFarEnd(f, start, n, d);
    }

    /**
     * Moves a branch unless that would put a node below itself or where it already is. Otherwise links and
     * rows stay as they are. The rows of every branch that were together stay together; rows that were in preorder
     * stay so exactly if the new parent had no children.
     */
    method Move(n: Node, d: Node)
      requires Valid() && n in nodes && d in nodes && (MayMove(shape, n, d) ==> !Stray(n))
      modifies this`rows, this`shape, n`parentId, shape.nodes`children
      ensures Valid()
      ensures if MayMove(old(shape), n, d)
              then shape == MoveShape(old(shape), n, d) && rows == MovedRows(old(shape), old(rows), n, d)
              else shape == old(shape) && rows == old(rows)
      ensures BlockLayout(old(shape), old(rows)) ==>
                BlockLayout(shape, rows) && multiset(rows) == multiset(old(rows))
      ensures MayMove(old(shape), n, d) && PreorderLayout(old(shape), old(rows)) ==>
                (PreorderLayout(shape, rows) <==> old(d.children) == [])
    {
      hide *;
      ghost var f, start := shape, rows;
      AllLinks();
      InNodes(n);
      InNodes(d);
      var above := Ancestors(d);
      MoveGuard(f, n, d);
      SameId(f, n, d);
      if n != d && n.parentId != Some(d.id) && n !in above {
        SetParent(n, d);
        MoveBranchRows(n, d, f);
        if BlockLayout(f, start) { MoveKeepsBlocks(f, start, n, d); }
        if PreorderLayout(f, start) { MoveKeepsPreorderIff(f, start, n, d); }
      }
    }

    /** The rows follow once the links have changed. */
    method MoveBranchRows(n: Node, d: Node, ghost before: Shape<Node>)
      requires Valid() && MayMove(before, n, d) && n in before.nodes && d in before.nodes
      requires shape == MoveShape(before, n, d)
      modifies this`rows
      ensures Valid() && rows == MovedRows(before, old(rows), n, d)
    {
      hide *;
      ghost var start := rows;
      AllLinks();
      MovedParts(before, n, d);
      MovedBranchRows(before, start, n, d);
      MoveRows(n, d, shape);
      RowsFromMove(tree, nodes, start, rows, shape.nodes);
      ValidFrom();
    }

    /**
     * Orders the children of a node by a sort, whose result is `sorted`, and the rows accordingly. In a block
     * layout this puts the branch's rows into preorder, where they were.
     */
    method SortBranch(n: Node, sorted: seq<Node>) returns (ghost before: seq<Node>, ghost after: seq<Node>)
      requires Valid() && n in nodes && multiset(sorted) == multiset(n.children)
      modifies this`rows, this`shape, n`children
      ensures Valid() && n in shape.nodes && shape == SortShape(old(shape), n, sorted)
      ensures rows == SortedRows(shape, old(rows), n)
      ensures BlockLayout(old(shape), old(rows)) ==>
                && BlockLayout(shape, rows) && multiset(rows) == multiset(old(rows))
                && rows == before + Preorder(shape, n) + after && SameAround(old(rows), rows, before, after)
    {
      hide *;
      ghost var f, start := shape, rows;
      InNodes(n);
      AllLinks();
      SortedKids(f, n, sorted);
      SetChildren(n, sorted);
      AllLinks();
      MoveRows(n, n, shape);
      RowsFromMove(tree, nodes, start, rows, shape.nodes);
      ValidFrom();
      before, after := SortedLayout(f, start, n, sorted);
    }

    method SetChildren(n: Node, sorted: seq<Node>)
      requires Valid() && n in shape.nodes && n in shape.kids && NoDup(sorted)
      requires Elements(sorted) == Elements(shape.kids[n])
      modifies this`shape, n`children
      ensures Valid() && shape == SortShape(old(shape), n, sorted) && n in shape.nodes
    {
      hide *;
      ghost var f := shape;
      AllLinks();
      SortKeepsForest(f, n, sorted);
      SortParts(f, n, sorted);
      n.children := sorted;
      shape := SortShape(f, n, sorted);
      SameLinks(f, shape, tree.Keys);
      FitsFromLinks();
      ValidFrom();
    }

    /**
     * Adds a node for every row with an id. The rows stand in the document already, from number `at` on. Every
     * node goes to the end of its parent's children, or to the roots if its parent is not known. Afterwards parent ids
     * and lists of children agree exactly if they did before and no row was named as a parent before its turn.
     */
    method LoadRows(data: seq<Row>, at: nat) returns (added: seq<Node>)
      requires Listed() && at <= |rows| && NewIds(data, tree.Keys)
      modifies this`tree, this`nodes, this`rows, this`roots, this`shape, this`shownRows, shape.nodes`children
      ensures Listed() && Extends(old(shape), shape, added)
      ensures Valid() <==> old(Valid()) && NamesNoLater(data, old(NamedParents(nodes)))
      ensures forall n | n in added :: fresh(n)
      ensures nodes == old(nodes) + added && rows == old(rows)[..at] + added + old(rows)[at..]
      ensures roots == old(roots) + Parentless(shape.parent, added)
      ensures AllLoadedFrom(added, NodeRows(data))
      ensures shownRows == old(shownRows) + Elements(added)
      ensures AreRoots(old(shape), old(roots)) ==> AreRoots(shape, roots)
      ensures ParentsFirst(old(shape).parent, old(nodes)) ==> ParentsFirst(shape.parent, nodes)
    {
      hide *;
      ghost var f, start, before := shape, Listing(nodes, rows, roots, shownRows), Naming();
      NodesListed();
      NamingIs();
      NoneLoaded();
      LoadStart(f, start, data, at);
      NamesStart(before);
      added := [];
      var i := 0;
      while i < |data|
        invariant 0 <= i <= |data| && Listed()
        invariant Named(before, Naming(), data[..i])
        invariant LoadedSoFar(f, start, shape, Listing(nodes, rows, roots, shownRows), added, at)
        invariant at + |added| <= |rows|
        invariant forall n | n in added :: fresh(n)
        invariant fresh(shape.nodes - f.nodes)
        invariant AllLoadedFrom(added, NodeRows(data[..i]))
      {
        ghost var names := Naming();
        NamingIs();
        NewIdsNext(data, i, before, names);
        NodeRowsNext(data, i);
        if data[i].id.Some? {
          ghost var g, now := shape, Listing(nodes, rows, roots, shownRows);
          var n, p := LoadRow(data[i], at + |added|);
          LoadStep(f, start, g, now, added, at, n, p);
          OneMoreLoaded(added, NodeRows(data[..i]), n, data[i]);
          added := added + [n];
        }
        NamingIs();
        NamesNext(data, i, before, names, Naming());
        i := i + 1;
      }
      LoadedParts(f, start, shape, Listing(nodes, rows, roots, shownRows), added, at);
      assert data[..|data|] == data;
      NamingIs();
      NamesEnd(before, Naming(), data);
    }

    ghost function Naming(): Names
      reads `tree, `nodes, `rows, `shape, nodes`parentId, nodes`children
    {
      Names(tree.Keys, NamedParents(nodes), Valid())
    }

    lemma NamingIs()
      ensures Naming() == Names(tree.Keys, NamedParents(nodes), Valid())
    {
    }

    /**
     * Removes a branch: exactly its nodes leave the table by id, the list of nodes and the rows. `roots` stays
     * as it is.
     */
    method RemoveNode(n: Node)
      requires Valid() && n in nodes && !Stray(n)
      modifies this`tree, this`nodes, this`rows, this`shape, this`expandedRows, this`collapsedRows, this`shownRows
      modifies shape.nodes`children
      ensures Valid() && n in old(shape).nodes && shape == RemoveShape(old(shape), n)
      ensures Lists() == LessLists(old(Lists()), Branch(old(shape), n))
      decreases Branch(shape, n), 1
    {
      hide *;
      ghost var f, lists := shape, Lists();
      InNodes(n);
      AllLinks();
      NotStray(n);
      UnloadBranch(n);
      UnloadEnd(f, n);
      StillNotStray(f, n);
      RemoveLeaf(n);
      LessTwice(lists, Branch(f, n) - {n}, {n});
      HeadAgain(f, n);
    }

    lemma StillNotStray(f: Shape<Node>, n: Node)
      requires IsForest(f) && n in f.nodes && n in f.kids && (n.parentId.Some? ==> n in f.parent)
      requires Valid() && n in shape.nodes && shape == UnloadedShape(f, n, |f.kids[n]|)
      ensures !Stray(n) && shape.nodes <= f.nodes
    {
      hide *;
      NotStray(n);
      UnloadedParts(f, n, |f.kids[n]|);
      BranchesUpTo(f, n, |f.kids[n]|);
    }

    /** The part of the removal that follows once the children are gone. */
    method RemoveLeaf(n: Node)
      requires Valid() && n in nodes && Branch(shape, n) == {n} && !Stray(n)
      modifies this`tree, this`nodes, this`rows, this`shape, this`expandedRows, this`collapsedRows, this`shownRows
      modifies shape.nodes`children
      ensures Valid() && n in old(shape).nodes && shape == RemoveShape(old(shape), n)
      ensures Lists() == LessLists(old(Lists()), {n})
    {
      hide *;
      ghost var f, tree0, nodes0, rows0, lists := shape, tree, nodes, rows, Lists();
      InNodes(n);
      AllLinks();
      AreLists();
      ListsDistinct();
      RemoveKeepsForest(f, n);
      RemovedRegistered(tree0, nodes0, rows0, f, n);
      RemoveRow(n);
      StillLinked(rows0);
      Detach(n);
      tree := tree - {n.id};
      nodes := Without(nodes, n);
      shape := RemoveShape(f, n);
      RemovedFits(f, tree0, n);
      LessOne(lists, n);
      AreLists();
      ValidFrom();
    }

    method RemoveRow(n: Node)
      modifies this`rows, this`expandedRows, this`collapsedRows, this`shownRows
      ensures rows == Without(old(rows), n) && expandedRows == old(expandedRows) - {n}
      ensures collapsedRows == old(collapsedRows) - {n} && shownRows == old(shownRows) - {n}
    {
      rows := Without(rows, n);
      expandedRows, collapsedRows, shownRows := expandedRows - {n}, collapsedRows - {n}, shownRows - {n};
    }

    /** Removes the branches of the children one after the other. */
    method UnloadBranch(n: Node)
      requires Valid() && n in nodes
      modifies this`tree, this`nodes, this`rows, this`shape, this`expandedRows, this`collapsedRows, this`shownRows
      modifies shape.nodes`children
      ensures Valid() && n in old(shape).nodes && n in nodes
      ensures shape == UnloadedShape(old(shape), n, |old(shape).kids[n]|)
      ensures Lists() == LessLists(old(Lists()), Branch(old(shape), n) - {n})
      decreases Branch(shape, n), 0
    {
      hide *;
      ghost var f, lists := shape, Lists();
      InNodes(n);
      AllLinks();
      UnloadedStart(f, n);
      LessNone(lists);
      var children := n.children;
      var i := 0;
      while i < |children|
        invariant 0 <= i <= |children|
        invariant Valid() && shape == UnloadedShape(f, n, i)
        invariant Lists() == LessLists(lists, Branches(f, children[..i]))
      {
        UnloadStep(f, n, i);
        UnloadNext(f, n, i);
        BranchesUpTo(f, n, i);
        ChildBranch(f, n, children[i]);
        AllLinks();
        UnloadedParts(f, n, i);
        LessTwice(lists, Branches(f, children[..i]), Branch(f, children[i]));
        NextChild(f.kids[n], i);
        ChildNotStray(n, children[i]);
        RemoveNode(children[i]);
        i := i + 1;
      }
      BranchesUpTo(f, n, i);
      UnloadEnd(f, n);
      UnloadedParts(f, n, i);
      ResetChildren(n);
    }

    /** By now the children have taken themselves out of the list one by one. */
    method ResetChildren(n: Node)
      requires Valid() && n in shape.nodes && n in shape.kids && shape.kids[n] == []
      modifies n`children
      ensures Valid() && n in nodes
    {
      hide *;
      AllLinks();
      n.children := [];
      FitsFromLinks();
      ValidFrom();
    }

    ghost function Lists(): Content<Node>
      reads `nodes, `rows, `expandedRows, `collapsedRows, `shownRows
    {
      Content(nodes, rows, expandedRows, collapsedRows, shownRows)
    }

    lemma AreLists()
      ensures Lists() == Content(nodes, rows, expandedRows, collapsedRows, shownRows)
    {
    }

    lemma StillLinked(before: seq<Node>)
      requires IsForest(shape) && Fits(shape, tree.Keys) && Registered(tree, nodes, before, shape.nodes)
      ensures Linked()
    {
    }

    lemma ListsDistinct()
      requires Valid()
      ensures NoDup(nodes) && NoDup(rows)
    {
    }

    lemma FitsFromLinks()
      requires shape.kids.Keys == shape.nodes
      requires forall m | m in shape.nodes :: m.children == shape.kids[m]
      requires forall m | m in shape.nodes :: LinkFits(shape, tree.Keys, m)
      ensures Fits(shape, tree.Keys)
    {
      forall m | m in shape.nodes ensures FitsAt(shape, tree.Keys, m) {}
    }

    /**
     * A row whose parent is not known is hung under the roots, and goes on naming that parent. Parent ids and lists of
     * children agree afterwards exactly if they did before and no node had named the new one.
     */
    method LoadRow(row: Row, position: nat) returns (n: Node, ghost p: Option<Node>)
      requires Listed() && position <= |rows|
      requires row.id.Some? && row.id.value !in tree && RowParent(row) != row.id
      modifies this`tree, this`nodes, this`rows, this`roots, this`shape, this`shownRows, shape.nodes`children
      ensures fresh(n) && n !in old(shape).nodes && LoadedFrom(n, row)
      ensures p.Some? ==> p.value in old(shape).nodes
      ensures p.Some? <==> RowParent(row).Some? && RowParent(row).value in old(tree)
      ensures p.Some? ==> p.value == old(tree)[RowParent(row).value]
      ensures Listed() && IsForest(old(shape)) && shape == AddShape(old(shape), n, p)
      ensures NamedParents(nodes) == old(NamedParents(nodes)) + NamedBy(row)
      ensures Valid() <==> old(Valid()) && row.id.value !in old(NamedParents(nodes))
      ensures shape.nodes == old(shape).nodes + {n} && Elements(old(nodes)) == old(shape).nodes
      ensures tree == old(tree)[row.id.value := n] && tree.Keys == old(tree).Keys + {row.id.value}
      ensures nodes == old(nodes) + [n]
      ensures rows == old(rows)[..position] + [n] + old(rows)[position..]
      ensures roots == old(roots) + if p.Some? then [] else [n]
      ensures shownRows == old(shownRows) + {n}
    {
      hide *;
      ghost var f, tree0, nodes0, rows0 := shape, tree, nodes, rows;
      NodesListed();
      ValidIs();
      n, p := AddNode(row);
      InsertRow(n, position);
      LoadedListed(f, tree0, nodes0, rows0, n, p, position);
      ValidIs();
    }

    /** What loading a row changes besides the rows of the table. */
    method AddNode(row: Row) returns (n: Node, ghost p: Option<Node>)
      requires Registered(tree, nodes, rows, shape.nodes) && IsForest(shape) && Fits(shape, {})
      requires row.id.Some? && row.id.value !in tree && RowParent(row) != row.id
      modifies this`tree, this`nodes, this`roots, this`shape, shape.nodes`children
      ensures fresh(n) && n !in old(shape).nodes && LoadedFrom(n, row) && n.id == row.id.value
      ensures p.Some? ==> p.value in old(shape).nodes
      ensures p.Some? <==> RowParent(row).Some? && RowParent(row).value in old(tree)
      ensures p.Some? ==> p.value == old(tree)[RowParent(row).value]
      ensures IsForest(old(shape)) && shape == AddShape(old(shape), n, p) && Fits(shape, {})
      ensures NamedParents(nodes) == old(NamedParents(nodes)) + NamedBy(row)
      ensures Placed(shape, tree.Keys) <==>
                old(Placed(shape, tree.Keys)) && row.id.value !in old(NamedParents(nodes))
      ensures tree == old(tree)[n.id := n] && tree.Keys == old(tree).Keys + {n.id}
      ensures nodes == old(nodes) + [n] && roots == old(roots) + if p.Some? then [] else [n]
    {
      hide *;
      ghost var f, tree0, nodes0, rows0 := shape, tree, nodes, rows;
      FitsParentIds(f, {});
      n := new Node(row.id.value, row);
      nodes := nodes + [n];
      tree := tree[n.id := n];
      OneMoreKey(tree0, n);
      ParentFound(tree0, nodes0, rows0, f, row, n);
      LoadedFromRow(n, row);
      p := Attach(n);
      NamedMore(nodes0, row, n);
      PlacedStep(f, tree0, nodes0, rows0, row, n, p);
    }

    lemma ValidIs()
      ensures Valid() <==> Listed() && Placed(shape, tree.Keys)
    {
      if Listed() && Placed(shape, tree.Keys) {
        forall m | m in shape.nodes ensures FitsAt(shape, tree.Keys, m) { assert FitsAt(shape, {}, m); }
      }
      if Valid() {
        forall m | m in shape.nodes ensures FitsAt(shape, {}, m) { assert FitsAt(shape, tree.Keys, m); }
        forall m | m in shape.nodes && m !in shape.parent ensures m.parentId.Some? ==> m.parentId.value !in tree.Keys {
          assert FitsAt(shape, tree.Keys, m);
        }
      }
    }

    lemma NodesListed()
      requires Listed()
      ensures Elements(nodes) == shape.nodes && IsForest(shape) && Fits(shape, {})
      ensures Registered(tree, nodes, rows, shape.nodes)
    {
    }

    lemma LoadedListed(f: Shape<Node>, tree0: map<string, Node>, nodes0: seq<Node>, rows0: seq<Node>,
                       n: Node, p: Option<Node>, position: nat)
      requires IsForest(f) && Registered(tree0, nodes0, rows0, f.nodes) && n !in f.nodes && n.id !in tree0
      requires p.Some? ==> p.value in f.nodes
      requires position <= |rows0| && shape == AddShape(f, n, p) && Fits(shape, {})
      requires tree == tree0[n.id := n] && nodes == nodes0 + [n] && rows == rows0[..position] + [n] + rows0[position..]
      ensures Listed() && shape.nodes == f.nodes + {n}
    {
      hide *;
      AddKeepsForest(f, n, p);
      RegisteredWith(tree0, nodes0, rows0, f.nodes, n, position);
      AddedNodes(f, n, p);
      ListedFrom();
    }

    lemma ListedFrom()
      requires Registered(tree, nodes, rows, shape.nodes) && IsForest(shape) && Fits(shape, {})
      ensures Listed()
    {
    }

    method InsertRow(n: Node, position: nat)
      requires position <= |rows|
      modifies this`rows, this`shownRows
      ensures rows == old(rows)[..position] + [n] + old(rows)[position..] && shownRows == old(shownRows) + {n}
    {
      rows := rows[..position] + [n] + rows[position..];
      shownRows := shownRows + {n};
    }

    /** Hangs a new node under its parent if it names one that is known, and under the roots otherwise. */
    method Attach(n: Node) returns (ghost p: Option<Node>)
      requires n !in shape.nodes && IsForest(shape) && Fits(shape, {}) && n.children == []
      requires n.parentId.Some? && n.parentId.value in tree ==>
                 tree[n.parentId.value] in shape.nodes && tree[n.parentId.value].id == n.parentId.value
      modifies this`roots, this`shape, shape.nodes`children
      ensures p.Some? ==> p.value in old(shape).nodes
      ensures p.Some? <==> n.parentId.Some? && n.parentId.value in tree
      ensures p.Some? ==> p.value == tree[n.parentId.value]
      ensures roots == old(roots) + if p.Some? then [] else [n]
      ensures IsForest(old(shape)) && shape == AddShape(old(shape), n, p) && Fits(shape, {})
      ensures shape.nodes == old(shape).nodes + {n}
    {
      hide *;
      KidsOfFit(shape, {});
      FitsParentIds(shape, {});
      p := None;
      if n.parentId.Some? && n.parentId.value in tree {
        p := Some(tree[n.parentId.value]);
        tree[n.parentId.value].AddChild(n);
      } else {
        roots := roots + [n];
      }
      AddedFits(shape, {}, n, p);
      AddedNodes(shape, n, p);
      shape := AddShape(shape, n, p);
    }

    // --- Visibility ---

    ghost function Seen(f: Shape<Node>): View<Node>
      reads `expandedRows, `collapsedRows, `shownRows, f.nodes`initialized
    {
      View(expandedRows, collapsedRows, shownRows, Started(f))
    }

    /** Whether rows start collapsed when they are first shown. */
    predicate StartsCollapsed() {
      expandable && initiallyCollapsed
    }

    ghost predicate HasKids(f: Shape<Node>)
      reads f.nodes`children
    {
      IsForest(f) && forall m | m in f.nodes :: m in f.kids && m.children == f.kids[m]
    }

    lemma KidsOf(f: Shape<Node>, n: Node)
      requires HasKids(f) && n in f.nodes
      ensures IsForest(f) && n in f.kids && n.children == f.kids[n]
    {
    }

    /** The row, and all rows below it, are hidden. */
    method Hide(n: Node, ghost f: Shape<Node>)
      requires HasKids(f) && n in f.nodes
      modifies this`shownRows
      ensures shownRows == old(shownRows) - Branch(f, n)
      decreases Branch(f, n), 1
    {
      hide *;
      KidsOf(f, n);
      BranchHead(f, n);
      HideChildren(n, f);
      shownRows := shownRows - {n};
    }

    method HideChildren(n: Node, ghost f: Shape<Node>)
      requires HasKids(f) && n in f.nodes
      modifies this`shownRows
      ensures shownRows == old(shownRows) - (Branch(f, n) - {n})
      decreases Branch(f, n), 0
    {
      hide *;
      KidsOf(f, n);
      BranchesUpTo(f, n, |f.kids[n]|);
      NoBranches(f, n, shownRows);
      var i := 0;
      while i < |n.children|
        invariant 0 <= i <= |f.kids[n]|
        invariant shownRows == old(shownRows) - Branches(f, f.kids[n][..i])
      {
        BranchesUpTo(f, n, i);
        ChildBranch(f, n, f.kids[n][i]);
        Hide(n.children[i], f);
        i := i + 1;
      }
    }

    method Collapse(n: Node, ghost f: Shape<Node>)
      requires HasKids(f) && n in f.nodes
      modifies this`expandedRows, this`collapsedRows, this`shownRows
      ensures Seen(f) == Collapsed(f, old(Seen(f)), n)
      ensures n in old(collapsedRows) ==> Seen(f) == old(Seen(f))
      ensures Displayed(f, old(Seen(f))) ==> Displayed(f, Seen(f))
    {
      if Displayed(f, Seen(f)) { CollapseKeepsDisplayed(f, Seen(f), n, StartsCollapsed()); }
      if n !in collapsedRows {
        expandedRows, collapsedRows := expandedRows - {n}, collapsedRows + {n};
        HideChildren(n, f);
      }
    }

    /** Marks the row as expanded, and shows what is below it if the row itself is visible. */
    method Expand(n: Node, ghost f: Shape<Node>)
      requires HasKids(f) && n in f.nodes && Settled(f, Seen(f), Branch(f, n))
      modifies this`expandedRows, this`collapsedRows, this`shownRows, f.nodes`initialized
      ensures Expands(f, old(Seen(f)), Seen(f), n, StartsCollapsed())
      ensures Displayed(f, old(Seen(f))) ==> Displayed(f, Seen(f)) && n in expandedRows
      decreases Branch(f, n), 1
    {
      hide *;
      KidsOf(f, n);
      ghost var v := Seen(f);
      SeenIs(f);
      OpenedIs(v, n);
      OpeningSettles(f, v, n);
      if n !in expandedRows {
        expandedRows, collapsedRows := expandedRows + {n}, collapsedRows - {n};
        SeenIs(f);
        if n in shownRows {
          ShowChildren(n, f);
        }
      }
      ExpandsFrom(f, v, Seen(f), n, StartsCollapsed());
      if Displayed(f, v) { ExpandKeepsDisplayed(f, v, Seen(f), n, StartsCollapsed()); }
      SeenIs(f);
    }

    method ShowChildren(n: Node, ghost f: Shape<Node>)
      requires HasKids(f) && n in f.nodes && Settled(f, Seen(f), Branch(f, n))
      modifies this`expandedRows, this`collapsedRows, this`shownRows, f.nodes`initialized
      ensures KidsShown(f, old(Seen(f)), Seen(f), n, |f.kids[n]|, StartsCollapsed())
      decreases Branch(f, n), 0
    {
      hide *;
      KidsOf(f, n);
      ghost var v := Seen(f);
      KidsShownStart(f, v, n, StartsCollapsed());
      var i := 0;
      while i < |n.children|
        invariant 0 <= i <= |f.kids[n]|
        invariant KidsShown(f, v, Seen(f), n, i, StartsCollapsed())
      {
        ghost var w := Seen(f);
        NextSettled(f, v, w, n, i, StartsCollapsed());
        ChildBranch(f, n, f.kids[n][i]);
        Show(n.children[i], f);
        KidsShownStep(f, v, w, Seen(f), n, i, StartsCollapsed());
        i := i + 1;
      }
    }

    /** Shows the row, and the rows below it as far as expanded rows lead. */
    method Show(n: Node, ghost f: Shape<Node>)
      requires HasKids(f) && n in f.nodes && Settled(f, Seen(f), Branch(f, n))
      modifies this`expandedRows, this`collapsedRows, this`shownRows, f.nodes`initialized
      ensures BranchShown(f, old(Seen(f)), Seen(f), n, StartsCollapsed())
      decreases Branch(f, n), 3
    {
      hide *;
      KidsOf(f, n);
      ghost var v := Seen(f);
      Unchanged(f, v, Branch(f, n), {n}, StartsCollapsed());
      SeenIs(f);
      if !n.initialized {
        Initialize(n, f);
      }
      ghost var w := Seen(f);
      SeenIs(f);
      ShowingSettles(f, w, n);
      shownRows := shownRows + {n};
      SeenIs(f);
      if n in expandedRows {
        ShowChildren(n, f);
      }
      ShowEnds(f, v, w, Seen(f), n, StartsCollapsed());
    }

    /** Gives the row its first state, as the settings say. */
    method Initialize(n: Node, ghost f: Shape<Node>)
      requires HasKids(f) && n in f.nodes && Settled(f, Seen(f), Branch(f, n)) && !n.initialized
      modifies this`expandedRows, this`collapsedRows, this`shownRows, f.nodes`initialized
      ensures Settled(f, Seen(f), Branch(f, n)) && SameOutside(f, old(Seen(f)), Seen(f), Branch(f, n))
      ensures Keeps(old(Seen(f)), Seen(f), {}, StartsCollapsed()) && n.initialized
      ensures Starts(f, old(Seen(f)), Seen(f), {n}, StartsCollapsed())
      ensures StartsCollapsed() ==> Started(f) == old(Started(f)) + {n}
      decreases Branch(f, n), 2
    {
      hide *;
      KidsOf(f, n);
      ghost var v := Seen(f);
      SeenIs(f);
      SettingsAre();
      if expandable && initiallyCollapsed {
        Collapse(n, f);
      } else {
        Expand(n, f);
      }
      ghost var w := Seen(f);
      SeenIs(f);
      StartedAmong(f);
      n.initialized := true;
      StartedOneMore(f, w.initialized, n);
      SeenIs(f);
      if StartsCollapsed() {
        CollapsedStarted(f, v, n);
        CollapseSettles(f, v, Seen(f), n);
      } else {
        ExpandSettles(f, v, w, Seen(f), n);
      }
    }

    /** The first rendering of a table whose rows are all uninitialized, or settled in some other way. */
    method Render()
      requires Valid() && AreRoots(shape, roots) && Settled(shape, Seen(shape), shape.nodes)
      modifies this`expandedRows, this`collapsedRows, this`shownRows, shape.nodes`initialized
      ensures Valid() && Displayed(shape, Seen(shape))
      ensures Keeps(old(Seen(shape)), Seen(shape), {}, StartsCollapsed())
    {
      hide *;
      ValidKids();
      ghost var v := Seen(shape);
      RootsShownStart(shape, v, roots, StartsCollapsed());
      var i := 0;
      while i < |roots|
        invariant 0 <= i <= |roots| && HasKids(shape) && Valid()
        invariant RootsShown(shape, v, Seen(shape), roots, i, StartsCollapsed())
      {
        ghost var w := Seen(shape);
        RootsSettled(shape, v, w, roots, i, StartsCollapsed());
        RootIsNode(shape, roots, i);
        Show(roots[i], shape);
        RootsShownStep(shape, v, w, Seen(shape), roots, i, StartsCollapsed());
        i := i + 1;
      }
      RootsShownEnd(shape, v, Seen(shape), roots, StartsCollapsed());
    }

    method Toggle(n: Node)
      requires Valid() && n in nodes && Displayed(shape, Seen(shape))
      modifies this`expandedRows, this`collapsedRows, this`shownRows, shape.nodes`initialized
      ensures Valid() && Displayed(shape, Seen(shape))
      ensures n in expandedRows <==> n !in old(expandedRows)
      ensures if n in old(expandedRows) then Seen(shape) == Collapsed(shape, old(Seen(shape)), n)
              else n in shape.nodes && Expands(shape, old(Seen(shape)), Seen(shape), n, StartsCollapsed())
    {
      hide *;
      ValidKids();
      InNodes(n);
      if n in expandedRows {
        SeenIs(shape);
        CollapsedClass(shape, Seen(shape), n);
        Collapse(n, shape);
        SeenIs(shape);
      } else {
        DisplayedSettles(shape, Seen(shape), n);
        Expand(n, shape);
      }
    }

    /** Expands the row and everything above it, from the top, which makes the row visible. */
    method Reveal(n: Node, ghost height: nat)
      requires Valid() && n in nodes && Displayed(shape, Seen(shape))
      requires Climb(shape.parent, n, height).None?
      requires NoStrays(Above(shape, n))
      modifies this`expandedRows, this`collapsedRows, this`shownRows, shape.nodes`initialized
      ensures Valid() && Displayed(shape, Seen(shape)) && n in shownRows
      ensures OpenFrom(shape, Seen(shape), n)
      ensures Keeps(old(Seen(shape)), Seen(shape), Above(shape, n), StartsCollapsed())
      decreases height
    {
      hide *;
      ValidKids();
      InNodes(n);
      ghost var start := Seen(shape);
      NoStrayAbove(n);
      if n.parentId.Some? {
        var p := ParentNode(n);
        ClimbParent(shape.parent, n, height);
        Reveal(p, height - 1);
      }
      ghost var v := Seen(shape);
      DisplayedSettles(shape, v, n);
      Expand(n, shape);
      RevealStep(shape, v, Seen(shape), n, StartsCollapsed());
      RevealKeeps(shape, start, v, Seen(shape), n, StartsCollapsed());
      SeenIs(shape);
    }

    lemma NoStrayAbove(n: Node)
      requires Valid() && n in nodes && NoStrays(Above(shape, n))
      ensures n.parentId.Some? <==> n in shape.parent
      ensures n in shape.parent ==>
                NoStrays(Above(shape, shape.parent[n])) && Above(shape, shape.parent[n]) <= shape.nodes
    {
      InNodes(n);
      LinksOf(n);
      BelowSelf(shape.parent, n);
      assert n in Above(shape, n);
      if n in shape.parent {
        BelowParent(shape.parent, n);
        forall a | a in Above(shape, shape.parent[n]) ensures !Stray(a) {
          BelowTransitive(shape.parent, n, shape.parent[n], a);
        }
      }
    }

    /**
     * Afterwards every row is visible exactly if rows do not start collapsed, or every uninitialized node with children
     * is listed after each of its proper ancestors that is not both initialized and expanded. So it is whenever parents
     * are listed before their children, as loading leaves them, and then every row is expanded.
     */
    method ExpandAll()
      requires Valid() && Displayed(shape, Seen(shape))
      modifies this`expandedRows, this`collapsedRows, this`shownRows, shape.nodes`initialized
      ensures Valid() && Displayed(shape, Seen(shape))
      ensures shape.nodes <= shownRows <==> !StartsCollapsed() || UnfoldsInOrder(shape, old(Seen(shape)), nodes)
      ensures ParentsFirst(shape.parent, nodes) ==> shape.nodes <= shownRows && shape.nodes <= expandedRows
    {
      hide *;
      ValidKids();
      NodesRegistered();
      ListsDistinct();
      ghost var views := [Seen(shape)];
      ExpandingStart(shape, Seen(shape), nodes, StartsCollapsed());
      var i := 0;
      while i < |nodes|
        invariant 0 <= i <= |nodes| && Valid() && HasKids(shape) && Displayed(shape, Seen(shape))
        invariant Expanding(shape, views, nodes, StartsCollapsed())
        invariant |views| == i + 1 && views[0] == old(Seen(shape)) && views[i] == Seen(shape)
      {
        ghost var v := Seen(shape);
        NodeOf(shape, nodes, i);
        DisplayedSettles(shape, v, nodes[i]);
        Expand(nodes[i], shape);
        ExpandingNext(shape, views, Seen(shape), nodes, StartsCollapsed());
        views := views + [Seen(shape)];
        i := i + 1;
      }
      ExpandAllShowsIff(shape, views, nodes, StartsCollapsed());
      if ParentsFirst(shape.parent, nodes) { ParentsFirstUnfolds(shape, views, nodes, StartsCollapsed()); }
      SeenIs(shape);
    }

    /** Only the rows without a parent stay visible. */
    method CollapseAll()
      requires Valid() && Displayed(shape, Seen(shape))
      modifies this`expandedRows, this`collapsedRows, this`shownRows
      ensures Valid() && Displayed(shape, Seen(shape))
      ensures shape.nodes <= collapsedRows
      ensures forall m | m in shape.nodes :: m in shownRows <==> m !in shape.parent
    {
      hide *;
      ValidKids();
      NodesRegistered();
      SeenIs(shape);
      var i := 0;
      while i < |nodes|
        invariant 0 <= i <= |nodes| && Valid() && HasKids(shape) && Displayed(shape, Seen(shape))
        invariant Seen(shape).collapsed == collapsedRows && forall j | 0 <= j < i :: nodes[j] in collapsedRows
      {
        ghost var v := Seen(shape);
        NodeOf(shape, nodes, i);
        CollapsedClass(shape, v, nodes[i]);
        Collapse(nodes[i], shape);
        SeenIs(shape);
        i := i + 1;
      }
      AllIn(nodes, shape.nodes, collapsedRows);
      SeenIs(shape);
      AllCollapsed(shape, Seen(shape));
    }

    lemma ValidKids()
      requires Valid()
      ensures HasKids(shape) && IsForest(shape)
    {
      AllLinks();
    }

    lemma SettingsAre()
      ensures StartsCollapsed() <==> expandable && initiallyCollapsed
    {
    }

    ghost function Started(f: Shape<Node>): (s: set<Node>)
      reads f.nodes`initialized
      ensures forall m | m in f.nodes :: m in s <==> m.initialized
    {
      set m | m in f.nodes && m.initialized
    }

    lemma StartedAmong(f: Shape<Node>)
      ensures Started(f) <= f.nodes
    {
    }

    lemma SeenIs(f: Shape<Node>)
      ensures Seen(f) == View(expandedRows, collapsedRows, shownRows, Started(f))
      ensures forall m | m in f.nodes :: m in Started(f) <==> m.initialized
    {
    }

    lemma StartedOneMore(f: Shape<Node>, before: set<Node>, n: Node)
      requires n in f.nodes && n.initialized && before <= f.nodes
      requires forall m | m in f.nodes && m != n :: m in before <==> m.initialized
      ensures Started(f) == before + {n}
    {
    }

    lemma NodesRegistered()
      requires Valid()
      ensures Elements(nodes) == shape.nodes && IsForest(shape) && Fits(shape, tree.Keys)
      ensures Registered(tree, nodes, rows, shape.nodes)
    {
    }

    lemma InNodes(n: Node)
      requires Valid() && n in nodes
      ensures n in shape.nodes
    {
      assert n in Elements(nodes);
    }

    lemma SameId(f: Shape<Node>, n: Node, d: Node)
      requires Valid() && f == shape && n in nodes && d in nodes
      ensures n.parentId == Some(d.id) <==> n in f.parent && f.parent[n] == d
    {
      LinksOf(n);
      LinksOf(d);
    }
  }

  lemma HeadAgain<T>(f: Shape<T>, n: T)
    requires IsForest(f) && n in f.nodes
    ensures Branch(f, n) - {n} + {n} == Branch(f, n)
  {
    BranchHead(f, n);
  }

  ghost predicate LoadedFrom(n: Node, row: Row)
    reads n`parentId, n`initialized
  {
    row.id == Some(n.id) && n.parentId == RowParent(row) && !n.initialized
  }

  /** The nodes come from the rows, one by one. */
  ghost predicate AllLoadedFrom(added: seq<Node>, rows: seq<Row>)
    reads added`parentId, added`initialized
  {
    |added| == |rows| && forall i | 0 <= i < |added| :: LoadedFrom(added[i], rows[i])
  }

  lemma NoneLoaded()
    ensures AllLoadedFrom([], [])
  {
  }

  lemma OneMoreLoaded(added: seq<Node>, rows: seq<Row>, n: Node, row: Row)
    requires AllLoadedFrom(added, rows) && LoadedFrom(n, row)
    ensures AllLoadedFrom(added + [n], rows + [row])
  {
  }

  lemma LoadedFromRow(n: Node, row: Row)
    requires row.id == Some(n.id) && n.parentId == RowParent(row) && !n.initialized
    ensures LoadedFrom(n, row)
  {
  }

  /** The parents that the nodes name. */
  ghost function NamedParents(nodes: seq<Node>): set<string>
    reads nodes`parentId
  {
    set m | m in nodes && m.parentId.Some? :: m.parentId.value
  }

  lemma OneMoreKey(tree: map<string, Node>, n: Node)
    ensures tree[n.id := n].Keys == tree.Keys + {n.id}
  {
  }

  /** What a new node finds: its parent, if known, is another node. */
  lemma ParentFound(tree: map<string, Node>, nodes: seq<Node>, rows: seq<Node>, f: Shape<Node>, row: Row, n: Node)
    requires Registered(tree, nodes, rows, f.nodes) && n.id !in tree
    requires row.id == Some(n.id) && n.parentId == RowParent(row) && RowParent(row) != row.id
    ensures var found := tree[n.id := n];
            n.parentId.Some? && n.parentId.value in found ==>
              && n.parentId.value in tree && found[n.parentId.value] == tree[n.parentId.value]
              && found[n.parentId.value] in f.nodes && found[n.parentId.value].id == n.parentId.value
  {
  }

  lemma NamedMore(nodes: seq<Node>, row: Row, n: Node)
    requires n.parentId == RowParent(row)
    ensures NamedParents(nodes + [n]) == NamedParents(nodes) + NamedBy(row)
  {
    var (more, before) := (NamedParents(nodes + [n]), NamedParents(nodes));
    forall id | id in before + NamedBy(row) ensures id in more {
      if id in before {
        var m :| m in nodes && m.parentId.Some? && m.parentId.value == id;
        assert m in nodes + [n];
      } else {
        assert n in nodes + [n];
      }
    }
  }

  /** A new node leaves every node in its place unless one of them has named it. */
  lemma PlacedStep(f: Shape<Node>, tree: map<string, Node>, nodes: seq<Node>, rows: seq<Node>, row: Row, n: Node,
                   p: Option<Node>)
    requires IsForest(f) && Registered(tree, nodes, rows, f.nodes) && ParentIdsFit(f, {})
    requires n !in f.nodes && n.id !in tree && n.parentId == RowParent(row) && n.parentId != Some(n.id)
    requires p.Some? <==> n.parentId.Some? && n.parentId.value in tree
    requires p.Some? ==> p.value in f.nodes
    ensures Placed(AddShape(f, n, p), tree.Keys + {n.id}) <==> Placed(f, tree.Keys) && n.id !in NamedParents(nodes)
  {
    var g, known := AddShape(f, n, p), tree.Keys + {n.id};
    AddedParts(f, n, p);
    hide AddShape, IsForest;
    if n.id in NamedParents(nodes) {
      NamedIsMisplaced(f, g, tree, nodes, rows, n);
    } else {
      UnnamedStaysPlaced(f, g, tree, nodes, rows, n);
    }
  }

  lemma NamedIsMisplaced(f: Shape<Node>, g: Shape<Node>, tree: map<string, Node>, nodes: seq<Node>, rows: seq<Node>,
                         n: Node)
    requires IsForest(f) && Registered(tree, nodes, rows, f.nodes) && ParentIdsFit(f, {})
    requires n.id !in tree && n.id in NamedParents(nodes)
    requires f.nodes <= g.nodes && forall m | m in f.nodes :: m in g.parent <==> m in f.parent
    ensures !Placed(g, tree.Keys + {n.id})
  {
    var m :| m in nodes && m.parentId.Some? && m.parentId.value == n.id;
    assert m in Elements(nodes) && LinkFits(f, {}, m);
    assert m in g.nodes && m !in g.parent && m.parentId.value in tree.Keys + {n.id};
  }

  lemma UnnamedStaysPlaced(f: Shape<Node>, g: Shape<Node>, tree: map<string, Node>, nodes: seq<Node>, rows: seq<Node>,
                           n: Node)
    requires Registered(tree, nodes, rows, f.nodes) && n.id !in NamedParents(nodes)
    requires g.nodes == f.nodes + {n} && n !in f.nodes && forall m | m in f.nodes :: m in g.parent <==> m in f.parent
    requires n !in g.parent && n.parentId.Some? ==> n.parentId.value !in tree.Keys + {n.id}
    ensures Placed(g, tree.Keys + {n.id}) <==> Placed(f, tree.Keys)
  {
    forall m | m in f.nodes && m.parentId.Some? ensures m.parentId.value != n.id {
      assert m in Elements(nodes);
      assert m.parentId.value in NamedParents(nodes);
    }
  }

  ghost predicate ParentIdsFit(f: Shape<Node>, known: set<string>)
    reads f.nodes`parentId
  {
    forall m | m in f.nodes :: LinkFits(f, known, m)
  }

  lemma SameLinks(f: Shape<Node>, g: Shape<Node>, known: set<string>)
    requires f.parent == g.parent
    requires forall m | m in f.nodes :: LinkFits(f, known, m)
    ensures forall m | m in f.nodes :: LinkFits(g, known, m)
  {
    forall m | m in f.nodes ensures LinkFits(g, known, m) { assert LinkFits(f, known, m); }
  }

  lemma FitsParentIds(f: Shape<Node>, known: set<string>)
    requires Fits(f, known)
    ensures ParentIdsFit(f, known)
  {
    forall m | m in f.nodes ensures LinkFits(f, known, m) {
      assert FitsAt(f, known, m);
    }
  }

  lemma KidsOfFit(f: Shape<Node>, known: set<string>)
    requires IsForest(f) && Fits(f, known)
    ensures f.kids.Keys == f.nodes && forall m | m in f.nodes :: m.children == f.kids[m]
  {
    forall m | m in f.nodes ensures m in f.kids && m.children == f.kids[m] { assert FitsAt(f, known, m); }
  }

  lemma AddedFits(f: Shape<Node>, known: set<string>, n: Node, p: Option<Node>)
    requires IsForest(f) && n !in f.nodes && (p.Some? ==> p.value in f.nodes) && n.children == []
    requires if p.Some? then n.parentId == Some(p.value.id) else n.parentId.Some? ==> n.parentId.value !in known
    requires forall m | m in f.nodes :: m in f.kids && m.children == f.kids[m] + if p == Some(m) then [n] else []
    requires ParentIdsFit(f, known)
    ensures Fits(AddShape(f, n, p), known)
  {
    AddedParts(f, n, p);
    forall m | m in f.nodes + {n} ensures FitsAt(AddShape(f, n, p), known, m) {
      assert m != n ==> LinkFits(f, known, m);
    }
  }

  lemma RegisteredWith(tree: map<string, Node>, nodes: seq<Node>, rows: seq<Node>, all: set<Node>, n: Node,
                       position: nat)
    requires Registered(tree, nodes, rows, all) && n !in all && n.id !in tree && position <= |rows|
    ensures Registered(tree[n.id := n], nodes + [n], rows[..position] + [n] + rows[position..], all + {n})
  {
    var (a, b) := (rows[..position], rows[position..]);
    assert rows == a + b;
    ElementsConcat(a, b);
    ElementsConcat(a, [n]);
    ElementsConcat(a + [n], b);
    ElementsConcat(nodes, [n]);
    SingleElement(n);
    NoDupConcat(nodes, [n]);
    NoDupInsert(a, b, n);
  }

  lemma NoDupInsert<T>(a: seq<T>, b: seq<T>, n: T)
    requires NoDup(a + b) && n !in Elements(a + b)
    ensures NoDup(a + [n] + b)
  {
    var s := a + [n] + b;
    forall i, j | 0 <= i < j < |s| ensures s[i] != s[j] {
      var (i', j') := (if i > |a| then i - 1 else i, if j > |a| then j - 1 else j);
      assert i != |a| ==> s[i] == (a + b)[i'];
      assert j != |a| ==> s[j] == (a + b)[j'];
    }
  }

  /** The ids of the nodes, the parents they name, and whether parent ids and lists of children agree. */
  datatype Names = Names(ids: set<string>, parents: set<string>, agree: bool)

  /** The names after loading some rows. */
  ghost predicate Named(before: Names, now: Names, data: seq<Row>) {
    && now.ids == before.ids + IdsOf(data) && now.parents == before.parents + NamedIn(data)
    && (now.agree <==> before.agree && NamesNoLater(data, before.parents))
  }

  lemma NamesStart(names: Names)
    ensures Named(names, names, [])
  {
  }

  lemma NewIdsNext(data: seq<Row>, i: nat, before: Names, now: Names)
    requires i < |data| && NewIds(data, before.ids) && Named(before, now, data[..i])
    ensures data[i].id.Some? ==> data[i].id.value !in now.ids && RowParent(data[i]) != data[i].id
  {
  }

  lemma NamesNext(data: seq<Row>, i: nat, before: Names, now: Names, next: Names)
    requires i < |data| && Named(before, now, data[..i])
    requires data[i].id.None? ==> next == now
    requires data[i].id.Some? ==>
               && next.ids == now.ids + {data[i].id.value} && next.parents == now.parents + NamedBy(data[i])
               && (next.agree <==> now.agree && data[i].id.value !in now.parents)
    ensures Named(before, next, data[..i + 1])
  {
    var (rows, more) := (data[..i], data[..i + 1]);
    assert more == rows + [data[i]];
    NamedOneMore(rows, data[i]);
    NoLaterOneMore(rows, data[i], before.parents);
  }

  lemma NamedOneMore(rows: seq<Row>, row: Row)
    ensures IdsOf(rows + [row]) == IdsOf(rows) + if row.id.Some? then {row.id.value} else {}
    ensures NamedIn(rows + [row]) == NamedIn(rows) + if row.id.Some? then NamedBy(row) else {}
  {
    var more := rows + [row];
    forall r | r in more ensures r in rows || r == row {}
    assert row in more && forall r | r in rows :: r in more;
  }

  lemma NoLaterOneMore(rows: seq<Row>, row: Row, named: set<string>)
    ensures NamesNoLater(rows + [row], named) <==>
              NamesNoLater(rows, named) && (row.id.Some? ==> row.id.value !in named + NamedIn(rows))
  {
    var more := rows + [row];
    assert more[..|rows|] == rows && more[|rows|] == row;
    assert forall j | 0 <= j < |rows| :: more[j] == rows[j] && more[..j] == rows[..j];
  }

  lemma NamesEnd(before: Names, now: Names, data: seq<Row>)
    requires Named(before, now, data)
    ensures now.agree <==> before.agree && NamesNoLater(data, before.parents)
  {
  }

  lemma NodeRowsNext(data: seq<Row>, i: nat)
    requires i < |data|
    ensures data[i].id.None? ==> NodeRows(data[..i + 1]) == NodeRows(data[..i])
    ensures data[i].id.Some? ==> NodeRows(data[..i + 1]) == NodeRows(data[..i]) + [data[i]]
  {
    assert data[..i + 1][..i] == data[..i] && data[..i + 1][i..] == [data[i]];
  }

  lemma LoadStart(f: Shape<Node>, start: Listing<Node>, data: seq<Row>, at: nat)
    requires IsForest(f) && at <= |start.rows|
    ensures LoadedSoFar(f, start, f, start, [], at)
    ensures data[0..] == data && data[..0] == [] && NodeRows([]) == [] && f.nodes - f.nodes == {}
  {
    LoadedStart(f, start, at);
  }

  lemma SortedKids<T>(f: Shape<T>, n: T, sorted: seq<T>)
    requires IsForest(f) && n in f.nodes && multiset(sorted) == multiset(f.kids[n])
    ensures NoDup(sorted) && Elements(sorted) == Elements(f.kids[n])
  {
    SameElements(sorted, f.kids[n]);
    NoDupFromMultiset(f.kids[n], sorted);
  }

  lemma NoDupFromMultiset<T>(s: seq<T>, t: seq<T>)
    requires NoDup(s) && multiset(s) == multiset(t)
    ensures NoDup(t)
  {
    NoDupMultiset(s);
    forall i, j | 0 <= i < j < |t| ensures t[i] != t[j] {
      var (a, b, c) := (t[..i], t[i + 1..j], t[j + 1..]);
      assert t == a + [t[i]] + b + [t[j]] + c;
      assert multiset(t)[t[i]] <= 1;
    }
  }

  lemma SortParts<T>(f: Shape<T>, n: T, sorted: seq<T>)
    requires IsForest(f) && n in f.nodes
    ensures var g := SortShape(f, n, sorted);
            && g.nodes == f.nodes && g.parent == f.parent && g.kids.Keys == g.nodes && g.kids[n] == sorted
            && forall m | m in g.nodes && m != n :: g.kids[m] == f.kids[m]
  {
  }

  /** The first and the last rows stay where they were. */
  ghost predicate SameAround<T>(rows: seq<T>, now: seq<T>, before: seq<T>, after: seq<T>) {
    && |now| == |rows| && |before| + |after| <= |rows|
    && before == rows[..|before|] && after == rows[|rows| - |after|..]
  }

  lemma SortedLayout<T>(f: Shape<T>, rows: seq<T>, n: T, sorted: seq<T>) returns (before: seq<T>, after: seq<T>)
    requires IsForest(f) && n in f.nodes && NoDup(sorted) && Elements(sorted) == Elements(f.kids[n])
    ensures IsForest(SortShape(f, n, sorted)) && n in SortShape(f, n, sorted).nodes
    ensures var g := SortShape(f, n, sorted);
            BlockLayout(f, rows) ==>
              && BlockLayout(g, SortedRows(g, rows, n)) && multiset(SortedRows(g, rows, n)) == multiset(rows)
              && SortedRows(g, rows, n) == before + Preorder(g, n) + after
              && SameAround(rows, SortedRows(g, rows, n), before, after)
  {
    SortKeepsForest(f, n, sorted);
    SortParts(f, n, sorted);
    before, after := [], [];
    hide *;
    if BlockLayout(f, rows) {
      SortKeepsLayout(f, rows, n, sorted);
      var block;
      before, block, after := SortGivesPreorder(SortShape(f, n, sorted), rows, n);
      SameLength(rows, SortedRows(SortShape(f, n, sorted), rows, n), before, block,
        Preorder(SortShape(f, n, sorted), n), after);
    }
  }

  lemma SameLength<T>(rows: seq<T>, now: seq<T>, before: seq<T>, block: seq<T>, sorted: seq<T>, after: seq<T>)
    requires rows == before + block + after && now == before + sorted + after && |block| == |sorted|
    ensures SameAround(rows, now, before, after)
  {
  }

  lemma SortKeepsLayout<T>(f: Shape<T>, rows: seq<T>, n: T, sorted: seq<T>)
    requires IsForest(f) && n in f.nodes && NoDup(sorted) && Elements(sorted) == Elements(f.kids[n])
    requires BlockLayout(f, rows)
    ensures IsForest(SortShape(f, n, sorted)) && BlockLayout(SortShape(f, n, sorted), rows)
    ensures n in SortShape(f, n, sorted).nodes
  {
    SortKeepsForest(f, n, sorted);
  }

  lemma RowsFromMove(tree: map<string, Node>, nodes: seq<Node>, before: seq<Node>, after: seq<Node>, all: set<Node>)
    requires Registered(tree, nodes, before, all) && NoDup(after) && Elements(after) == Elements(before)
    ensures Registered(tree, nodes, after, all)
  {
  }

  /** The guard of a move. */
  lemma MoveGuard<T>(f: Shape<T>, n: T, d: T)
    requires IsForest(f) && n in f.nodes && d in f.nodes
    ensures MayMove(f, n, d) <==>
              n != d && !(n in f.parent && f.parent[n] == d) && !(n != d && Below(f.parent, d, n))
  {
    BelowSelf(f.parent, n);
  }

  /** After the links have changed, the rows of the branch are those it had before. */
  lemma MovedBranchRows<T>(f: Shape<T>, rows: seq<T>, n: T, d: T)
    requires MayMove(f, n, d)
    ensures IsForest(MoveShape(f, n, d))
    ensures MovedRows(MoveShape(f, n, d), rows, n, d) == MovedRows(f, rows, n, d)
    ensures n != d && d !in Branch(MoveShape(f, n, d), n)
  {
    BelowSelf(f.parent, n);
    MovedPreorder(f, n, d, n);
    MoveBranch(f, n, d, n);
  }

  /** The list of nodes, the rows, and the rows expanded, collapsed and not hidden. */
  datatype Content<T> = Content(nodes: seq<T>, rows: seq<T>, expanded: set<T>, collapsed: set<T>, shown: set<T>)

  ghost function LessLists<T>(c: Content<T>, gone: set<T>): Content<T> {
    Content(Remove(c.nodes, gone), Remove(c.rows, gone), c.expanded - gone, c.collapsed - gone, c.shown - gone)
  }

  lemma LessNone<T>(c: Content<T>)
    ensures LessLists(c, {}) == c
  {
    RemoveNothing(c.nodes, {});
    RemoveNothing(c.rows, {});
    assert c.expanded - {} == c.expanded && c.collapsed - {} == c.collapsed && c.shown - {} == c.shown;
  }

  lemma LessTwice<T>(c: Content<T>, a: set<T>, b: set<T>)
    ensures LessLists(LessLists(c, a), b) == LessLists(c, a + b)
  {
    RemoveTwice(c.nodes, a, b);
    RemoveTwice(c.rows, a, b);
    assert c.expanded - a - b == c.expanded - (a + b);
    assert c.collapsed - a - b == c.collapsed - (a + b);
    assert c.shown - a - b == c.shown - (a + b);
  }

  lemma LessOne<T>(c: Content<T>, n: T)
    requires NoDup(c.nodes) && NoDup(c.rows)
    ensures LessLists(c, {n}) ==
              Content(Without(c.nodes, n), Without(c.rows, n), c.expanded - {n}, c.collapsed - {n}, c.shown - {n})
  {
    WithoutIsRemove(c.nodes, n);
    WithoutIsRemove(c.rows, n);
  }

  /**
   * What the removal of a branch means for the tables around it: exactly the ids of the branch are gone, and block
   * layout, parents first and visibility hold as before.
   */
  lemma RemovalKeeps(f: Shape<Node>, n: Node, tree0: map<string, Node>, tree: map<string, Node>,
                     c: Content<Node>, d: Content<Node>, v: View<Node>)
    requires IsForest(f) && n in f.nodes && d == LessLists(c, Branch(f, n))
    requires Registered(tree0, c.nodes, c.rows, f.nodes) && Registered(tree, d.nodes, d.rows, RemoveShape(f, n).nodes)
    ensures forall id | id in tree0 :: id in tree <==> tree0[id] !in Branch(f, n)
    ensures forall id | id in tree :: id in tree0 && tree[id] == tree0[id]
    ensures IsForest(RemoveShape(f, n))
    ensures BlockLayout(f, c.rows) ==> BlockLayout(RemoveShape(f, n), d.rows)
    ensures ParentsFirst(f.parent, c.nodes) ==> ParentsFirst(RemoveShape(f, n).parent, d.nodes)
    ensures Displayed(f, v) ==> Displayed(RemoveShape(f, n), LessView(v, Branch(f, n)))
  {
    RemoveKeepsForest(f, n);
    LessIs(c, Branch(f, n));
    hide *;
    RemovedParts(f, n);
    TreeLess(tree0, c, tree, d, f.nodes, Branch(f, n));
    if BlockLayout(f, c.rows) { RemoveKeepsBlocks(f, c.rows, n); }
    if ParentsFirst(f.parent, c.nodes) { ParentsFirstRemove(f, c.nodes, n); }
    if Displayed(f, v) { RemoveKeepsDisplayed(f, v, n); }
  }

  lemma LessIs<T>(c: Content<T>, gone: set<T>)
    ensures LessLists(c, gone).nodes == Remove(c.nodes, gone) && LessLists(c, gone).rows == Remove(c.rows, gone)
  {
  }

  lemma TreeLess(tree0: map<string, Node>, c: Content<Node>, tree: map<string, Node>, d: Content<Node>,
                 all: set<Node>, gone: set<Node>)
    requires Registered(tree0, c.nodes, c.rows, all) && Registered(tree, d.nodes, d.rows, all - gone)
    ensures forall id | id in tree0 :: id in tree <==> tree0[id] !in gone
    ensures forall id | id in tree :: id in tree0 && tree[id] == tree0[id]
  {
  }

  lemma RemovedRegistered(tree: map<string, Node>, nodes: seq<Node>, rows: seq<Node>, f: Shape<Node>, n: Node)
    requires IsForest(f) && n in f.nodes && Branch(f, n) == {n}
    requires Registered(tree, nodes, rows, f.nodes)
    ensures Registered(tree - {n.id}, Without(nodes, n), Without(rows, n), RemoveShape(f, n).nodes)
  {
    hide *;
    RemovedParts(f, n);
    RegisteredWithout(tree, nodes, rows, f.nodes, n);
  }

  lemma RegisteredWithout(tree: map<string, Node>, nodes: seq<Node>, rows: seq<Node>, all: set<Node>, n: Node)
    requires n in all && Registered(tree, nodes, rows, all)
    ensures Registered(tree - {n.id}, Without(nodes, n), Without(rows, n), all - {n})
  {
    WithoutElements(nodes, n);
    WithoutElements(rows, n);
  }

  lemma WithoutElements<T>(s: seq<T>, x: T)
    requires NoDup(s)
    ensures NoDup(Without(s, x)) && Elements(Without(s, x)) == Elements(s) - {x}
  {
    WithoutMember(s, x, x);
    forall y | y in Elements(Without(s, x)) ensures y in Elements(s) - {x} { WithoutMember(s, x, y); }
    forall y | y in Elements(s) - {x} ensures y in Elements(Without(s, x)) { WithoutMember(s, x, y); }
  }

  lemma RemovedFits(f: Shape<Node>, tree: map<string, Node>, n: Node)
    requires IsForest(f) && n in f.nodes && Branch(f, n) == {n}
    requires forall m | m in f.nodes :: LinkFits(f, tree.Keys, m)
    requires forall m | m in f.nodes :: m in f.kids && m.children == DetachedKids(f, n, m)
    ensures Fits(RemoveShape(f, n), (tree - {n.id}).Keys)
  {
    RemovedParts(f, n);
    var g := RemoveShape(f, n);
    forall m | m in g.nodes ensures FitsAt(g, (tree - {n.id}).Keys, m) {
      if !(n in f.parent && m == f.parent[n]) { WithoutAbsent(f.kids[m], n); }
      assert m in g.parent <==> m in f.parent;
    }
  }

  lemma MovePossible(f: Shape<Node>, n: Node, d: Node)
    requires MayMove(f, n, d)
    ensures IsForest(f) && n in f.nodes && d in f.nodes && (n in f.parent ==> f.parent[n] != d)
  {
  }

  /** The children of `m` once `n` is no longer among them. */
  ghost function DetachedKids<T>(f: Shape<T>, n: T, m: T): seq<T>
    requires m in f.kids
  {
    if n in f.parent && m == f.parent[n] then Without(f.kids[m], n) else f.kids[m]
  }

  lemma DetachedAway<T>(f: Shape<T>, n: T)
    requires IsForest(f) && n in f.nodes
    ensures forall m | m in f.nodes :: m in f.kids && DetachedKids(f, n, m) ==
                                         if n in f.parent && m == f.parent[n] then Without(f.kids[m], n) else f.kids[m]
  {
  }

  lemma MoveFits(f: Shape<Node>, known: set<string>, n: Node, d: Node)
    requires MayMove(f, n, d) && f.kids.Keys == f.nodes
    requires n.parentId == Some(d.id)
    requires forall m | m in f.nodes && m != n :: LinkFits(f, known, m)
    requires forall m | m in f.nodes :: m.children == DetachedKids(f, n, m) + if m == d then [n] else []
    ensures Fits(MoveShape(f, n, d), known)
  {
    forall m | m in f.nodes ensures FitsAt(MoveShape(f, n, d), known, m) {}
  }
}
