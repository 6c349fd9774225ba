/**
 * Forests given by parent links and ordered lists of children: ancestors, branches and the ways in which
 * a forest may change.
 */
module Forest {
  import opened Wrappers

  /** The nodes of a forest, the parent of each node that has one, and the children of each node. */
  datatype Shape<T> = Shape(nodes: set<T>, parent: map<T, T>, kids: map<T, seq<T>>)

  ghost predicate NoDup<T>(s: seq<T>) {
    forall i, j | 0 <= i < j < |s| :: s[i] != s[j]
  }

  /** The node `k` steps above `n`. */
  ghost function Climb<T>(parent: map<T, T>, n: T, k: nat): Option<T> {
    if k == 0 then Some(n) else if n in parent then Climb(parent, parent[n], k - 1) else None
  }

  /** `m` is `n` or a descendant of `n`. */
  ghost predicate Below<T>(parent: map<T, T>, m: T, n: T) {
    exists k: nat :: Climb(parent, m, k) == Some(n)
  }

  ghost predicate Rooted<T>(parent: map<T, T>, n: T) {
    exists k: nat :: Climb(parent, n, k).None?
  }

  /** Parent links and children lists agree, no child is listed twice, and no parent chain is cyclic. */
  ghost predicate IsForest<T>(f: Shape<T>) {
    && f.kids.Keys == f.nodes
    && (forall c | c in f.parent :: c in f.nodes && f.parent[c] in f.nodes && c in f.kids[f.parent[c]])
    && (forall n, c | n in f.nodes && c in f.kids[n] :: c in f.parent && f.parent[c] == n)
    && (forall n | n in f.nodes :: NoDup(f.kids[n]))
    && (forall n {:trigger Rooted(f.parent, n)} | n in f.nodes :: Rooted(f.parent, n))
  }

  /** The branch of `n`: `n` and all its descendants. */
  ghost function Branch<T>(f: Shape<T>, n: T): set<T> {
    set m | m in f.nodes && Below(f.parent, m, n)
  }

  /** `roots` lists the nodes without a parent. */
  ghost predicate AreRoots<T>(f: Shape<T>, roots: seq<T>) {
    && NoDup(roots) && (forall m | m in roots :: m in f.nodes && m !in f.parent)
    && (forall m | m in f.nodes && m !in f.parent :: m in roots)
  }

  // --- Climbing ---

  lemma ClimbEnds<T>(f: Shape<T>, n: T) returns (height: nat)
    requires IsForest(f) && n in f.nodes
    ensures height > 0 && Climb(f.parent, n, height).None?
  {
    assert Rooted(f.parent, n);
    height :| Climb(f.parent, n, height).None?;
  }

  lemma {:induction false} ClimbAdd<T>(parent: map<T, T>, n: T, i: nat, j: nat)
    requires Climb(parent, n, i).Some?
    ensures Climb(parent, n, i + j) == Climb(parent, Climb(parent, n, i).value, j)
  {
    if i > 0 {
      ClimbAdd(parent, parent[n], i - 1, j);
    }
  }

  lemma {:induction false} ClimbPrefix<T>(parent: map<T, T>, n: T, i: nat, j: nat)
    requires i <= j && Climb(parent, n, j).Some?
    ensures Climb(parent, n, i).Some?
  {
    if i > 0 {
      ClimbPrefix(parent, parent[n], i - 1, j - 1);
    }
  }

  lemma {:induction false} CycleNeverEnds<T>(parent: map<T, T>, n: T, k: nat, j: nat)
    requires k > 0 && Climb(parent, n, k) == Some(n)
    ensures Climb(parent, n, j).Some?
    decreases j
  {
    if j < k {
      ClimbPrefix(parent, n, j, k);
    } else {
      CycleNeverEnds(parent, n, k, j - k);
      ClimbAdd(parent, n, k, j - k);
    }
  }

  /** No node stands above itself. */
  lemma RootedHasNoCycle<T>(parent: map<T, T>, n: T, k: nat)
    requires Rooted(parent, n) && Climb(parent, n, k) == Some(n)
    ensures k == 0
  {
    if k > 0 {
      var j: nat :| Climb(parent, n, j).None?;
      CycleNeverEnds(parent, n, k, j);
    }
  }

  // --- Branches ---

  lemma BelowTransitive<T>(parent: map<T, T>, a: T, b: T, c: T)
    requires Below(parent, a, b) && Below(parent, b, c)
    ensures Below(parent, a, c)
  {
    var i: nat :| Climb(parent, a, i) == Some(b);
    var j: nat :| Climb(parent, b, j) == Some(c);
    ClimbAdd(parent, a, i, j);
  }

  lemma BelowSelf<T>(parent: map<T, T>, n: T)
    ensures Below(parent, n, n)
  {
    assert Climb(parent, n, 0) == Some(n);
  }

  lemma BelowParent<T>(parent: map<T, T>, n: T)
    requires n in parent
    ensures Below(parent, n, parent[n])
  {
    assert Climb(parent, n, 1) == Climb(parent, parent[n], 0) == Some(parent[n]);
  }

  /** Being at or below each other makes two nodes the same. */
  lemma BelowAntisymmetric<T>(parent: map<T, T>, a: T, b: T)
    requires Rooted(parent, a) && Below(parent, a, b) && Below(parent, b, a)
    ensures a == b
  {
    var i: nat :| Climb(parent, a, i) == Some(b);
    var j: nat :| Climb(parent, b, j) == Some(a);
    ClimbAdd(parent, a, i, j);
    RootedHasNoCycle(parent, a, i + j);
  }

  /** A node below `n` is `n` itself or lies below exactly the child on its way up. */
  lemma BelowSplits<T>(parent: map<T, T>, m: T, n: T)
    requires Below(parent, m, n)
    ensures m == n || exists c :: c in parent && parent[c] == n && Below(parent, m, c)
  {
    var k: nat :| Climb(parent, m, k) == Some(n);
    if k > 0 {
      ClimbPrefix(parent, m, k - 1, k);
      var c := Climb(parent, m, k - 1).value;
      ClimbAdd(parent, m, k - 1, 1);
      assert c in parent && parent[c] == n;
      assert Below(parent, m, c);
    }
  }

  /** The ancestors of a node are linearly ordered. */
  lemma BelowLinear<T>(parent: map<T, T>, m: T, a: T, b: T)
    requires Below(parent, m, a) && Below(parent, m, b)
    ensures Below(parent, a, b) || Below(parent, b, a)
  {
    var i: nat :| Climb(parent, m, i) == Some(a);
    var j: nat :| Climb(parent, m, j) == Some(b);
    if i <= j {
      ClimbAdd(parent, m, i, j - i);
      assert Climb(parent, a, j - i) == Some(b);
    } else {
      ClimbAdd(parent, m, j, i - j);
      assert Climb(parent, b, i - j) == Some(a);
    }
  }

  /** The branch of a child lies strictly inside the branch of its parent. */
  lemma ChildBranch<T>(f: Shape<T>, n: T, c: T)
    requires IsForest(f) && n in f.nodes && c in f.kids[n]
    ensures c in f.nodes && Branch(f, c) < Branch(f, n) && n in Branch(f, n) && n !in Branch(f, c)
  {
    BelowSelf(f.parent, n);
    BelowParent(f.parent, c);
    forall m | m in Branch(f, c) ensures m in Branch(f, n) {
      BelowTransitive(f.parent, m, c, n);
    }
    if n in Branch(f, c) {
      BelowAntisymmetric(f.parent, n, c);
      assert Climb(f.parent, n, 1) == Climb(f.parent, n, 0);
      RootedHasNoCycle(f.parent, n, 1);
    }
  }

  /** The branches of two children of a node have nothing in common. */
  lemma SiblingBranches<T>(f: Shape<T>, n: T, a: T, b: T)
    requires IsForest(f) && n in f.nodes && a in f.kids[n] && b in f.kids[n] && a != b
    ensures Branch(f, a) !! Branch(f, b)
  {
    forall m | m in Branch(f, a) && m in Branch(f, b) ensures false {
      BelowLinear(f.parent, m, a, b);
      SiblingsIncomparable(f, n, a, b);
      SiblingsIncomparable(f, n, b, a);
    }
  }

  lemma SiblingsIncomparable<T>(f: Shape<T>, n: T, a: T, b: T)
    requires IsForest(f) && n in f.nodes && a in f.kids[n] && b in f.kids[n] && a != b
    ensures !Below(f.parent, a, b)
  {
    if Below(f.parent, a, b) {
      var k: nat :| Climb(f.parent, a, k) == Some(b);
      assert Climb(f.parent, n, k - 1) == Some(b);
      ChildBranch(f, n, b);
      assert Below(f.parent, n, b);
    }
  }

  /** A branch is its root together with the branches of the children. */
  lemma BranchSplits<T>(f: Shape<T>, n: T, m: T)
    requires IsForest(f) && n in f.nodes && m in Branch(f, n) && m != n
    ensures exists c :: c in f.kids[n] && m in Branch(f, c)
  {
    BelowSplits(f.parent, m, n);
    var c :| c in f.parent && f.parent[c] == n && Below(f.parent, m, c);
    assert c in f.kids[n];
  }

  // --- Branches of the first children ---

  ghost function Branches<T>(f: Shape<T>, roots: seq<T>): set<T> {
    if roots == [] then {} else Branch(f, roots[0]) + Branches(f, roots[1..])
  }

  lemma {:induction false} BranchesMember<T>(f: Shape<T>, roots: seq<T>, m: T)
    ensures m in Branches(f, roots) <==> exists i :: 0 <= i < |roots| && m in Branch(f, roots[i])
  {
    if roots != [] {
      BranchesMember(f, roots[1..], m);
      if m in Branches(f, roots[1..]) {
        var i :| 0 <= i < |roots[1..]| && m in Branch(f, roots[1..][i]);
        assert m in Branch(f, roots[i + 1]);
      }
      if i :| 0 <= i < |roots| && m in Branch(f, roots[i]) {
        if i > 0 { assert m in Branch(f, roots[1..][i - 1]); }
      }
    }
  }

  lemma BranchIsKidsBranches<T>(f: Shape<T>, n: T)
    requires IsForest(f) && n in f.nodes
    ensures Branch(f, n) == {n} + Branches(f, f.kids[n])
    ensures n !in Branches(f, f.kids[n])
  {
    BelowSelf(f.parent, n);
    var all, below := Branch(f, n), Branches(f, f.kids[n]);
    forall m | m in all ensures m in {n} + below {
      if m != n {
        BranchSplits(f, n, m);
        var c :| c in f.kids[n] && m in Branch(f, c);
        BranchesMember(f, f.kids[n], m);
      }
    }
    forall m | m in below ensures m in all && m != n {
      BranchesMember(f, f.kids[n], m);
      var i :| 0 <= i < |f.kids[n]| && m in Branch(f, f.kids[n][i]);
      ChildBranch(f, n, f.kids[n][i]);
    }
  }
}
