/** The block layout of a tree table: the rows of every branch are contiguous and headed by its root. */
module RowBlocks {
  import opened Forest
  import opened ForestChange
  import opened RowLayout

  ghost predicate BlockAt<T>(rows: seq<T>, n: T, members: set<T>, i: nat, j: nat) {
    i < j <= |rows| && rows[i] == n && Elements(rows[i..j]) == members
  }

  /** The rows in `members` are contiguous, and `n` is the first of them. */
  ghost predicate Block<T>(rows: seq<T>, n: T, members: set<T>) {
    exists i: nat, j: nat :: BlockAt(rows, n, members, i, j)
  }

  ghost predicate BlockLayout<T>(f: Shape<T>, rows: seq<T>)
    requires IsForest(f)
  {
    NoDup(rows) && forall n | n in f.nodes :: Block(rows, n, Branch(f, n))
  }

  lemma BlockFrom<T>(rows: seq<T>, n: T, members: set<T>, before: seq<T>, block: seq<T>, after: seq<T>)
    requires rows == before + block + after && block != [] && block[0] == n && Elements(block) == members
    ensures Block(rows, n, members)
  {
    var i, j := |before|, |before| + |block|;
    assert rows[i..j] == block;
    assert BlockAt(rows, n, members, i, j);
  }

  lemma BlockWithin<T>(rows: seq<T>, before: seq<T>, inner: seq<T>, after: seq<T>, m: T, members: set<T>)
    requires rows == before + inner + after && Block(inner, m, members)
    ensures Block(rows, m, members)
  {
    var i: nat, j: nat :| BlockAt(inner, m, members, i, j);
    assert rows[|before| + i..|before| + j] == inner[i..j];
    assert BlockAt(rows, m, members, |before| + i, |before| + j);
  }

  /** Taking rows out and putting others after `d` leaves every block a block, changed by those rows. */
  lemma EditKeepsBlock<T>(rows: seq<T>, m: T, members: set<T>, gone: set<T>, d: T, block: seq<T>)
    requires NoDup(rows) && Block(rows, m, members) && m !in gone && d !in gone && d in rows
    ensures Block(InsertAfter(Remove(rows, gone), d, block), m,
                  if d in members then (members - gone) + Elements(block) else members - gone)
  {
    var i: nat, j: nat :| BlockAt(rows, m, members, i, j);
    var (x, b, y) := (rows[..i], rows[i..j], rows[j..]);
    assert rows == (x + b) + y;
    RemoveConcat(x + b, y, gone);
    RemoveConcat(x, b, gone);
    var (x', b', y') := (Remove(x, gone), Remove(b, gone), Remove(y, gone));
    RemoveElements(b, gone);
    RemovedHead(b, gone);
    InsertConcat(x' + b', y', d, block);
    InsertConcat(x', b', d, block);
    RemoveMember(x, gone, d);
    RemoveMember(b, gone, d);
    if d in b {
      assert d !in x by { SplitDisjoint(rows, i, j, d); }
      InsertElements(b', d, block);
      BlockFrom(InsertAfter(Remove(rows, gone), d, block), m, (members - gone) + Elements(block),
                x', InsertAfter(b', d, block), y');
    } else if d in x {
      BlockFrom(InsertAfter(Remove(rows, gone), d, block), m, members - gone, InsertAfter(x', d, block), b', y');
    } else {
      assert InsertAfter((x' + b') + y', d, block) == x' + b' + InsertAfter(y', d, block);
      BlockFrom(InsertAfter(Remove(rows, gone), d, block), m, members - gone, x', b', InsertAfter(y', d, block));
    }
  }

  lemma SplitDisjoint<T>(rows: seq<T>, i: nat, j: nat, d: T)
    requires NoDup(rows) && i <= j <= |rows| && d in rows[i..j]
    ensures d !in rows[..i]
  {
  }

  lemma RemoveElements<T>(s: seq<T>, gone: set<T>)
    ensures Elements(Remove(s, gone)) == Elements(s) - gone
  {
    forall x | x in s && x !in gone ensures x in Remove(s, gone) { RemoveMember(s, gone, x); }
    forall x | x in Remove(s, gone) ensures x in s && x !in gone { RemoveMember(s, gone, x); }
  }

  lemma RemovedHead<T>(s: seq<T>, gone: set<T>)
    requires s != [] && s[0] !in gone
    ensures Remove(s, gone) != [] && Remove(s, gone)[0] == s[0]
  {
  }

  lemma InsertElements<T>(s: seq<T>, d: T, block: seq<T>)
    requires d in s
    ensures Elements(InsertAfter(s, d, block)) == Elements(s) + Elements(block)
    ensures InsertAfter(s, d, block) != [] && InsertAfter(s, d, block)[0] == s[0]
  {
    var r := InsertAfter(s, d, block);
    forall x | x in r ensures x in s || x in block { InsertMember(s, d, block, x); }
    forall x | x in s || x in block ensures x in r { InsertMember(s, d, block, x); }
  }

  /** A block inside the inserted rows is a block of the result. */
  lemma InsertedBlock<T>(rows: seq<T>, d: T, block: seq<T>, m: T, members: set<T>)
    requires d in rows && Block(block, m, members)
    ensures Block(InsertAfter(rows, d, block), m, members)
  {
    var before, after := InsertedBetween(rows, d, block);
    BlockWithin(InsertAfter(rows, d, block), before, block, after, m, members);
  }

  lemma {:induction false} InsertedBetween<T>(rows: seq<T>, d: T, block: seq<T>) returns (before: seq<T>, after: seq<T>)
    requires d in rows
    ensures InsertAfter(rows, d, block) == before + block + after
    ensures rows == before + after && before != [] && before[|before| - 1] == d
  {
    if rows[0] == d {
      before, after := [d], rows[1..];
    } else {
      before, after := InsertedBetween(rows[1..], d, block);
      before := [rows[0]] + before;
    }
  }

  /** In the preorder of a branch, every branch inside it is a block. */
  lemma {:induction false} PreorderBlocks<T>(f: Shape<T>, n: T, m: T)
    requires IsForest(f) && n in f.nodes && m in Branch(f, n)
    ensures Block(Preorder(f, n), m, Branch(f, m))
    decreases Branch(f, n)
  {
    PreorderElements(f, n);
    if m == n {
      assert Preorder(f, n) == [] + Preorder(f, n) + [];
      BlockFrom(Preorder(f, n), n, Branch(f, n), [], Preorder(f, n), []);
    } else {
      BranchSplits(f, n, m);
      var c :| c in f.kids[n] && m in Branch(f, c);
      ChildBranch(f, n, c);
      PreorderBlocks(f, c, m);
      var before, after := ChildInPreorder(f, n, c);
      BlockWithin(Preorder(f, n), before, Preorder(f, c), after, m, Branch(f, m));
    }
  }

  lemma ChildInPreorder<T>(f: Shape<T>, n: T, c: T) returns (before: seq<T>, after: seq<T>)
    requires IsForest(f) && n in f.nodes && c in f.kids[n]
    ensures c in f.nodes && Preorder(f, n) == before + Preorder(f, c) + after
  {
    var i :| 0 <= i < |f.kids[n]| && f.kids[n][i] == c;
    before, after := PreorderKidsContains(f, n, 0, i);
    before := [n] + before;
  }

  lemma {:induction false} PreorderKidsContains<T>(f: Shape<T>, n: T, i: nat, j: nat)
    returns (before: seq<T>, after: seq<T>)
    requires IsForest(f) && n in f.nodes && i <= j < |f.kids[n]|
    ensures f.kids[n][j] in f.nodes
    ensures PreorderKids(f, n, i) == before + Preorder(f, f.kids[n][j]) + after
    decreases j - i
  {
    ChildBranch(f, n, f.kids[n][i]);
    if i == j {
      before, after := [], PreorderKids(f, n, i + 1);
    } else {
      before, after := PreorderKidsContains(f, n, i + 1, j);
      before := Preorder(f, f.kids[n][i]) + before;
    }
  }

  // --- Moving ---

  ghost function MovedRows<T>(f: Shape<T>, rows: seq<T>, n: T, d: T): seq<T>
    requires IsForest(f) && n in f.nodes
  {
    InsertAfter(Remove(rows, Branch(f, n)), d, Preorder(f, n))
  }

  /** A moved branch stands directly behind its destination, in preorder; the other rows keep their order. */
  lemma MovedBehind<T>(f: Shape<T>, rows: seq<T>, n: T, d: T) returns (x: seq<T>, y: seq<T>)
    requires MayMove(f, n, d) && d in rows
    ensures Remove(rows, Branch(f, n)) == x + y && x != [] && x[|x| - 1] == d
    ensures MovedRows(f, rows, n, d) == x + Preorder(f, n) + y
  {
    RemoveMember(rows, Branch(f, n), d);
    x, y := InsertedBetween(Remove(rows, Branch(f, n)), d, Preorder(f, n));
  }

  lemma NodesHaveRows<T>(f: Shape<T>, rows: seq<T>)
    requires IsForest(f) && BlockLayout(f, rows)
    ensures f.nodes <= Elements(rows)
  {
    forall n | n in f.nodes ensures n in rows {
      assert Block(rows, n, Branch(f, n));
    }
  }

  lemma {:induction false} InsertNoDup<T>(s: seq<T>, d: T, block: seq<T>)
    requires NoDup(s) && NoDup(block) && Elements(s) !! Elements(block)
    ensures NoDup(InsertAfter(s, d, block))
  {
    if s == [] {
    } else if s[0] == d {
      assert d in Elements(s) && forall x | x in s[1..] :: x in Elements(s) && x != d;
      assert NoDup([d] + block) by {
        forall j | 0 <= j < |block| ensures block[j] != d { assert block[j] in Elements(block); }
      }
      NoDupConcat([d] + block, s[1..]);
    } else {
      InsertNoDup(s[1..], d, block);
      forall j | 0 <= j < |InsertAfter(s[1..], d, block)| ensures InsertAfter(s[1..], d, block)[j] != s[0] {
        InsertMember(s[1..], d, block, InsertAfter(s[1..], d, block)[j]);
        assert s[0] in Elements(s);
      }
    }
  }

  /** Replacing `gone` by the same rows in another order, after `d`, permutes the rows. */
  lemma EditPermutes<T>(rows: seq<T>, gone: set<T>, d: T, block: seq<T>)
    requires NoDup(rows) && d in rows && d !in gone && gone <= Elements(rows)
    requires NoDup(block) && Elements(block) == gone
    ensures NoDup(InsertAfter(Remove(rows, gone), d, block))
    ensures multiset(InsertAfter(Remove(rows, gone), d, block)) == multiset(rows)
  {
    RemoveMember(rows, gone, d);
    InsertMultiset(Remove(rows, gone), d, block);
    RemoveMultiset(rows, gone, block);
    RemoveElements(rows, gone);
    RemoveNoDup(rows, gone);
    InsertNoDup(Remove(rows, gone), d, block);
  }

  /** Moving a branch permutes the rows and keeps every branch a block, including the ones it left and joined. */
  lemma MoveKeepsBlocks<T>(f: Shape<T>, rows: seq<T>, n: T, d: T)
    requires MayMove(f, n, d) && BlockLayout(f, rows)
    ensures IsForest(MoveShape(f, n, d)) && BlockLayout(MoveShape(f, n, d), MovedRows(f, rows, n, d))
    ensures multiset(MovedRows(f, rows, n, d)) == multiset(rows)
  {
    var g, gone, moved := MoveShape(f, n, d), Branch(f, n), Preorder(f, n);
    MoveKeepsForest(f, n, d);
    NodesHaveRows(f, rows);
    PreorderElements(f, n);
    EditPermutes(rows, gone, d, moved);
    forall m | m in g.nodes ensures Block(MovedRows(f, rows, n, d), m, Branch(g, m)) {
      MoveKeepsBlock(f, rows, n, d, m);
    }
  }

  lemma MoveKeepsBlock<T>(f: Shape<T>, rows: seq<T>, n: T, d: T, m: T)
    requires MayMove(f, n, d) && BlockLayout(f, rows) && m in f.nodes
    ensures Block(MovedRows(f, rows, n, d), m, Branch(MoveShape(f, n, d), m))
  {
    var gone := Branch(f, n);
    NodesHaveRows(f, rows);
    MoveBranch(f, n, d, m);
    if m in gone {
      PreorderBlocks(f, n, m);
      RemoveMember(rows, gone, d);
      InsertedBlock(Remove(rows, gone), d, Preorder(f, n), m, Branch(f, m));
    } else {
      assert Block(rows, m, Branch(f, m));
      PreorderElements(f, n);
      EditKeepsBlock(rows, m, Branch(f, m), gone, d, Preorder(f, n));
      assert d in Branch(f, m) ==> (Branch(f, m) - gone) + gone == Branch(f, m) + gone;
    }
  }

  // --- Removing ---

  /** Taking the rows of a branch out keeps every other branch a block. */
  lemma RemoveKeepsBlocks<T>(f: Shape<T>, rows: seq<T>, n: T)
    requires IsForest(f) && n in f.nodes && BlockLayout(f, rows)
    ensures IsForest(RemoveShape(f, n)) && BlockLayout(RemoveShape(f, n), Remove(rows, Branch(f, n)))
  {
    hide *;
    var g := RemoveShape(f, n);
    RemoveKeepsForest(f, n);
    RemovedParts(f, n);
    var i, j := BlockOf(f, rows, n);
    RemoveNoDup(rows, Branch(f, n));
    forall m | m in g.nodes ensures Block(Remove(rows, Branch(f, n)), m, Branch(g, m)) {
      RemoveBranch(f, n, m);
      var i, j := BlockOf(f, rows, m);
      RemoveKeepsBlock(rows, m, Branch(f, m), Branch(f, n), i, j);
    }
    LayoutFromBlocks(g, Remove(rows, Branch(f, n)));
  }

  lemma RemoveKeepsBlock<T>(rows: seq<T>, m: T, members: set<T>, gone: set<T>, i: nat, j: nat)
    requires BlockAt(rows, m, members, i, j) && m !in gone
    ensures Block(Remove(rows, gone), m, members - gone)
  {
    var (x, b, y) := (rows[..i], rows[i..j], rows[j..]);
    assert rows == (x + b) + y;
    RemoveConcat(x + b, y, gone);
    RemoveConcat(x, b, gone);
    RemoveElements(b, gone);
    RemovedHead(b, gone);
    BlockFrom(Remove(rows, gone), m, members - gone, Remove(x, gone), Remove(b, gone), Remove(y, gone));
  }

  // --- Sorting ---

  /** The same forest with the children of `n` in another order. */
  ghost function SortShape<T>(f: Shape<T>, n: T, sorted: seq<T>): Shape<T> {
    f.(kids := f.kids[n := sorted])
  }

  lemma SortKeepsForest<T>(f: Shape<T>, n: T, sorted: seq<T>)
    requires IsForest(f) && n in f.nodes && NoDup(sorted) && Elements(sorted) == Elements(f.kids[n])
    ensures IsForest(SortShape(f, n, sorted))
    ensures forall m :: Branch(SortShape(f, n, sorted), m) == Branch(f, m)
  {
    assert forall c :: c in sorted <==> c in Elements(f.kids[n]);
  }

  ghost function SortedRows<T>(f: Shape<T>, rows: seq<T>, n: T): seq<T>
    requires IsForest(f) && n in f.nodes
  {
    InsertAfter(Remove(rows, Branch(f, n) - {n}), n, PreorderKids(f, n, 0))
  }

  lemma KidsRows<T>(f: Shape<T>, n: T)
    requires IsForest(f) && n in f.nodes
    ensures Elements(PreorderKids(f, n, 0)) == Branch(f, n) - {n} && NoDup(PreorderKids(f, n, 0))
  {
    PreorderKidsElements(f, n, 0);
    BranchIsKidsBranches(f, n);
    assert f.kids[n][0..] == f.kids[n];
  }

  /**
   * Bringing the rows of a branch into the order of the children arrays: the branch's rows become its
   * preorder where they were, and every branch stays a block.
   */
  lemma SortGivesPreorder<T>(f: Shape<T>, rows: seq<T>, n: T)
    returns (before: seq<T>, block: seq<T>, after: seq<T>)
    requires IsForest(f) && n in f.nodes && BlockLayout(f, rows)
    ensures rows == before + block + after && |block| == |Preorder(f, n)| && Elements(block) == Branch(f, n)
    ensures SortedRows(f, rows, n) == before + Preorder(f, n) + after
    ensures BlockLayout(f, SortedRows(f, rows, n))
    ensures multiset(SortedRows(f, rows, n)) == multiset(rows)
  {
    hide *;
    var i: nat, j: nat := BlockOf(f, rows, n);
    before, block, after := rows[..i], rows[i..j], rows[j..];
    NodesHaveRows(f, rows);
    KidsRows(f, n);
    SortPermutes(f, rows, n);
    forall m | m in f.nodes ensures Block(SortedRows(f, rows, n), m, Branch(f, m)) {
      SortKeepsBlock(f, rows, n, m);
    }
    LayoutFromBlocks(f, SortedRows(f, rows, n));
    SortInPlace(f, rows, n, i, j);
    BlockSize(f, n, block);
  }

  lemma BlockOf<T>(f: Shape<T>, rows: seq<T>, n: T) returns (i: nat, j: nat)
    requires IsForest(f) && n in f.nodes && BlockLayout(f, rows)
    ensures i < j <= |rows| && BlockAt(rows, n, Branch(f, n), i, j)
    ensures NoDup(rows) && NoDup(rows[i..j]) && Elements(rows[i..j]) == Branch(f, n)
  {
    assert Block(rows, n, Branch(f, n));
    i, j :| BlockAt(rows, n, Branch(f, n), i, j);
  }

  lemma SortPermutes<T>(f: Shape<T>, rows: seq<T>, n: T)
    requires IsForest(f) && n in f.nodes && BlockLayout(f, rows)
    ensures NoDup(rows) && NoDup(SortedRows(f, rows, n)) && multiset(SortedRows(f, rows, n)) == multiset(rows)
  {
    NodesHaveRows(f, rows);
    KidsRows(f, n);
    EditPermutes(rows, Branch(f, n) - {n}, n, PreorderKids(f, n, 0));
  }

  lemma LayoutFromBlocks<T>(f: Shape<T>, rows: seq<T>)
    requires IsForest(f) && NoDup(rows) && forall n | n in f.nodes :: Block(rows, n, Branch(f, n))
    ensures BlockLayout(f, rows)
  {
  }

  lemma BlockSize<T>(f: Shape<T>, n: T, block: seq<T>)
    requires IsForest(f) && n in f.nodes && NoDup(block) && Elements(block) == Branch(f, n)
    ensures |block| == |Preorder(f, n)|
  {
    PreorderElements(f, n);
    NoDupMultiset(block);
    NoDupMultiset(Preorder(f, n));
    assert |multiset(block)| == |multiset(Preorder(f, n))|;
  }

  lemma SortKeepsBlock<T>(f: Shape<T>, rows: seq<T>, n: T, m: T)
    requires IsForest(f) && n in f.nodes && m in f.nodes && BlockLayout(f, rows)
    ensures Block(SortedRows(f, rows, n), m, Branch(f, m))
  {
    var gone, kids := Branch(f, n) - {n}, PreorderKids(f, n, 0);
    NodesHaveRows(f, rows);
    KidsRows(f, n);
    if m in gone {
      BranchSplits(f, n, m);
      var c :| c in f.kids[n] && m in Branch(f, c);
      var k :| 0 <= k < |f.kids[n]| && f.kids[n][k] == c;
      ChildBranch(f, n, c);
      PreorderBlocks(f, c, m);
      var pre, post := PreorderKidsContains(f, n, 0, k);
      BlockWithin(kids, pre, Preorder(f, c), post, m, Branch(f, m));
      RemoveMember(rows, gone, n);
      InsertedBlock(Remove(rows, gone), n, kids, m, Branch(f, m));
    } else {
      assert Block(rows, m, Branch(f, m));
      EditKeepsBlock(rows, m, Branch(f, m), gone, n, kids);
      if n in Branch(f, m) {
        forall x | x in gone ensures x in Branch(f, m) { BelowTransitive(f.parent, x, n, m); }
        assert (Branch(f, m) - gone) + gone == Branch(f, m);
      } else {
        forall x | x in gone && x in Branch(f, m) ensures false {
          BelowLinear(f.parent, x, n, m);
        }
        assert Branch(f, m) - gone == Branch(f, m);
      }
    }
  }

  lemma SortInPlace<T>(f: Shape<T>, rows: seq<T>, n: T, i: nat, j: nat)
    requires IsForest(f) && n in f.nodes && NoDup(rows) && BlockAt(rows, n, Branch(f, n), i, j)
    ensures SortedRows(f, rows, n) == rows[..i] + Preorder(f, n) + rows[j..]
  {
    var gone := Branch(f, n) - {n};
    var (x, b, y) := (rows[..i], rows[i..j], rows[j..]);
    assert rows == x + ([n] + b[1..]) + y;
    BlockMembers(rows, n, Branch(f, n), i, j);
    EditInPlace(x, n, b[1..], y, gone, PreorderKids(f, n, 0));
  }

  lemma BlockMembers<T>(rows: seq<T>, n: T, members: set<T>, i: nat, j: nat)
    requires NoDup(rows) && BlockAt(rows, n, members, i, j)
    ensures Elements(rows[i..j][1..]) <= members - {n} && n !in rows[..i]
    ensures Elements(rows[..i]) !! members && Elements(rows[j..]) !! members
  {
    var b := rows[i..j];
    forall e | e in b[1..] ensures e in members && e != n { assert e in Elements(b); }
    assert n in b;
    BlockApart(rows, i, j, n);
    forall e | e in members ensures e !in rows[..i] && e !in rows[j..] {
      assert e in Elements(b);
      BlockApart(rows, i, j, e);
    }
  }

  lemma EditInPlace<T>(x: seq<T>, n: T, part: seq<T>, y: seq<T>, gone: set<T>, block: seq<T>)
    requires Elements(x) !! gone && Elements(y) !! gone && Elements(part) <= gone && n !in gone && n !in x
    ensures InsertAfter(Remove(x + ([n] + part) + y, gone), n, block) == x + ([n] + block) + y
  {
    SingleElement(n);
    hide *;
    RemoveConcat(x + ([n] + part), y, gone);
    RemoveConcat(x, [n] + part, gone);
    RemoveConcat([n], part, gone);
    RemoveNothing(x, gone);
    RemoveNothing(y, gone);
    RemoveNothing([n], gone);
    RemoveAll(part, gone);
    assert Remove(x + ([n] + part) + y, gone) == x + ([n] + y);
    InsertConcat(x, [n] + y, n, block);
    InsertHead(n, y, block);
    assert x + ([n] + (block + y)) == x + ([n] + block) + y;
  }

  lemma SingleElement<T>(n: T)
    ensures Elements([n]) == {n}
  {
  }

  lemma BlockApart<T>(rows: seq<T>, i: nat, j: nat, e: T)
    requires NoDup(rows) && i <= j <= |rows| && e in rows[i..j]
    ensures e !in rows[..i] && e !in rows[j..]
  {
  }
}
