/** The flat order of table rows: taking rows out, putting rows after another row, and blocks of rows. */
module RowLayout {
  import opened Forest

  ghost function Elements<T>(s: seq<T>): set<T> {
    set x | x in s
  }

  /** The rows that are not in `gone`, in order. */
  ghost function Remove<T>(s: seq<T>, gone: set<T>): (r: seq<T>)
    ensures |r| <= |s|
  {
    if s == [] then [] else (if s[0] in gone then [] else [s[0]]) + Remove(s[1..], gone)
  }

  /** `block` put directly after the first row `d`. */
  function InsertAfter<T(==)>(s: seq<T>, d: T, block: seq<T>): seq<T> {
    if s == [] then [] else if s[0] == d then [d] + block + s[1..] else [s[0]] + InsertAfter(s[1..], d, block)
  }

  // --- Preorder ---

  /** `n`, then the branches of its children in order. */
  ghost function Preorder<T>(f: Shape<T>, n: T): seq<T>
    requires IsForest(f) && n in f.nodes
    decreases Branch(f, n), 1, 0
  {
    [n] + PreorderKids(f, n, 0)
  }

  /** The branches of the children of `n` from number `i` on. */
  ghost function PreorderKids<T>(f: Shape<T>, n: T, i: nat): seq<T>
    requires IsForest(f) && n in f.nodes && i <= |f.kids[n]|
    decreases Branch(f, n), 0, |f.kids[n]| - i
  {
    if i == |f.kids[n]| then []
    else
      ChildBranch(f, n, f.kids[n][i]);
      Preorder(f, f.kids[n][i]) + PreorderKids(f, n, i + 1)
  }

  lemma {:induction false} PreorderElements<T>(f: Shape<T>, n: T)
    requires IsForest(f) && n in f.nodes
    ensures Elements(Preorder(f, n)) == Branch(f, n) && NoDup(Preorder(f, n))
    decreases Branch(f, n), 1, 0
  {
    PreorderKidsElements(f, n, 0);
    BranchIsKidsBranches(f, n);
    var rest := PreorderKids(f, n, 0);
    assert f.kids[n][0..] == f.kids[n];
    assert forall i | 0 <= i < |rest| :: rest[i] in Elements(rest);
    assert forall x | x in Preorder(f, n) :: x == n || x in Elements(rest);
    assert n in Preorder(f, n) && forall x | x in rest :: x in Preorder(f, n);
  }

  lemma {:induction false} PreorderKidsElements<T>(f: Shape<T>, n: T, i: nat)
    requires IsForest(f) && n in f.nodes && i <= |f.kids[n]|
    ensures Elements(PreorderKids(f, n, i)) == Branches(f, f.kids[n][i..]) && NoDup(PreorderKids(f, n, i))
    decreases Branch(f, n), 0, |f.kids[n]| - i
  {
    if i < |f.kids[n]| {
      var c := f.kids[n][i];
      ChildBranch(f, n, c);
      PreorderElements(f, c);
      PreorderKidsElements(f, n, i + 1);
      var kids := f.kids[n][i..];
      assert kids[1..] == f.kids[n][i + 1..];
      var a, b := Preorder(f, c), PreorderKids(f, n, i + 1);
      ElementsConcat(a, b);
      forall x | x in Elements(a) && x in Elements(b) ensures false {
        BranchesMember(f, kids[1..], x);
        var j :| 0 <= j < |kids[1..]| && x in Branch(f, kids[1..][j]);
        assert kids[1..][j] == f.kids[n][i + 1 + j];
        SiblingBranches(f, n, c, f.kids[n][i + 1 + j]);
      }
      NoDupConcat(a, b);
    }
  }

  lemma ElementsConcat<T>(a: seq<T>, b: seq<T>)
    ensures Elements(a + b) == Elements(a) + Elements(b)
  {
  }

  lemma NoDupConcat<T>(a: seq<T>, b: seq<T>)
    requires NoDup(a) && NoDup(b) && Elements(a) !! Elements(b)
    ensures NoDup(a + b)
  {
    forall i, j | 0 <= i < j < |a + b| ensures (a + b)[i] != (a + b)[j] {
      if i < |a| <= j { assert a[i] in Elements(a) && b[j - |a|] in Elements(b); }
    }
  }

  // --- Removing and inserting ---

  lemma {:induction false} RemoveConcat<T>(a: seq<T>, b: seq<T>, gone: set<T>)
    ensures Remove(a + b, gone) == Remove(a, gone) + Remove(b, gone)
  {
    if a == [] {
      assert a + b == b;
    } else {
      assert (a + b)[1..] == a[1..] + b;
      RemoveConcat(a[1..], b, gone);
    }
  }

  lemma {:induction false} RemoveMember<T>(s: seq<T>, gone: set<T>, x: T)
    ensures x in Remove(s, gone) <==> x in s && x !in gone
  {
    if s != [] { RemoveMember(s[1..], gone, x); }
  }

  lemma {:induction false} RemoveNothing<T>(s: seq<T>, gone: set<T>)
    requires Elements(s) !! gone
    ensures Remove(s, gone) == s
  {
    if s != [] {
      assert s[0] in Elements(s);
      forall x | x in Elements(s[1..]) ensures x !in gone { assert x in Elements(s); }
      RemoveNothing(s[1..], gone);
    }
  }

  lemma {:induction false} RemoveTwice<T>(s: seq<T>, a: set<T>, b: set<T>)
    ensures Remove(Remove(s, a), b) == Remove(s, a + b)
  {
    if s != [] {
      RemoveConcat(if s[0] in a then [] else [s[0]], Remove(s[1..], a), b);
      RemoveTwice(s[1..], a, b);
      assert Remove([s[0]], b) == if s[0] in b then [] else [s[0]];
    }
  }

  lemma {:induction false} RemoveAll<T>(s: seq<T>, gone: set<T>)
    requires Elements(s) <= gone
    ensures Remove(s, gone) == []
  {
    if s != [] {
      assert s[0] in Elements(s);
      forall x | x in Elements(s[1..]) ensures x in gone { assert x in Elements(s); }
      RemoveAll(s[1..], gone);
    }
  }

  /** Taking out rows other than `d` and inserting after `d` commute. */
  lemma {:induction false} RemoveInserted<T>(s: seq<T>, d: T, block: seq<T>, gone: set<T>)
    requires d !in gone
    ensures Remove(InsertAfter(s, d, block), gone) == InsertAfter(Remove(s, gone), d, Remove(block, gone))
  {
    if s == [] {
    } else if s[0] == d {
      RemoveConcat([d] + block, s[1..], gone);
      RemoveConcat([d], block, gone);
      assert Remove([d], gone) == [d];
      assert Remove(s, gone) == [d] + Remove(s[1..], gone);
    } else {
      var rest, kept := InsertAfter(s[1..], d, block), Remove(s[1..], gone);
      RemoveInserted(s[1..], d, block, gone);
      RemoveConcat([s[0]], rest, gone);
      assert Remove([s[0]], gone) == if s[0] in gone then [] else [s[0]];
      assert ([s[0]] + kept)[1..] == kept;
      assert Remove(s, gone) == if s[0] in gone then kept else [s[0]] + kept;
    }
  }

  /** Inserting after the head of a block just inserted lengthens the block. */
  lemma {:induction false} InsertIntoBlock<T>(s: seq<T>, d: T, n: T, block: seq<T>, more: seq<T>)
    requires n != d && n !in s
    ensures InsertAfter(InsertAfter(s, d, [n] + block), n, more) == InsertAfter(s, d, [n] + more + block)
  {
    if s == [] {
    } else if s[0] == d {
      var rest := s[1..];
      assert s == [d] + rest && ([n] + block) + rest == [n] + (block + rest);
      InsertHead(d, rest, [n] + block);
      InsertPast(d, n, [n] + (block + rest), more);
      InsertHead(n, block + rest, more);
      InsertHead(d, rest, [n] + more + block);
      assert [n] + (more + (block + rest)) == ([n] + more + block) + rest;
    } else {
      InsertPast(s[0], d, s[1..], [n] + block);
      InsertPast(s[0], n, InsertAfter(s[1..], d, [n] + block), more);
      InsertPast(s[0], d, s[1..], [n] + more + block);
      assert s == [s[0]] + s[1..];
      InsertIntoBlock(s[1..], d, n, block, more);
    }
  }

  lemma InsertHead<T>(d: T, rest: seq<T>, block: seq<T>)
    ensures InsertAfter([d] + rest, d, block) == [d] + (block + rest)
  {
    assert ([d] + rest)[1..] == rest;
  }

  lemma InsertPast<T>(x: T, d: T, rest: seq<T>, block: seq<T>)
    requires x != d
    ensures InsertAfter([x] + rest, d, block) == [x] + InsertAfter(rest, d, block)
  {
    assert ([x] + rest)[1..] == rest;
  }

  lemma {:induction false} InsertConcat<T>(a: seq<T>, b: seq<T>, d: T, block: seq<T>)
    ensures d in a ==> InsertAfter(a + b, d, block) == InsertAfter(a, d, block) + b
    ensures d !in a ==> InsertAfter(a + b, d, block) == a + InsertAfter(b, d, block)
  {
    if a == [] {
      assert a + b == b;
    } else {
      assert (a + b)[1..] == a[1..] + b;
      InsertConcat(a[1..], b, d, block);
    }
  }

  lemma {:induction false} InsertMember<T>(s: seq<T>, d: T, block: seq<T>, x: T)
    ensures x in InsertAfter(s, d, block) <==> x in s || (d in s && x in block)
  {
    if s != [] && s[0] != d { InsertMember(s[1..], d, block, x); }
  }

  lemma {:induction false} InsertMultiset<T>(s: seq<T>, d: T, block: seq<T>)
    requires d in s
    ensures multiset(InsertAfter(s, d, block)) == multiset(s) + multiset(block)
  {
    assert s == [s[0]] + s[1..];
    if s[0] != d { InsertMultiset(s[1..], d, block); }
  }

  lemma {:induction false} RemoveMultiset<T>(s: seq<T>, gone: set<T>, part: seq<T>)
    requires NoDup(s) && NoDup(part) && Elements(part) == gone && gone <= Elements(s)
    ensures multiset(Remove(s, gone)) + multiset(part) == multiset(s)
  {
    RemoveNoDup(s, gone);
    NoDupMultiset(s);
    NoDupMultiset(part);
    NoDupMultiset(Remove(s, gone));
    var kept := Elements(s) - gone;
    forall x | x in Remove(s, gone) ensures x in kept {
      RemoveMember(s, gone, x);
    }
    forall x | x in kept ensures x in Elements(Remove(s, gone)) {
      RemoveMember(s, gone, x);
    }
    assert Elements(Remove(s, gone)) == kept;
    assert kept + gone == Elements(s);
  }

  lemma {:induction false} RemoveNoDup<T>(s: seq<T>, gone: set<T>)
    requires NoDup(s)
    ensures NoDup(Remove(s, gone))
  {
    if s != [] {
      RemoveNoDup(s[1..], gone);
      RemoveMember(s[1..], gone, s[0]);
      assert s[0] !in s[1..];
    }
  }

  lemma {:induction false} NoDupMultiset<T>(s: seq<T>)
    requires NoDup(s)
    ensures multiset(s) == multiset(Elements(s))
  {
    if s != [] {
      assert s == [s[0]] + s[1..];
      NoDupMultiset(s[1..]);
      assert s[0] !in s[1..];
      assert Elements(s) == {s[0]} + Elements(s[1..]);
    }
  }
}
