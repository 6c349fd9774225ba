/** What loading rows does to a forest, and the order in which the nodes are kept. */
module LoadOrder {
  import opened Wrappers
  import opened Forest
  import opened ForestChange
  import opened RowLayout

  /** The nodes of `s` whose parent is `p`, in order. */
  ghost function KidsAmong<T>(parent: map<T, T>, s: seq<T>, p: T): seq<T> {
    if s == [] then []
    else
      KidsAmong(parent, s[..|s| - 1], p) +
      if s[|s| - 1] in parent && parent[s[|s| - 1]] == p then s[|s| - 1..] else []
  }

  ghost function Parentless<T>(parent: map<T, T>, s: seq<T>): seq<T> {
    if s == [] then [] else Parentless(parent, s[..|s| - 1]) + if s[|s| - 1] in parent then [] else s[|s| - 1..]
  }

  /** `g` is `f` with the nodes `added`, each of them behind the children its parent has already. */
  ghost predicate Extends<T>(f: Shape<T>, g: Shape<T>, added: seq<T>) {
    && g.nodes == f.nodes + Elements(added) && g.kids.Keys == g.nodes
    && (forall m | m in f.nodes :: (m in g.parent <==> m in f.parent) && (m in f.parent ==> g.parent[m] == f.parent[m]))
    && (forall m | m in g.nodes :: KidsExtend(f, g, added, m))
  }

  /** Every parent stands before its children. */
  ghost predicate ParentsFirst<T>(parent: map<T, T>, s: seq<T>) {
    forall i | 0 <= i < |s| && s[i] in parent :: parent[s[i]] in s[..i]
  }

  lemma AddedParts<T>(f: Shape<T>, n: T, p: Option<T>)
    requires IsForest(f) && n !in f.nodes && (p.Some? ==> p.value in f.nodes)
    ensures var g := AddShape(f, n, p);
            && g.nodes == f.nodes + {n} && g.kids.Keys == g.nodes
            && (forall m | m in f.nodes ::
              (m in g.parent <==> m in f.parent) && (m in f.parent ==> g.parent[m] == f.parent[m]))
            && (if p.Some? then n in g.parent && g.parent[n] == p.value else n !in g.parent)
            && g.kids[n] == []
            && (forall m | m in f.nodes :: m in f.kids && g.kids[m] == f.kids[m] + if p == Some(m) then [n] else [])
  {
    assert n !in f.parent;
  }

  lemma AddedNodes<T>(f: Shape<T>, n: T, p: Option<T>)
    requires IsForest(f) && n !in f.nodes && (p.Some? ==> p.value in f.nodes)
    ensures AddShape(f, n, p).nodes == f.nodes + {n}
  {
  }

  lemma {:induction false} KidsAmongAgree<T>(a: map<T, T>, b: map<T, T>, s: seq<T>, p: T)
    requires forall m | m in s :: (m in a <==> m in b) && (m in a ==> a[m] == b[m])
    ensures KidsAmong(a, s, p) == KidsAmong(b, s, p)
  {
    if s != [] {
      assert s[|s| - 1] in s && forall m | m in s[..|s| - 1] :: m in s;
      KidsAmongAgree(a, b, s[..|s| - 1], p);
    }
  }

  lemma {:induction false} ParentlessAgree<T>(a: map<T, T>, b: map<T, T>, s: seq<T>)
    requires forall m | m in s :: m in a <==> m in b
    ensures Parentless(a, s) == Parentless(b, s)
  {
    if s != [] {
      assert s[|s| - 1] in s && forall m | m in s[..|s| - 1] :: m in s;
      ParentlessAgree(a, b, s[..|s| - 1]);
    }
  }

  lemma KidsAmongAppend<T>(parent: map<T, T>, s: seq<T>, n: T, p: T)
    ensures KidsAmong(parent, s + [n], p) == KidsAmong(parent, s, p) + if n in parent && parent[n] == p then [n] else []
    ensures Parentless(parent, s + [n]) == Parentless(parent, s) + if n in parent then [] else [n]
  {
    assert (s + [n])[..|s|] == s && (s + [n])[|s|..] == [n];
  }

  lemma {:induction false} KidsAmongNone<T>(parent: map<T, T>, s: seq<T>, p: T)
    requires forall m | m in s && m in parent :: parent[m] != p
    ensures KidsAmong(parent, s, p) == []
  {
    if s != [] {
      assert s[|s| - 1] in s && forall m | m in s[..|s| - 1] :: m in s;
      KidsAmongNone(parent, s[..|s| - 1], p);
    }
  }

  lemma ExtendsStart<T>(f: Shape<T>)
    requires IsForest(f)
    ensures Extends(f, f, [])
  {
    assert Elements<T>([]) == {};
    forall m | m in f.nodes ensures m in f.kids && KidsExtend(f, f, [], m) { assert m in f.kids.Keys; }
  }

  /** One more row continues the extension. */
  lemma ExtendsStep<T>(f: Shape<T>, g: Shape<T>, added: seq<T>, n: T, p: Option<T>)
    requires IsForest(f) && Extends(f, g, added)
    requires IsForest(g) && n !in g.nodes && (p.Some? ==> p.value in g.nodes)
    ensures Extends(f, AddShape(g, n, p), added + [n])
    ensures Parentless(AddShape(g, n, p).parent, added + [n]) ==
              Parentless(g.parent, added) + if p.Some? then [] else [n]
  {
    hide *;
    var h := AddShape(g, n, p);
    AddedParts(g, n, p);
    AddedElements(f, g, added, n);
    forall m | m in h.nodes ensures KidsExtend(f, h, added + [n], m) {
      KidsAmongAppend(h.parent, added, n, m);
      KidsAmongAgree(g.parent, h.parent, added, m);
      if m == n {
        KidsAmongNone(g.parent, added, n);
        KidsExtendFrom(f, h, added + [n], n);
      } else {
        KidsExtended(f, g, added, m);
        KidsExtendFrom(f, h, added + [n], m);
      }
    }
    KidsAmongAppend(h.parent, added, n, n);
    ParentlessAgree(g.parent, h.parent, added);
    ExtendsFrom(f, g, h, added + [n]);
  }

  ghost predicate KidsExtend<T>(f: Shape<T>, g: Shape<T>, added: seq<T>, m: T)
    requires m in g.kids
  {
    g.kids[m] == (if m in f.kids then f.kids[m] else []) + KidsAmong(g.parent, added, m)
  }

  lemma KidsExtended<T>(f: Shape<T>, g: Shape<T>, added: seq<T>, m: T)
    requires Extends(f, g, added) && m in g.nodes
    ensures m in g.kids && g.kids[m] == (if m in f.kids then f.kids[m] else []) + KidsAmong(g.parent, added, m)
  {
    assert KidsExtend(f, g, added, m);
  }

  lemma KidsExtendFrom<T>(f: Shape<T>, g: Shape<T>, added: seq<T>, m: T)
    requires m in g.kids && g.kids[m] == (if m in f.kids then f.kids[m] else []) + KidsAmong(g.parent, added, m)
    ensures KidsExtend(f, g, added, m)
  {
  }

  lemma ExtendsFrom<T>(f: Shape<T>, g: Shape<T>, h: Shape<T>, added: seq<T>)
    requires h.nodes == f.nodes + Elements(added) && h.kids.Keys == h.nodes
    requires forall m | m in g.nodes ::
                (m in h.parent <==> m in g.parent) && (m in g.parent ==> h.parent[m] == g.parent[m])
    requires f.nodes <= g.nodes
    requires forall m | m in f.nodes ::
                (m in g.parent <==> m in f.parent) && (m in f.parent ==> g.parent[m] == f.parent[m])
    requires forall m | m in h.nodes :: KidsExtend(f, h, added, m)
    ensures Extends(f, h, added)
  {
  }

  lemma AddedRoots<T>(f: Shape<T>, roots: seq<T>, n: T, p: Option<T>)
    requires IsForest(f) && n !in f.nodes && (p.Some? ==> p.value in f.nodes) && AreRoots(f, roots)
    ensures AreRoots(AddShape(f, n, p), roots + if p.Some? then [] else [n])
  {
    assert roots + [] == roots;
    AddedParts(f, n, p);
  }

  lemma AddedElements<T>(f: Shape<T>, g: Shape<T>, added: seq<T>, n: T)
    requires IsForest(f) && IsForest(g) && Extends(f, g, added) && n !in g.nodes
    ensures g.nodes + {n} == f.nodes + Elements(added + [n])
    ensures n !in f.kids && f.nodes <= g.nodes
    ensures forall m | m in added :: m in g.nodes && (m in g.parent ==> g.parent[m] != n)
    ensures forall m | m in f.nodes ::
               (m in g.parent <==> m in f.parent) && (m in f.parent ==> g.parent[m] == f.parent[m])
  {
    ElementsConcat(added, [n]);
    assert Elements([n]) == {n};
    forall m | m in added ensures m in g.nodes { assert m in Elements(added); }
  }

  /** Appending nodes whose parents are known keeps parents first. */
  lemma ParentsFirstAppend<T>(f: Shape<T>, s: seq<T>, n: T, p: Option<T>)
    requires IsForest(f) && n !in f.nodes && Elements(s) == f.nodes && (p.Some? ==> p.value in f.nodes)
    requires ParentsFirst(f.parent, s)
    ensures ParentsFirst(AddShape(f, n, p).parent, s + [n])
  {
    var parent := AddShape(f, n, p).parent;
    AddedParts(f, n, p);
    forall i | 0 <= i < |s + [n]| && (s + [n])[i] in parent ensures parent[(s + [n])[i]] in (s + [n])[..i] {
      if i < |s| {
        assert s[i] in Elements(s);
        assert (s + [n])[..i] == s[..i];
      } else {
        assert (s + [n])[..i] == s;
        assert p.value in Elements(s);
      }
    }
  }

  /** Removing a branch keeps parents first. */
  lemma {:induction false} ParentsFirstRemove<T>(f: Shape<T>, s: seq<T>, n: T)
    requires IsForest(f) && n in f.nodes && ParentsFirst(f.parent, s)
    ensures ParentsFirst(RemoveShape(f, n).parent, Remove(s, Branch(f, n)))
    decreases |s|
  {
    if s != [] {
      var before, last := ParentsFirstInitial(f.parent, s);
      ParentsFirstRemove(f, before, n);
      hide *;
      RemoveConcat(before, [last], Branch(f, n));
      LastFits(f, before, last, n);
    }
  }

  lemma ParentsFirstInitial<T>(parent: map<T, T>, s: seq<T>) returns (before: seq<T>, last: T)
    requires s != [] && ParentsFirst(parent, s)
    ensures s == before + [last] && ParentsFirst(parent, before) && (last in parent ==> parent[last] in before)
  {
    before, last := s[..|s| - 1], s[|s| - 1];
    forall i | 0 <= i < |before| && before[i] in parent ensures parent[before[i]] in before[..i] {
      assert before[..i] == s[..i];
    }
  }

  lemma LastFits<T>(f: Shape<T>, before: seq<T>, last: T, n: T)
    requires IsForest(f) && n in f.nodes && ParentsFirst(RemoveShape(f, n).parent, Remove(before, Branch(f, n)))
    requires last in f.parent ==> f.parent[last] in before
    ensures ParentsFirst(RemoveShape(f, n).parent, Remove(before, Branch(f, n)) + Remove([last], Branch(f, n)))
  {
    var gone, parent := Branch(f, n), RemoveShape(f, n).parent;
    var kept, all := Remove(before, gone), Remove(before, gone) + Remove([last], gone);
    RemovedParts(f, n);
    assert Remove([last], gone) == if last in gone then [] else [last];
    forall i | 0 <= i < |all| && all[i] in parent ensures parent[all[i]] in all[..i] {
      if i < |kept| {
        assert all[..i] == kept[..i];
      } else {
        assert all[..i] == kept && all[i] == last;
        ParentKept(f, n, last);
        RemoveMember(before, gone, f.parent[last]);
      }
    }
  }

  /** With parents first, all proper ancestors stand before a node. */
  lemma {:induction false} AncestorsFirst<T>(parent: map<T, T>, s: seq<T>, i: nat, k: nat)
    requires ParentsFirst(parent, s) && i < |s| && k > 0 && Climb(parent, s[i], k).Some?
    ensures Climb(parent, s[i], k).value in s[..i]
    decreases k
  {
    assert parent[s[i]] in s[..i];
    var j :| 0 <= j < i && s[j] == parent[s[i]];
    if k > 1 {
      AncestorsFirst(parent, s, j, k - 1);
    }
  }

  lemma ParentKept<T>(f: Shape<T>, n: T, m: T)
    requires IsForest(f) && m in f.parent && m !in Branch(f, n)
    ensures f.parent[m] !in Branch(f, n)
  {
    if f.parent[m] in Branch(f, n) {
      BelowParent(f.parent, m);
      BelowTransitive(f.parent, m, f.parent[m], n);
    }
  }

  // --- The lists of a tree while rows are loaded ---

  /** The list of nodes, the rows, the roots and the rows not hidden. */
  datatype Listing<T> = Listing(nodes: seq<T>, rows: seq<T>, roots: seq<T>, shown: set<T>)

  /** What has become of the forest `f` and the lists `start` once the nodes `added` are in place. */
  ghost predicate LoadedSoFar<T>(f: Shape<T>, start: Listing<T>, g: Shape<T>, now: Listing<T>, added: seq<T>, at: nat)
    requires at <= |start.rows|
  {
    && Extends(f, g, added)
    && now.nodes == start.nodes + added && now.rows == start.rows[..at] + added + start.rows[at..]
    && now.roots == start.roots + Parentless(g.parent, added) && now.shown == start.shown + Elements(added)
    && (AreRoots(f, start.roots) ==> AreRoots(g, now.roots))
    && (ParentsFirst(f.parent, start.nodes) ==> ParentsFirst(g.parent, now.nodes))
  }

  lemma LoadedStart<T>(f: Shape<T>, start: Listing<T>, at: nat)
    requires IsForest(f) && at <= |start.rows|
    ensures LoadedSoFar(f, start, f, start, [], at)
  {
    ExtendsStart(f);
    assert start.rows[..at] + [] + start.rows[at..] == start.rows;
    assert start.nodes + [] == start.nodes && start.roots + [] == start.roots;
    assert Elements<T>([]) == {} && start.shown + {} == start.shown;
  }

  lemma LoadStep<T>(f: Shape<T>, start: Listing<T>, g: Shape<T>, now: Listing<T>, added: seq<T>, at: nat, n: T,
                    p: Option<T>)
    requires IsForest(f) && at <= |start.rows| && LoadedSoFar(f, start, g, now, added, at)
    requires IsForest(g) && n !in g.nodes && (p.Some? ==> p.value in g.nodes)
    requires Elements(now.nodes) == g.nodes && at + |added| <= |now.rows|
    ensures LoadedSoFar(f, start, AddShape(g, n, p), Listing(
                now.nodes + [n],
                now.rows[..at + |added|] + [n] + now.rows[at + |added|..],
                now.roots + if p.Some? then [] else [n],
                now.shown + {n}), added + [n], at)
  {
    hide *;
    LoadedParts(f, start, g, now, added, at);
    ExtendsStep(f, g, added, n, p);
    LoadedLists(start, now, added, at, n, Parentless(g.parent, added), if p.Some? then [] else [n]);
    if AreRoots(f, start.roots) { AddedRoots(g, now.roots, n, p); }
    if ParentsFirst(f.parent, start.nodes) { ParentsFirstAppend(g, now.nodes, n, p); }
    LoadedFromParts(f, start, AddShape(g, n, p), Listing(
        now.nodes + [n], now.rows[..at + |added|] + [n] + now.rows[at + |added|..],
        now.roots + if p.Some? then [] else [n], now.shown + {n}), added + [n], at);
  }

  lemma LoadedParts<T>(f: Shape<T>, start: Listing<T>, g: Shape<T>, now: Listing<T>, added: seq<T>, at: nat)
    requires at <= |start.rows| && LoadedSoFar(f, start, g, now, added, at)
    ensures Extends(f, g, added)
    ensures now.nodes == start.nodes + added && now.rows == start.rows[..at] + added + start.rows[at..]
    ensures now.roots == start.roots + Parentless(g.parent, added) && now.shown == start.shown + Elements(added)
    ensures AreRoots(f, start.roots) ==> AreRoots(g, now.roots)
    ensures ParentsFirst(f.parent, start.nodes) ==> ParentsFirst(g.parent, now.nodes)
  {
  }

  lemma LoadedFromParts<T>(f: Shape<T>, start: Listing<T>, g: Shape<T>, now: Listing<T>, added: seq<T>, at: nat)
    requires at <= |start.rows| && Extends(f, g, added)
    requires now.nodes == start.nodes + added && now.rows == start.rows[..at] + added + start.rows[at..]
    requires now.roots == start.roots + Parentless(g.parent, added) && now.shown == start.shown + Elements(added)
    requires AreRoots(f, start.roots) ==> AreRoots(g, now.roots)
    requires ParentsFirst(f.parent, start.nodes) ==> ParentsFirst(g.parent, now.nodes)
    ensures LoadedSoFar(f, start, g, now, added, at)
  {
  }

  lemma LoadedLists<T>(start: Listing<T>, now: Listing<T>, added: seq<T>, at: nat, n: T, roots: seq<T>, root: seq<T>)
    requires at <= |start.rows| && now.nodes == start.nodes + added && now.roots == start.roots + roots
    requires now.rows == start.rows[..at] + added + start.rows[at..]
    ensures now.nodes + [n] == start.nodes + (added + [n]) && now.roots + root == start.roots + (roots + root)
    ensures now.rows[..at + |added|] + [n] + now.rows[at + |added|..] ==
               start.rows[..at] + (added + [n]) + start.rows[at..]
    ensures start.shown + Elements(added) + {n} == start.shown + Elements(added + [n])
  {
    ElementsConcat(added, [n]);
    assert Elements([n]) == {n};
  }
}
