/**
 * Whole walks over a connection: a client follows end cursors forwards, or start cursors backwards,
 * until there is no further page, while rows come and go between the requests.
 */
module ConnectionWalks {
  import opened Wrappers
  import opened EntityQueries
  import opened PageSpec
  import opened EntityConnections

  /** One request of a walk: the rows at that moment, the page size, and the answer. */
  datatype Visit = Visit(rows: seq<Node>, limit: int, nodes: seq<Node>, info: PageInfo)

  function ForwardRequest(limit: int, after: Option<CursorText>, reverse: bool): Pagination {
    Pagination(Some(limit), after, None, None, reverse)
  }

  function BackwardRequest(limit: int, before: Option<CursorText>, reverse: bool): Pagination {
    Pagination(None, None, Some(limit), before, reverse)
  }

  /** The visit records what `Nodes` and `GetPageInfo` return for request `p`. */
  ghost predicate Answered(l: Listing, p: Pagination, v: Visit) {
    && Acceptable(p) && DistinctIds(v.rows) && StartKey(l, p).Ok?
    && forall d :: IsDisplay(l, v.rows, p.reverse, d) ==>
                     && v.nodes == PageOf(l, d, p, StartKey(l, p).value)
                     && v.info == PageInfoOf(l, d, p, StartKey(l, p).value)
  }

  function ForwardStep(walk: seq<Visit>, i: nat, reverse: bool): Pagination
    requires i < |walk|
  {
    ForwardRequest(walk[i].limit, if i == 0 then None else walk[i - 1].info.endCursor, reverse)
  }

  function BackwardStep(walk: seq<Visit>, i: nat, reverse: bool): Pagination
    requires i < |walk|
  {
    BackwardRequest(walk[i].limit, if i == 0 then None else walk[i - 1].info.startCursor, reverse)
  }

  ghost predicate ForwardAnswered(l: Listing, reverse: bool, walk: seq<Visit>, i: nat)
    requires i < |walk|
  {
    Answered(l, ForwardStep(walk, i, reverse), walk[i])
  }

  ghost predicate BackwardAnswered(l: Listing, reverse: bool, walk: seq<Visit>, i: nat)
    requires i < |walk|
  {
    Answered(l, BackwardStep(walk, i, reverse), walk[i])
  }

  ghost predicate CompletedForwardWalk(l: Listing, reverse: bool, walk: seq<Visit>) {
    && walk != []
    && (forall i :: 0 <= i < |walk| ==> ForwardAnswered(l, reverse, walk, i))
    && (forall i :: 0 <= i < |walk| - 1 ==> walk[i].info.hasNextPage)
    && !walk[|walk| - 1].info.hasNextPage
  }

  ghost predicate CompletedBackwardWalk(l: Listing, reverse: bool, walk: seq<Visit>) {
    && walk != []
    && (forall i :: 0 <= i < |walk| ==> BackwardAnswered(l, reverse, walk, i))
    && (forall i :: 0 <= i < |walk| - 1 ==> walk[i].info.hasPreviousPage)
    && !walk[|walk| - 1].info.hasPreviousPage
  }

  /** Everything a forward walk returned, in the order in which it arrived. */
  function Returned(walk: seq<Visit>): seq<Node> {
    if walk == [] then [] else walk[0].nodes + Returned(walk[1..])
  }

  /** Everything a backward walk returned: each page goes in front of the pages before it. */
  function ReturnedBackward(walk: seq<Visit>): seq<Node> {
    if walk == [] then [] else ReturnedBackward(walk[1..]) + walk[0].nodes
  }

  ghost predicate HasKey(l: Listing, nodes: seq<Node>, k: Key) {
    exists node :: node in nodes && KeyOf(l, node) == k
  }

  // --- The core: pages cut off the front of changing sorted lists ---

  /** `pages` are cut from the front of the part of each list that lies beyond the page before it. */
  ghost predicate Cuts(l: Listing, ascending: bool, lists: seq<seq<Node>>, pages: seq<seq<Node>>, start: Option<Key>)
    requires |lists| == |pages|
    decreases |pages|
  {
    pages != [] ==>
      && StrictlySorted(l, ascending, lists[0])
      && pages[0] <= After(l, ascending, lists[0], start)
      && if |pages| == 1 then pages[0] == After(l, ascending, lists[0], start)
         else pages[0] != [] && Cuts(l, ascending, lists[1..], pages[1..], Some(KeyOf(l, pages[0][|pages[0]| - 1])))
  }

  function Flatten(pages: seq<seq<Node>>): seq<Node> {
    if pages == [] then [] else pages[0] + Flatten(pages[1..])
  }

  lemma {:induction false} CutsSorted(l: Listing, ascending: bool, lists: seq<seq<Node>>, pages: seq<seq<Node>>,
                                      start: Option<Key>)
    requires |lists| == |pages| && Cuts(l, ascending, lists, pages, start)
    ensures StrictlySorted(l, ascending, Flatten(pages))
    ensures forall node :: node in Flatten(pages) && start.Some? ==> KeyBefore(ascending, start.value, KeyOf(l, node))
    decreases |pages|
  {
    if pages != [] {
      var page := pages[0];
      FirstPageSorted(l, ascending, lists[0], page, start);
      if |pages| == 1 {
        assert Flatten(pages) == page + Flatten([]) == page;
      } else {
        CutsSorted(l, ascending, lists[1..], pages[1..], Some(KeyOf(l, page[|page| - 1])));
        hide *;
        JoinedSorted(l, ascending, page, Flatten(pages[1..]), start);
        FlattenStep(pages);
      }
    }
  }

  lemma FlattenStep(pages: seq<seq<Node>>)
    requires pages != []
    ensures Flatten(pages) == pages[0] + Flatten(pages[1..])
  {
  }

  lemma FirstPageSorted(l: Listing, ascending: bool, list: seq<Node>, page: seq<Node>, start: Option<Key>)
    requires StrictlySorted(l, ascending, list) && page <= After(l, ascending, list, start)
    ensures StrictlySorted(l, ascending, page)
    ensures forall node :: node in page && start.Some? ==> KeyBefore(ascending, start.value, KeyOf(l, node))
  {
    AfterSorted(l, ascending, ascending, list, start);
    hide After;
    assert forall i :: 0 <= i < |page| ==> page[i] == After(l, ascending, list, start)[i];
  }

  /** What follows the last element of a page may be put behind it. */
  lemma JoinedSorted(l: Listing, ascending: bool, page: seq<Node>, rest: seq<Node>, start: Option<Key>)
    requires page != [] && StrictlySorted(l, ascending, page) && StrictlySorted(l, ascending, rest)
    requires forall node :: node in page && start.Some? ==> KeyBefore(ascending, start.value, KeyOf(l, node))
    requires forall node :: node in rest ==> KeyBefore(ascending, KeyOf(l, page[|page| - 1]), KeyOf(l, node))
    ensures StrictlySorted(l, ascending, page + rest)
    ensures forall node :: node in page + rest && start.Some? ==> KeyBefore(ascending, start.value, KeyOf(l, node))
  {
    var last := page[|page| - 1];
    forall i, j | 0 <= i < |page| && 0 <= j < |rest|
      ensures KeyBefore(ascending, KeyOf(l, page[i]), KeyOf(l, rest[j]))
    {
      assert rest[j] in rest;
      if i < |page| - 1 { KeyBeforeTransitive(ascending, KeyOf(l, page[i]), KeyOf(l, last), KeyOf(l, rest[j])); }
    }
    forall node | node in rest && start.Some? ensures KeyBefore(ascending, start.value, KeyOf(l, node)) {
      assert last in page;
      KeyBeforeTransitive(ascending, start.value, KeyOf(l, last), KeyOf(l, node));
    }
  }

  lemma {:induction false} CutsMissNothing(l: Listing, ascending: bool, lists: seq<seq<Node>>, pages: seq<seq<Node>>,
                                           start: Option<Key>, k: Key)
    requires |lists| == |pages| > 0 && Cuts(l, ascending, lists, pages, start)
    requires start.Some? ==> KeyBefore(ascending, start.value, k)
    requires forall i :: 0 <= i < |lists| ==> HasKey(l, lists[i], k)
    ensures HasKey(l, Flatten(pages), k)
    decreases |pages|
  {
    var rest := After(l, ascending, lists[0], start);
    assert HasKey(l, lists[0], k);
    var node :| node in lists[0] && KeyOf(l, node) == k;
    assert node in rest;
    AfterSorted(l, ascending, ascending, lists[0], start);
    if node in pages[0] {
      assert node in Flatten(pages);
    } else {
      var last := pages[0][|pages[0]| - 1];
      var i :| 0 <= i < |rest| && rest[i] == node;
      assert i >= |pages[0]|;
      assert KeyBefore(ascending, KeyOf(l, rest[|pages[0]| - 1]), KeyOf(l, rest[i]));
      forall j | 0 <= j < |lists| - 1 ensures HasKey(l, lists[1..][j], k) {
        assert HasKey(l, lists[j + 1], k);
      }
      CutsMissNothing(l, ascending, lists[1..], pages[1..], Some(KeyOf(l, last)), k);
      var found :| found in Flatten(pages[1..]) && KeyOf(l, found) == k;
      assert found in Flatten(pages);
    }
  }

  lemma {:induction false} CutsInventNothing(l: Listing, ascending: bool, lists: seq<seq<Node>>, pages: seq<seq<Node>>,
                                             start: Option<Key>)
    requires |lists| == |pages| && Cuts(l, ascending, lists, pages, start)
    ensures forall node :: node in Flatten(pages) ==> exists i :: 0 <= i < |lists| && node in lists[i]
    decreases |pages|
  {
    if |pages| > 0 {
      assert forall i :: 0 <= i < |pages[0]| ==> pages[0][i] == After(l, ascending, lists[0], start)[i];
      if |pages| > 1 {
        CutsInventNothing(l, ascending, lists[1..], pages[1..], Some(KeyOf(l, pages[0][|pages[0]| - 1])));
      }
      forall node | node in Flatten(pages) ensures exists i :: 0 <= i < |lists| && node in lists[i] {
        if node in pages[0] {
          assert node in After(l, ascending, lists[0], start);
        } else {
          assert |pages| > 1 && node in Flatten(pages[1..]);
          var i :| 0 <= i < |lists[1..]| && node in lists[1..][i];
          assert node in lists[i + 1];
        }
      }
    }
  }

  // --- Forward walks ---

  function StartOf(l: Listing, walk: seq<Visit>, i: nat): Option<Key>
    requires i < |walk|
  {
    if i == 0 || walk[i - 1].nodes == [] then None
    else Some(KeyOf(l, walk[i - 1].nodes[|walk[i - 1].nodes| - 1]))
  }

  function Displays(l: Listing, reverse: bool, walk: seq<Visit>): seq<seq<Node>> {
    seq(|walk|, i requires 0 <= i < |walk| => Display(l, walk[i].rows, reverse))
  }

  function Pages(walk: seq<Visit>): seq<seq<Node>> {
    seq(|walk|, i requires 0 <= i < |walk| => walk[i].nodes)
  }

  lemma {:induction false} FlattenPages(walk: seq<Visit>)
    ensures Flatten(Pages(walk)) == Returned(walk)
  {
    if walk != [] {
      assert Pages(walk)[1..] == Pages(walk[1..]);
      FlattenPages(walk[1..]);
    }
  }

  /** The answer to a forward request, written out for the one display list there is. */
  lemma ForwardAnswer(l: Listing, limit: int, after: Option<CursorText>, reverse: bool, v: Visit)
    requires Answered(l, ForwardRequest(limit, after, reverse), v)
    ensures StrictlySorted(l, !reverse, Display(l, v.rows, reverse))
    ensures var k := StartKey(l, ForwardRequest(limit, after, reverse)).value;
            var rest := After(l, !reverse, Display(l, v.rows, reverse), k);
            && v.nodes == Take(rest, limit)
            && (v.info.hasNextPage <==> v.nodes != [] && |v.nodes| < |rest|)
            && (v.nodes == [] <==> rest == [])
            && v.info.endCursor == if v.nodes == [] then None else Some(EdgeOf(l, v.nodes[|v.nodes| - 1]).cursor)
  {
    DisplayUnique(l, v.rows, reverse);
    assert IsDisplay(l, v.rows, reverse, Display(l, v.rows, reverse));
  }

  /** The cursor of an edge takes the next request to the key of its node. */
  lemma EdgeCursorKey(l: Listing, limit: int, node: Node, reverse: bool)
    ensures StartKey(l, ForwardRequest(limit, Some(EdgeOf(l, node).cursor), reverse)) == Ok(Some(KeyOf(l, node)))
  {
  }

  lemma ForwardStart(l: Listing, reverse: bool, walk: seq<Visit>, i: nat)
    requires CompletedForwardWalk(l, reverse, walk) && i < |walk|
    ensures StartKey(l, ForwardStep(walk, i, reverse)) == Ok(StartOf(l, walk, i))
  {
    if i > 0 {
      var p := ForwardStep(walk, i - 1, reverse);
      assert ForwardAnswered(l, reverse, walk, i - 1);
      ForwardAnswer(l, p.first.value, p.after, reverse, walk[i - 1]);
      assert walk[i - 1].info.hasNextPage;
      EdgeCursorKey(l, walk[i].limit, walk[i - 1].nodes[|walk[i - 1].nodes| - 1], reverse);
    }
  }

  /** Visit `i` cuts its page off the front of what follows the previous page. */
  ghost predicate CutAt(l: Listing, reverse: bool, walk: seq<Visit>, i: nat)
    requires i < |walk|
  {
    var display := Display(l, walk[i].rows, reverse);
    var rest := After(l, !reverse, display, StartOf(l, walk, i));
    && StrictlySorted(l, !reverse, display)
    && walk[i].nodes <= rest
    && (if i == |walk| - 1 then walk[i].nodes == rest else walk[i].nodes != [])
  }

  lemma ForwardCutAt(l: Listing, reverse: bool, walk: seq<Visit>, i: nat)
    requires CompletedForwardWalk(l, reverse, walk) && i < |walk|
    ensures CutAt(l, reverse, walk, i)
  {
    var p := ForwardStep(walk, i, reverse);
    assert ForwardAnswered(l, reverse, walk, i);
    hide After, Display, StrictlySorted, StartKey, PageOf, PageInfoOf, IsDisplay, DistinctIds;
    ForwardAnswer(l, p.first.value, p.after, reverse, walk[i]);
    ForwardStart(l, reverse, walk, i);
    assert i < |walk| - 1 ==> walk[i].info.hasNextPage;
  }

  /** Page `i` is cut off the front of what follows `starts[i]`, and the next page starts where it ends. */
  ghost predicate PartAt(l: Listing, ascending: bool, lists: seq<seq<Node>>, pages: seq<seq<Node>>,
                         starts: seq<Option<Key>>, i: nat)
    requires i < |lists| == |pages| == |starts|
  {
    var rest := After(l, ascending, lists[i], starts[i]);
    && StrictlySorted(l, ascending, lists[i]) && pages[i] <= rest
    && (if i == |pages| - 1 then pages[i] == rest
        else pages[i] != [] && starts[i + 1] == Some(KeyOf(l, pages[i][|pages[i]| - 1])))
  }

  lemma {:induction false} CutsFrom(l: Listing, ascending: bool, lists: seq<seq<Node>>, pages: seq<seq<Node>>,
                                    starts: seq<Option<Key>>)
    requires 0 < |lists| == |pages| == |starts|
    requires forall i | 0 <= i < |pages| :: PartAt(l, ascending, lists, pages, starts, i)
    ensures Cuts(l, ascending, lists, pages, starts[0])
    decreases |pages|
  {
    assert PartAt(l, ascending, lists, pages, starts, 0);
    hide Cuts, After, StrictlySorted, KeyOf;
    if |pages| > 1 {
      forall i | 0 <= i < |pages| - 1 ensures PartAt(l, ascending, lists[1..], pages[1..], starts[1..], i) {
        PartLater(l, ascending, lists, pages, starts, i);
      }
      hide PartAt;
      CutsFrom(l, ascending, lists[1..], pages[1..], starts[1..]);
    }
    CutsUnfold(l, ascending, lists, pages, starts[0]);
  }

  lemma PartLater(l: Listing, ascending: bool, lists: seq<seq<Node>>, pages: seq<seq<Node>>, starts: seq<Option<Key>>,
                  i: nat)
    requires i + 1 < |lists| == |pages| == |starts| && PartAt(l, ascending, lists, pages, starts, i + 1)
    ensures PartAt(l, ascending, lists[1..], pages[1..], starts[1..], i)
  {
    hide After, StrictlySorted, KeyOf;
  }

  function Starts(l: Listing, walk: seq<Visit>): seq<Option<Key>> {
    seq(|walk|, i requires 0 <= i < |walk| => StartOf(l, walk, i))
  }

  lemma CutIsPart(l: Listing, reverse: bool, walk: seq<Visit>, i: nat)
    requires i < |walk| && CutAt(l, reverse, walk, i)
    ensures PartAt(l, !reverse, Displays(l, reverse, walk), Pages(walk), Starts(l, walk), i)
  {
    hide StrictlySorted, After, Display;
  }

  lemma CutsUnfold(l: Listing, ascending: bool, lists: seq<seq<Node>>, pages: seq<seq<Node>>, start: Option<Key>)
    requires |lists| == |pages| > 0
    requires StrictlySorted(l, ascending, lists[0]) && pages[0] <= After(l, ascending, lists[0], start)
    requires if |pages| == 1 then pages[0] == After(l, ascending, lists[0], start)
             else pages[0] != [] && Cuts(l, ascending, lists[1..], pages[1..], Some(KeyOf(l, pages[0][|pages[0]| - 1])))
    ensures Cuts(l, ascending, lists, pages, start)
  {
  }

  lemma ForwardWalkCuts(l: Listing, reverse: bool, walk: seq<Visit>)
    requires CompletedForwardWalk(l, reverse, walk)
    ensures Cuts(l, !reverse, Displays(l, reverse, walk), Pages(walk), None)
  {
    var ascending, lists, pages, starts := !reverse, Displays(l, reverse, walk), Pages(walk), Starts(l, walk);
    forall i | 0 <= i < |walk| ensures PartAt(l, ascending, lists, pages, starts, i) {
      ForwardCutAt(l, reverse, walk, i);
      CutIsPart(l, reverse, walk, i);
    }
    CutsFrom(l, ascending, lists, pages, starts);
  }

  /** No (sort value, id) key comes twice, and everything arrives in display order. */
  lemma ForwardWalkSorted(l: Listing, reverse: bool, walk: seq<Visit>)
    requires CompletedForwardWalk(l, reverse, walk)
    ensures StrictlySorted(l, !reverse, Returned(walk))
  {
    ForwardWalkCuts(l, reverse, walk);
    CutsSorted(l, !reverse, Displays(l, reverse, walk), Pages(walk), None);
    FlattenPages(walk);
  }

  /** A record that is there, under an unchanged key, at every request is returned. */
  lemma ForwardWalkComplete(l: Listing, reverse: bool, walk: seq<Visit>, k: Key)
    requires CompletedForwardWalk(l, reverse, walk)
    requires forall i :: 0 <= i < |walk| ==> HasKey(l, walk[i].rows, k)
    ensures HasKey(l, Returned(walk), k)
  {
    ForwardWalkCuts(l, reverse, walk);
    var lists := Displays(l, reverse, walk);
    forall i | 0 <= i < |lists| ensures HasKey(l, lists[i], k) {
      assert HasKey(l, walk[i].rows, k);
      var node :| node in walk[i].rows && KeyOf(l, node) == k;
      assert node in lists[i];
    }
    CutsMissNothing(l, !reverse, lists, Pages(walk), None, k);
    FlattenPages(walk);
  }

  /** On rows that do not change, the pages put together are the display list. */
  lemma ForwardWalkIsDisplay(l: Listing, reverse: bool, walk: seq<Visit>, rows: seq<Node>)
    requires CompletedForwardWalk(l, reverse, walk)
    requires forall i :: 0 <= i < |walk| ==> walk[i].rows == rows
    ensures IsDisplay(l, rows, reverse, Returned(walk))
  {
    ForwardWalkSorted(l, reverse, walk);
    ReturnedFromRows(l, reverse, walk, rows);
    forall node | node in rows ensures node in Returned(walk) {
      assert forall i :: 0 <= i < |walk| ==> HasKey(l, walk[i].rows, KeyOf(l, node));
      ForwardWalkComplete(l, reverse, walk, KeyOf(l, node));
      var found :| found in Returned(walk) && KeyOf(l, found) == KeyOf(l, node);
      SameIdSameRow(rows, found, node);
    }
  }

  lemma ReturnedFromRows(l: Listing, reverse: bool, walk: seq<Visit>, rows: seq<Node>)
    requires CompletedForwardWalk(l, reverse, walk)
    requires forall i :: 0 <= i < |walk| ==> walk[i].rows == rows
    ensures DistinctIds(rows)
    ensures forall node :: node in Returned(walk) ==> node in rows
  {
    assert ForwardAnswered(l, reverse, walk, 0);
    ForwardWalkCuts(l, reverse, walk);
    CutsInventNothing(l, !reverse, Displays(l, reverse, walk), Pages(walk), None);
    FlattenPages(walk);
  }

  lemma SameIdSameRow(rows: seq<Node>, a: Node, b: Node)
    requires DistinctIds(rows) && a in rows && b in rows && a.id == b.id
    ensures a == b
  {
    var i :| 0 <= i < |rows| && rows[i] == a;
    var j :| 0 <= j < |rows| && rows[j] == b;
    assert i == j;
  }

  // --- Backward walks are forward walks seen in a mirror ---

  function MirrorInfo(info: PageInfo): PageInfo {
    PageInfo(info.hasPreviousPage, info.hasNextPage, info.endCursor, info.startCursor)
  }

  function MirrorVisit(v: Visit): Visit {
    Visit(v.rows, v.limit, Reverse(v.nodes), MirrorInfo(v.info))
  }

  function Mirror(walk: seq<Visit>): seq<Visit> {
    seq(|walk|, i requires 0 <= i < |walk| => MirrorVisit(walk[i]))
  }

  lemma {:induction false} AfterConcat(l: Listing, ascending: bool, s: seq<Node>, t: seq<Node>, k: Option<Key>)
    ensures After(l, ascending, s + t, k) == After(l, ascending, s, k) + After(l, ascending, t, k)
  {
    if s == [] {
      assert s + t == t;
    } else {
      assert (s + t)[1..] == s[1..] + t;
      AfterConcat(l, ascending, s[1..], t, k);
    }
  }

  lemma {:induction false} AfterReverse(l: Listing, ascending: bool, s: seq<Node>, k: Option<Key>)
    ensures After(l, ascending, Reverse(s), k) == Reverse(After(l, ascending, s, k))
  {
    if s != [] {
      AfterReverse(l, ascending, s[1..], k);
      AfterConcat(l, ascending, Reverse(s[1..]), [s[0]], k);
      assert After(l, ascending, [s[0]], k) ==
             if k.Some? && !KeyBefore(ascending, k.value, KeyOf(l, s[0])) then [] else [s[0]];
    }
  }

  /** The last n before a cursor are, read backwards, the first n after it in the opposite order. */
  lemma BackwardPageMirrorsForward(l: Listing, display: seq<Node>, limit: int, cursor: Option<CursorText>,
                                   reverse: bool, k: Option<Key>)
    requires limit > 0
    ensures PageOf(l, Reverse(display), ForwardRequest(limit, cursor, !reverse), k) ==
              Reverse(PageOf(l, display, BackwardRequest(limit, cursor, reverse), k))
    ensures PageInfoOf(l, Reverse(display), ForwardRequest(limit, cursor, !reverse), k) ==
              MirrorInfo(PageInfoOf(l, display, BackwardRequest(limit, cursor, reverse), k))
  {
    hide *;
    var c := Candidates(l, display, BackwardRequest(limit, cursor, reverse), k);
    MirroredCandidates(l, display, limit, cursor, reverse, k);
    FrontOfReverse(c, limit);
    MirroredPage(l, display, limit, cursor, reverse, k, c, TakeLast(c, limit), Take(Reverse(c), limit));
  }

  lemma MirroredCandidates(l: Listing, display: seq<Node>, limit: int, cursor: Option<CursorText>, reverse: bool,
                           k: Option<Key>)
    ensures Candidates(l, Reverse(display), ForwardRequest(limit, cursor, !reverse), k) ==
              Reverse(Candidates(l, display, BackwardRequest(limit, cursor, reverse), k))
  {
    AfterReverse(l, reverse, display, k);
    hide After, Reverse;
  }

  lemma MirroredPage(l: Listing, display: seq<Node>, limit: int, cursor: Option<CursorText>, reverse: bool,
                     k: Option<Key>, c: seq<Node>, page: seq<Node>, mirrored: seq<Node>)
    requires Candidates(l, display, BackwardRequest(limit, cursor, reverse), k) == c
    requires Candidates(l, Reverse(display), ForwardRequest(limit, cursor, !reverse), k) == Reverse(c)
    requires page == TakeLast(c, limit) && mirrored == Take(Reverse(c), limit) == Reverse(page)
    requires |mirrored| < |Reverse(c)| <==> |page| < |c|
    requires |mirrored| == |page| && (page != [] ==> mirrored[0] == page[|page| - 1] && mirrored[|page| - 1] == page[0])
    ensures PageOf(l, Reverse(display), ForwardRequest(limit, cursor, !reverse), k) ==
              Reverse(PageOf(l, display, BackwardRequest(limit, cursor, reverse), k))
    ensures PageInfoOf(l, Reverse(display), ForwardRequest(limit, cursor, !reverse), k) ==
              MirrorInfo(PageInfoOf(l, display, BackwardRequest(limit, cursor, reverse), k))
  {
    hide Candidates, Take, TakeLast, Reverse;
  }

  lemma FrontOfReverse(c: seq<Node>, limit: int)
    requires limit > 0
    ensures Take(Reverse(c), limit) == Reverse(TakeLast(c, limit))
    ensures |Take(Reverse(c), limit)| < |Reverse(c)| <==> |TakeLast(c, limit)| < |c|
    ensures var page, mirrored := TakeLast(c, limit), Take(Reverse(c), limit);
            |mirrored| == |page| && (page != [] ==> mirrored[0] == page[|page| - 1] && mirrored[|page| - 1] == page[0])
  {
  }

  lemma MirroredAnswer(l: Listing, limit: int, cursor: Option<CursorText>, reverse: bool, v: Visit)
    requires Answered(l, BackwardRequest(limit, cursor, reverse), v)
    ensures Answered(l, ForwardRequest(limit, cursor, !reverse), MirrorVisit(v))
  {
    var k := StartKey(l, BackwardRequest(limit, cursor, reverse)).value;
    DisplayUnique(l, v.rows, reverse);
    DisplayUnique(l, v.rows, !reverse);
    var display := Display(l, v.rows, reverse);
    assert IsDisplay(l, v.rows, reverse, display);
    ReverseSorted(l, !reverse, display);
    assert IsDisplay(l, v.rows, !reverse, Reverse(display));
    BackwardPageMirrorsForward(l, display, limit, cursor, reverse, k);
  }

  lemma MirroredStep(walk: seq<Visit>, i: nat, reverse: bool)
    requires i < |walk|
    ensures ForwardStep(Mirror(walk), i, !reverse) ==
              ForwardRequest(walk[i].limit, BackwardStep(walk, i, reverse).before, !reverse)
  {
  }

  lemma MirroredWalk(l: Listing, reverse: bool, flipped: bool, walk: seq<Visit>)
    requires CompletedBackwardWalk(l, reverse, walk) && flipped == !reverse
    ensures CompletedForwardWalk(l, flipped, Mirror(walk))
  {
    var mirror := Mirror(walk);
    forall i | 0 <= i < |walk| ensures ForwardAnswered(l, flipped, mirror, i) {
      MirroredVisitAnswered(l, reverse, walk, i);
    }
    assert forall i :: 0 <= i < |walk| ==> mirror[i].info == MirrorInfo(walk[i].info);
  }

  lemma MirroredVisitAnswered(l: Listing, reverse: bool, walk: seq<Visit>, i: nat)
    requires CompletedBackwardWalk(l, reverse, walk) && i < |walk|
    ensures Answered(l, ForwardStep(Mirror(walk), i, !reverse), Mirror(walk)[i])
  {
    var p := BackwardStep(walk, i, reverse);
    assert BackwardAnswered(l, reverse, walk, i);
    MirroredAnswer(l, walk[i].limit, p.before, reverse, walk[i]);
    MirroredStep(walk, i, reverse);
  }

  lemma {:induction false} MirroredReturned(walk: seq<Visit>)
    ensures Returned(Mirror(walk)) == Reverse(ReturnedBackward(walk))
  {
    if walk != [] {
      MirroredReturned(walk[1..]);
      assert Mirror(walk)[1..] == Mirror(walk[1..]) && Mirror(walk)[0].nodes == Reverse(walk[0].nodes);
      hide Mirror, Reverse;
      ReverseConcat(ReturnedBackward(walk[1..]), walk[0].nodes);
    }
  }

  lemma ReverseConcat(a: seq<Node>, b: seq<Node>)
    ensures Reverse(a + b) == Reverse(b) + Reverse(a)
  {
  }

  /** Backward walks agree with forward walks: same order, nothing twice. */
  lemma BackwardWalkSorted(l: Listing, reverse: bool, walk: seq<Visit>)
    requires CompletedBackwardWalk(l, reverse, walk)
    ensures StrictlySorted(l, !reverse, ReturnedBackward(walk))
  {
    var flipped := !reverse;
    MirroredWalk(l, reverse, flipped, walk);
    MirroredReturned(walk);
    ForwardWalkSorted(l, flipped, Mirror(walk));
    ReverseSorted(l, reverse, Returned(Mirror(walk)));
    assert Reverse(Reverse(ReturnedBackward(walk))) == ReturnedBackward(walk);
  }

  lemma BackwardWalkComplete(l: Listing, reverse: bool, walk: seq<Visit>, k: Key)
    requires CompletedBackwardWalk(l, reverse, walk)
    requires forall i :: 0 <= i < |walk| ==> HasKey(l, walk[i].rows, k)
    ensures HasKey(l, ReturnedBackward(walk), k)
  {
    var flipped := !reverse;
    MirroredWalk(l, reverse, flipped, walk);
    MirroredReturned(walk);
    forall i | 0 <= i < |walk| ensures HasKey(l, Mirror(walk)[i].rows, k) {
      assert HasKey(l, walk[i].rows, k);
    }
    ForwardWalkComplete(l, flipped, Mirror(walk), k);
    var node :| node in Returned(Mirror(walk)) && KeyOf(l, node) == k;
    assert node in ReturnedBackward(walk);
  }

  lemma BackwardWalkIsDisplay(l: Listing, reverse: bool, walk: seq<Visit>, rows: seq<Node>)
    requires CompletedBackwardWalk(l, reverse, walk)
    requires forall i :: 0 <= i < |walk| ==> walk[i].rows == rows
    ensures IsDisplay(l, rows, reverse, ReturnedBackward(walk))
  {
    var flipped := !reverse;
    BackwardWalkSorted(l, reverse, walk);
    MirroredWalk(l, reverse, flipped, walk);
    MirroredReturned(walk);
    ForwardWalkIsDisplay(l, flipped, Mirror(walk), rows);
    assert forall node :: node in ReturnedBackward(walk) <==> node in Returned(Mirror(walk));
  }
}
