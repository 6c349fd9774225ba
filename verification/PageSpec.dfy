/**
 * What a page of a connection is, independently of how it is fetched: the display order, the elements
 * on either side of a cursor, and the first or last few of them (sections 4.3 and 4.4 of the GraphQL
 * Cursor Connections Specification).
 */
module PageSpec {
  import opened Wrappers
  import opened EntityQueries

  datatype Cursor = Cursor(backingType: string, backingId: int, sortKey: string, sortValue: int)

  /** A cursor as a client sends it: some strings do not decode to a cursor at all. */
  datatype CursorText = Malformed | Encoded(cursor: Cursor)

  datatype Edge = Edge(node: Node, cursor: CursorText)

  /** The fixed part of a connection: entity type, sort key and the column that the key sorts on. */
  datatype Listing = Listing(backingType: string, sortKey: string, sortColumn: Column)

  datatype Pagination = Pagination(
    first: Option<int>, after: Option<CursorText>,
    last: Option<int>, before: Option<CursorText>, reverse: bool)

  datatype PageInfo = PageInfo(
    hasNextPage: bool, hasPreviousPage: bool,
    startCursor: Option<CursorText>, endCursor: Option<CursorText>)

  // --- Order ---

  datatype Key = Key(value: int, id: int)

  function KeyOf(l: Listing, node: Node): Key {
    Key(ColumnValue(node, l.sortColumn), node.id)
  }

  function CursorKey(l: Listing, c: Cursor): Key {
    Key(c.sortValue, if l.sortColumn == IdColumn then c.sortValue else c.backingId)
  }

  function EdgeOf(l: Listing, node: Node): Edge {
    Edge(node, Encoded(Cursor(l.backingType, node.id, l.sortKey, ColumnValue(node, l.sortColumn))))
  }

  function EdgesOf(l: Listing, nodes: seq<Node>): (edges: seq<Edge>)
    ensures |edges| == |nodes| && forall i :: 0 <= i < |nodes| ==> edges[i] == EdgeOf(l, nodes[i])
  {
    seq(|nodes|, i requires 0 <= i < |nodes| => EdgeOf(l, nodes[i]))
  }

  /** Lexicographic order on (sort value, id), or its converse. */
  predicate KeyBefore(ascending: bool, a: Key, b: Key) {
    if ascending then a.value < b.value || (a.value == b.value && a.id < b.id)
    else b.value < a.value || (b.value == a.value && b.id < a.id)
  }

  predicate StrictlySorted(l: Listing, ascending: bool, s: seq<Node>) {
    forall i, j :: 0 <= i < j < |s| ==> KeyBefore(ascending, KeyOf(l, s[i]), KeyOf(l, s[j]))
  }

  /** `display` is the whole list a client scrolls through: every row once, in the requested order. */
  ghost predicate IsDisplay(l: Listing, rows: seq<Node>, reverse: bool, display: seq<Node>) {
    && StrictlySorted(l, !reverse, display)
    && forall node :: node in display <==> node in rows
  }

  /** The elements that stand strictly after `k` in display order. */
  function After(l: Listing, ascending: bool, s: seq<Node>, k: Option<Key>): (r: seq<Node>)
    ensures forall node :: node in r <==> node in s && (k.Some? ==> KeyBefore(ascending, k.value, KeyOf(l, node)))
  {
    if s == [] then []
    else if k.Some? && !KeyBefore(ascending, k.value, KeyOf(l, s[0])) then After(l, ascending, s[1..], k)
    else [s[0]] + After(l, ascending, s[1..], k)
  }

  function TakeLast<T>(s: seq<T>, n: int): seq<T> {
    if n <= 0 then [] else if n < |s| then s[|s| - n..] else s
  }

  function Reverse<T(!new)>(s: seq<T>): (r: seq<T>)
    ensures |r| == |s| && forall i :: 0 <= i < |s| ==> r[i] == s[|s| - 1 - i]
    ensures forall x :: x in r <==> x in s
  {
    if s == [] then [] else Reverse(s[1..]) + [s[0]]
  }

  /** The elements on the requested side of the cursor, in display order. */
  function Candidates(l: Listing, display: seq<Node>, p: Pagination, k: Option<Key>): seq<Node> {
    // Strictly before in one direction is strictly after in the other.
    After(l, if p.first.Some? then !p.reverse else p.reverse, display, k)
  }

  /** The page: the first n candidates, or the last n. */
  function PageOf(l: Listing, display: seq<Node>, p: Pagination, k: Option<Key>): seq<Node> {
    var c := Candidates(l, display, p, k);
    if p.first.Some? then Take(c, p.first.value)
    else if p.last.Some? then TakeLast(c, p.last.value)
    else c
  }

  function PageInfoOf(l: Listing, display: seq<Node>, p: Pagination, k: Option<Key>): PageInfo {
    var page := PageOf(l, display, p, k);
    var more := |page| < |Candidates(l, display, p, k)|;
    if page == [] then PageInfo(false, false, None, None)
    else
      PageInfo(
        if p.first.Some? then more else p.before.Some?,
        if p.first.Some? then p.after.Some? else more,
        Some(EdgeOf(l, page[0]).cursor),
        Some(EdgeOf(l, page[|page| - 1]).cursor))
  }

  // --- What the flags say ---

  predicate ReadsUpwards(p: Pagination) {
    if p.first.Some? then !p.reverse else p.reverse
  }

  /** The flag for the side that the page is not read towards. */
  function FlagBehind(p: Pagination, info: PageInfo): bool {
    if p.first.Some? then info.hasPreviousPage else info.hasNextPage
  }

  /** An element stands at the cursor or on the side of it that the page is not on. */
  ghost predicate SomeBehind(l: Listing, display: seq<Node>, p: Pagination, k: Option<Key>) {
    k.Some? && exists node :: node in display && !KeyBefore(ReadsUpwards(p), k.value, KeyOf(l, node))
  }

  /** An element stands on the side of the cursor that the page is on. */
  ghost predicate SomeAhead(l: Listing, display: seq<Node>, p: Pagination, k: Option<Key>) {
    exists node :: node in display && (k.Some? ==> KeyBefore(ReadsUpwards(p), k.value, KeyOf(l, node)))
  }

  /**
   * The flag for the far side says whether elements stand at the cursor or beyond it exactly if no cursor was given,
   * nothing is listed at all, or there are elements on both sides. The flag for the near side is always right.
   */
  lemma FlagsRightIff(l: Listing, display: seq<Node>, p: Pagination, k: Option<Key>)
    requires p.first.Some? != p.last.Some? && (p.first.Some? ==> p.first.value >= 1)
    requires p.last.Some? ==> p.last.value >= 1
    requires k.Some? <==> if p.first.Some? then p.after.Some? else p.before.Some?
    ensures (FlagBehind(p, PageInfoOf(l, display, p, k)) <==> SomeBehind(l, display, p, k)) <==>
              k.None? || display == [] || (SomeAhead(l, display, p, k) && SomeBehind(l, display, p, k))
    ensures (if p.first.Some? then PageInfoOf(l, display, p, k).hasNextPage
               else PageInfoOf(l, display, p, k).hasPreviousPage)
              <==> |PageOf(l, display, p, k)| < |Candidates(l, display, p, k)|
  {
    var c := Candidates(l, display, p, k);
    assert c != [] ==> c[0] in c;
    assert display != [] ==> display[0] in display;
    assert PageOf(l, display, p, k) == [] <==> c == [];
  }

  /** A page after the last element is empty, and says that nothing comes before it either. */
  lemma NothingBehindLast(l: Listing, display: seq<Node>, n: int)
    requires n >= 1 && display != [] && StrictlySorted(l, true, display)
    ensures var node := display[|display| - 1];
            var p, k := Pagination(Some(n), Some(EdgeOf(l, node).cursor), None, None, false), Some(KeyOf(l, node));
            SomeBehind(l, display, p, k) && !PageInfoOf(l, display, p, k).hasPreviousPage
  {
    var node := display[|display| - 1];
    var p, k := Pagination(Some(n), Some(EdgeOf(l, node).cursor), None, None, false), Some(KeyOf(l, node));
    forall m | m in display ensures !KeyBefore(true, k.value, KeyOf(l, m)) {
      var i :| 0 <= i < |display| && display[i] == m;
    }
    assert !SomeAhead(l, display, p, k);
    assert node in display;
    FlagsRightIff(l, display, p, k);
  }

  /**
   * A page after a cursor in front of everything, as when those elements are gone, says that something comes before
   * it.
   */
  lemma SomethingBeforeFirst(l: Listing, display: seq<Node>, n: int, cursor: Cursor)
    requires n >= 1 && display != [] && forall node | node in display ::
                KeyBefore(true, CursorKey(l, cursor), KeyOf(l, node))
    ensures var p, k := Pagination(Some(n), Some(Encoded(cursor)), None, None, false), Some(CursorKey(l, cursor));
            !SomeBehind(l, display, p, k) && PageInfoOf(l, display, p, k).hasPreviousPage
  {
    var p, k := Pagination(Some(n), Some(Encoded(cursor)), None, None, false), Some(CursorKey(l, cursor));
    FlagsRightIff(l, display, p, k);
  }

  // --- Facts about the order ---

  lemma KeyBeforeTransitive(ascending: bool, a: Key, b: Key, c: Key)
    requires KeyBefore(ascending, a, b) && KeyBefore(ascending, b, c)
    ensures KeyBefore(ascending, a, c)
  {
  }

  /** A strictly sorted sequence is determined by its elements. */
  lemma {:induction false} SortedUnique(l: Listing, ascending: bool, s: seq<Node>, t: seq<Node>)
    requires StrictlySorted(l, ascending, s) && StrictlySorted(l, ascending, t)
    requires forall node :: node in s <==> node in t
    ensures s == t
  {
    assert |s| == 0 <==> |t| == 0 by {
      if |s| > 0 { assert s[0] in t; }
      if |t| > 0 { assert t[0] in s; }
    }
    if |s| > 0 {
      assert s[0] == t[0] by {
        assert s[0] in t && t[0] in s;
      }
      assert s == [s[0]] + s[1..] && t == [t[0]] + t[1..];
      assert forall i :: 0 < i < |s| ==> s[i] != s[0];
      assert forall i :: 0 < i < |t| ==> t[i] != t[0];
      forall node ensures node in s[1..] <==> node in t[1..] {
        assert node in s[1..] ==> node in t && node != t[0];
        assert node in t[1..] ==> node in s && node != s[0];
      }
      SortedUnique(l, ascending, s[1..], t[1..]);
    }
  }

  lemma {:induction false} AfterSorted(l: Listing, ascending: bool, order: bool, s: seq<Node>, k: Option<Key>)
    requires StrictlySorted(l, order, s)
    ensures StrictlySorted(l, order, After(l, ascending, s, k))
  {
    if s != [] {
      AfterSorted(l, ascending, order, s[1..], k);
      var rest := After(l, ascending, s[1..], k);
      assert forall i :: 0 <= i < |rest| ==> rest[i] in s[1..];
      assert forall node | node in s[1..] :: KeyBefore(order, KeyOf(l, s[0]), KeyOf(l, node));
    }
  }

  lemma ReverseSorted(l: Listing, ascending: bool, s: seq<Node>)
    requires StrictlySorted(l, ascending, s)
    ensures StrictlySorted(l, !ascending, Reverse(s))
  {
  }

  /** The display list for the rows, computed by sorting on (sort column, id). */
  function Display(l: Listing, rows: seq<Node>, reverse: bool): seq<Node> {
    var direction := if reverse then Desc else Asc;
    SortRows([(l.sortColumn, direction), (IdColumn, direction)], rows)
  }

  lemma DisplayUnique(l: Listing, rows: seq<Node>, reverse: bool)
    requires DistinctIds(rows)
    ensures forall d :: IsDisplay(l, rows, reverse, d) <==> d == Display(l, rows, reverse)
  {
    var direction := if reverse then Desc else Asc;
    var sorts := [(l.sortColumn, direction), (IdColumn, direction)];
    SortRowsOrdered(sorts, rows);
    SortedByKey(l, !reverse, sorts, SortRows(sorts, rows));
    forall d | IsDisplay(l, rows, reverse, d) ensures d == Display(l, rows, reverse) {
      SortedUnique(l, !reverse, d, SortRows(sorts, rows));
    }
  }

  lemma SortedByKey(l: Listing, ascending: bool, sorts: seq<(Column, Direction)>, s: seq<Node>)
    requires Ordered(sorts, s) && DistinctIds(s)
    requires var direction := if ascending then Asc else Desc;
             || sorts == [(l.sortColumn, direction), (IdColumn, direction)]
             || (l.sortColumn == IdColumn && sorts == [(IdColumn, direction)])
    ensures StrictlySorted(l, ascending, s)
  {
    forall i, j | 0 <= i < j < |s| ensures KeyBefore(ascending, KeyOf(l, s[i]), KeyOf(l, s[j])) {
      assert MayPrecede(sorts, s[i], s[j]) && s[i].id != s[j].id;
      if |sorts| == 2 {
        assert MayPrecede(sorts, s[i], s[j]) ==
          if ColumnValue(s[i], sorts[0].0) == ColumnValue(s[j], sorts[0].0) then MayPrecede(sorts[1..], s[i], s[j])
          else if sorts[0].1 == Asc then ColumnValue(s[i], sorts[0].0) < ColumnValue(s[j], sorts[0].0)
          else ColumnValue(s[j], sorts[0].0) < ColumnValue(s[i], sorts[0].0);
      }
    }
  }
}
