/** A paginated connection over an entity query. */
module EntityConnections {
  import opened Wrappers
  import opened EntityQueries
  import opened PageSpec

  const MAX_LIMIT := 100

  datatype Error =
    | ResultAlreadyFetched
    | MissingFirstOrLast
    | BothFirstAndLast
    | FirstWithBefore
    | LastWithAfter
    | FirstNotPositive
    | LastNotPositive
    | LimitTooLarge
    | InvalidCursor

  function AssertValidPagination(p: Pagination, limit: int): Option<Error> {
    if p.first.None? && p.last.None? then Some(MissingFirstOrLast)
    else if p.first.Some? && p.last.Some? then Some(BothFirstAndLast)
    else if p.first.Some? && p.before.Some? then Some(FirstWithBefore)
    else if p.last.Some? && p.after.Some? then Some(LastWithAfter)
    else if p.first.Some? && p.first.value <= 0 then Some(FirstNotPositive)
    else if p.last.Some? && p.last.value <= 0 then Some(LastNotPositive)
    else if p.first.Some? && p.first.value > limit then Some(LimitTooLarge)
    else if p.last.Some? && p.last.value > limit then Some(LimitTooLarge)
    else None
  }

  /** The two shapes of request a connection answers. */
  predicate Acceptable(p: Pagination) {
    || (p.first.Some? && 1 <= p.first.value <= MAX_LIMIT && p.last.None? && p.before.None?)
    || (p.last.Some? && 1 <= p.last.value <= MAX_LIMIT && p.first.None? && p.after.None?)
  }

  /** The cursor object for a client string, unless it was made for another listing. */
  function GetCursorObject(l: Listing, text: CursorText): Option<Cursor> {
    if text.Malformed? then None
    else if text.cursor.sortKey == l.sortKey && text.cursor.backingType == l.backingType then Some(text.cursor)
    else None
  }

  function CursorOf(p: Pagination): Option<CursorText> {
    if p.after.Some? then p.after else p.before
  }

  /** The key at which the page starts, or None when the request carries an unusable cursor. */
  function StartKey(l: Listing, p: Pagination): (k: Result<Option<Key>, Error>) {
    match CursorOf(p)
    case None => Ok(None)
    case Some(text) =>
      match GetCursorObject(l, text)
      case None => Err(InvalidCursor)
      case Some(c) => Ok(Some(CursorKey(l, c)))
  }

  /** What the query must deliver: the candidates counted from the cursor outwards, one more than asked for. */
  function OverFetch(l: Listing, display: seq<Node>, p: Pagination, k: Option<Key>): seq<Node>
    requires Acceptable(p)
  {
    var c := Candidates(l, display, p, k);
    if p.first.Some? then Take(c, p.first.value + 1) else Take(Reverse(c), p.last.value + 1)
  }

  /** `edges` is the over-fetch for the request on `rows`, whatever representation the display list has. */
  ghost predicate IsOverFetch(l: Listing, rows: seq<Node>, p: Pagination, k: Option<Key>, edges: seq<Edge>)
    requires Acceptable(p)
  {
    forall d :: IsDisplay(l, rows, p.reverse, d) ==> edges == EdgesOf(l, OverFetch(l, d, p, k))
  }

  class EntityConnection {
    const listing: Listing
    const storage: Storage
    var first: Option<int>
    var after: Option<CursorText>
    var last: Option<int>
    var before: Option<CursorText>
    var reverse: bool
    var result: Option<seq<Edge>>
    /** The rows that the stored result was computed from. */
    ghost var snapshot: seq<Node>

    function Request(): Pagination
      reads this
    {
      Pagination(first, after, last, before, reverse)
    }

    /** A stored result is the over-fetch for the current request on the rows it was computed from. */
    ghost predicate Valid()
      reads this
    {
      result.Some? ==>
        && Acceptable(Request()) && DistinctIds(snapshot) && StartKey(listing, Request()).Ok?
        && IsOverFetch(listing, snapshot, Request(), StartKey(listing, Request()).value, result.value)
    }

    constructor (listing: Listing, storage: Storage)
      ensures Valid() && result.None? && this.listing == listing && this.storage == storage
      ensures Request() == Pagination(None, None, None, None, false)
    {
      this.listing, this.storage := listing, storage;
      first, after, last, before, reverse := None, None, None, None, false;
      result := None;
    }

    /** Either the whole request is replaced, or an error is reported and nothing changes. */
    method SetPagination(first: Option<int>, after: Option<CursorText>, last: Option<int>, before: Option<CursorText>,
                         reverse: bool)
      returns (error: Option<Error>)
      requires Valid()
      modifies this
      ensures Valid() && result == old(result) && snapshot == old(snapshot)
      ensures error == Some(ResultAlreadyFetched) <==> old(result).Some?
      ensures error.None? <==> old(result).None? && Acceptable(Pagination(first, after, last, before, reverse))
      ensures old(result).None? ==> error == AssertValidPagination(Pagination(first, after, last, before, reverse), 100)
      ensures Request() == if error.None? then Pagination(first, after, last, before, reverse) else old(Request())
    {
      if result.Some? {
        return Some(ResultAlreadyFetched);
      }
      error := AssertValidPagination(Pagination(first, after, last, before, reverse), MAX_LIMIT);
      if error.Some? {
        return;
      }
      this.first, this.after, this.last, this.before, this.reverse := first, after, last, before, reverse;
    }

    /** The condition that selects the elements on the requested side of the cursor. */
    method PaginationCondition(c: Cursor) returns (condition: Condition)
      requires Acceptable(Request()) && CursorOf(Request()).Some?
      ensures forall node :: Holds(condition, node) <==>
                KeyBefore(if first.Some? then !reverse else reverse, CursorKey(listing, c), KeyOf(listing, node))
    {
      var operator := if (before.Some? && !reverse) || (after.Some? && reverse) then Less else Greater;
      var alternatives := [Compare(listing.sortColumn, c.sortValue, operator)];
      if listing.sortColumn != IdColumn {
        alternatives := alternatives + [AllOf([
          Compare(listing.sortColumn, c.sortValue, Equal),
          Compare(IdColumn, c.backingId, operator)])];
      }
      condition := AnyOf(alternatives);
      forall node
        ensures Holds(condition, node) <==>
                  KeyBefore(if first.Some? then !reverse else reverse, CursorKey(listing, c), KeyOf(listing, node))
      {
        CursorCondition(listing, if first.Some? then !reverse else reverse, c, alternatives, node);
      }
    }

    /**
     * The query direction and the cursor operator are worked out separately; together they must fetch
     * the candidates nearest to the cursor first.
     */
    method Execute() returns (r: Result<seq<Edge>, Error>)
      requires Acceptable(Request()) && DistinctIds(storage.rows)
      ensures r.Ok? <==> StartKey(listing, Request()).Ok?
      ensures r.Err? ==> r.error == InvalidCursor
      ensures r.Ok? ==> IsOverFetch(listing, storage.rows, Request(), StartKey(listing, Request()).value, r.value)
    {
      hide KeyBefore, Holds, IsOverFetch, RunQuery, KeyOf, CursorKey, DistinctIds;
      var query := new EntityQuery();
      ghost var k := if StartKey(listing, Request()).Ok? then StartKey(listing, Request()).value else None;
      var ascending := (first.Some? && !reverse) || (last.Some? && reverse);
      var direction := if ascending then Asc else Desc;
      var cursor := if after.Some? then after else before;
      if cursor.Some? {
        var cursorObject := GetCursorObject(listing, cursor.value);
        if cursorObject.None? {
          return Err(InvalidCursor);
        }
        var condition := PaginationCondition(cursorObject.value);
        query.Where(condition);
        assert query.conditions == [condition];
      }
      var limit := if first.Some? then first.value else last.value;
      query.Range(limit + 1);
      query.SortOn(listing.sortColumn, direction);
      if listing.sortColumn != IdColumn {
        query.SortOn(IdColumn, direction);
      }
      var nodes := query.Execute(storage);
      r := Ok(EdgesOf(listing, nodes));

      QueryFetchesCandidates(listing, storage.rows, Request(), k, query.conditions, query.sorts);
    }

    method GetResult() returns (r: Result<seq<Edge>, Error>)
      requires Valid() && Acceptable(Request()) && DistinctIds(storage.rows)
      modifies this`result, this`snapshot
      ensures Valid()
      ensures old(result).Some? ==> result == old(result) && snapshot == old(snapshot)
      ensures old(result).None? && r.Ok? ==> snapshot == storage.rows
      ensures r.Ok? <==> StartKey(listing, Request()).Ok?
      ensures r.Ok? ==> result == Some(r.value)
      ensures r.Err? ==> r.error == InvalidCursor
    {
      if result.None? {
        r := Execute();
        if r.Ok? {
          result, snapshot := Some(r.value), storage.rows;
        }
      } else {
        r := Ok(result.value);
      }
    }

    /** The edges are the requested page of the display list, for each of the four request shapes. */
    method Edges() returns (r: Result<seq<Edge>, Error>)
      requires Valid() && Acceptable(Request()) && DistinctIds(storage.rows)
      modifies this`result, this`snapshot
      ensures Valid()
      ensures old(result).Some? ==> result == old(result) && snapshot == old(snapshot)
      ensures old(result).None? && r.Ok? ==> snapshot == storage.rows
      ensures r.Ok? <==> StartKey(listing, Request()).Ok?
      ensures r.Ok? ==> forall d :: IsDisplay(listing, snapshot, reverse, d) ==>
                          r.value == EdgesOf(listing, PageOf(listing, d, Request(), StartKey(listing, Request()).value))
    {
      var fetched := GetResult();
      if fetched.Err? {
        return fetched;
      }
      var edges := Take(fetched.value, if first.Some? then first.value else last.value);
      if last.Some? {
        edges := Reverse(edges);
      }
      r := Ok(edges);
      forall d | IsDisplay(listing, snapshot, reverse, d)
        ensures edges == EdgesOf(listing, PageOf(listing, d, Request(), StartKey(listing, Request()).value))
      {
        var k := StartKey(listing, Request()).value;
        SliceAndFlip(listing, d, Request(), k);
        EdgesCommute(listing, OverFetch(listing, d, Request(), k), if first.Some? then first.value else last.value);
      }
    }

    method Nodes() returns (r: Result<seq<Node>, Error>)
      requires Valid() && Acceptable(Request()) && DistinctIds(storage.rows)
      modifies this`result, this`snapshot
      ensures Valid()
      ensures old(result).Some? ==> result == old(result) && snapshot == old(snapshot)
      ensures old(result).None? && r.Ok? ==> snapshot == storage.rows
      ensures r.Ok? <==> StartKey(listing, Request()).Ok?
      ensures r.Ok? ==> forall d :: IsDisplay(listing, snapshot, reverse, d) ==>
                          r.value == PageOf(listing, d, Request(), StartKey(listing, Request()).value)
    {
      var edges := Edges();
      if edges.Err? {
        return Err(edges.error);
      }
      r := Ok(seq(|edges.value|, i requires 0 <= i < |edges.value| => edges.value[i].node));
    }

    method GetPageInfo() returns (r: Result<PageInfo, Error>)
      requires Valid() && Acceptable(Request()) && DistinctIds(storage.rows)
      modifies this`result, this`snapshot
      ensures Valid()
      ensures old(result).Some? ==> result == old(result) && snapshot == old(snapshot)
      ensures old(result).None? && r.Ok? ==> snapshot == storage.rows
      ensures r.Ok? <==> StartKey(listing, Request()).Ok?
      ensures r.Ok? ==> forall d :: IsDisplay(listing, snapshot, reverse, d) ==>
                          r.value == PageInfoOf(listing, d, Request(), StartKey(listing, Request()).value)
    {
      var fetched := GetResult();
      if fetched.Err? {
        return Err(fetched.error);
      }
      var edges := fetched.value;
      if edges == [] {
        r := Ok(PageInfo(false, false, None, None));
      } else {
        var count := |edges|;
        var limit := if first.Some? then first.value else last.value;
        var lastIndex := (if limit < count then limit else count) - 1;
        r := Ok(PageInfo(
          before.Some? || (first.Some? && first.value < count),
          after.Some? || (last.Some? && last.value < count),
          Some(if last.Some? then edges[lastIndex].cursor else edges[0].cursor),
          Some(if last.Some? then edges[0].cursor else edges[lastIndex].cursor)));
      }
      PageInfoFromEdges(listing, snapshot, Request(), StartKey(listing, Request()).value, edges, r.value);
    }
  }

  lemma PageInfoFromEdges(l: Listing, rows: seq<Node>, p: Pagination, k: Option<Key>, edges: seq<Edge>, info: PageInfo)
    requires Acceptable(p) && IsOverFetch(l, rows, p, k, edges)
    requires if edges == [] then info == PageInfo(false, false, None, None)
             else
               var limit := if p.first.Some? then p.first.value else p.last.value;
               var lastIndex := (if limit < |edges| then limit else |edges|) - 1;
               && info.hasNextPage == (p.before.Some? || (p.first.Some? && limit < |edges|))
               && info.hasPreviousPage == (p.after.Some? || (p.last.Some? && limit < |edges|))
               && info.startCursor == Some(edges[if p.last.Some? then lastIndex else 0].cursor)
               && info.endCursor == Some(edges[if p.last.Some? then 0 else lastIndex].cursor)
    ensures forall d :: IsDisplay(l, rows, p.reverse, d) ==> info == PageInfoOf(l, d, p, k)
  {
    hide IsDisplay, PageInfoOf, OverFetch;
    forall d | IsDisplay(l, rows, p.reverse, d) ensures info == PageInfoOf(l, d, p, k) {
      PageInfoFromFetch(l, d, p, k);
    }
  }

  /** The flags and cursors that the over-fetched edges determine are those of the page. */
  lemma PageInfoFromFetch(l: Listing, display: seq<Node>, p: Pagination, k: Option<Key>)
    requires Acceptable(p)
    ensures var limit := if p.first.Some? then p.first.value else p.last.value;
            var fetched := OverFetch(l, display, p, k);
            var info := PageInfoOf(l, display, p, k);
            if fetched == [] then info == PageInfo(false, false, None, None)
            else
              var lastIndex := (if limit < |fetched| then limit else |fetched|) - 1;
              && info.hasNextPage == (p.before.Some? || (p.first.Some? && limit < |fetched|))
              && info.hasPreviousPage == (p.after.Some? || (p.last.Some? && limit < |fetched|))
              && info.startCursor == Some(EdgeOf(l, fetched[if p.last.Some? then lastIndex else 0]).cursor)
              && info.endCursor == Some(EdgeOf(l, fetched[if p.last.Some? then 0 else lastIndex]).cursor)
  {
    SliceAndFlip(l, display, p, k);
  }

  lemma CursorCondition(l: Listing, ascending: bool, c: Cursor, alternatives: seq<Condition>, node: Node)
    requires var operator := if ascending then Greater else Less;
             var condition := Compare(l.sortColumn, c.sortValue, operator);
             alternatives ==
               if l.sortColumn == IdColumn then [condition]
               else [condition,
                     AllOf([Compare(l.sortColumn, c.sortValue, Equal), Compare(IdColumn, c.backingId, operator)])]
    ensures Holds(AnyOf(alternatives), node) <==> KeyBefore(ascending, CursorKey(l, c), KeyOf(l, node))
  {
    assert alternatives[0] in alternatives;
    assert Holds(alternatives[0], node) <==>
        KeyBefore(ascending, Key(c.sortValue, 0), Key(ColumnValue(node, l.sortColumn), 0));
    if l.sortColumn != IdColumn {
      var tie := alternatives[1];
      assert tie in alternatives && forall x | x in alternatives :: x == alternatives[0] || x == tie;
      assert tie.conditions[0] in tie.conditions && tie.conditions[1] in tie.conditions;
      assert Holds(tie, node) <==> Holds(tie.conditions[0], node) && Holds(tie.conditions[1], node);
    }
  }

  lemma EdgesCommute(l: Listing, nodes: seq<Node>, n: int)
    ensures Take(EdgesOf(l, nodes), n) == EdgesOf(l, Take(nodes, n))
    ensures Reverse(EdgesOf(l, Take(nodes, n))) == EdgesOf(l, Reverse(Take(nodes, n)))
  {
    hide EdgesOf, EdgeOf;
    var front := Take(nodes, n);
    assert |EdgesOf(l, front)| == |front|;
  }

  lemma QueryFetchesCandidates(l: Listing, rows: seq<Node>, p: Pagination, k: Option<Key>,
                               conditions: seq<Condition>, sorts: seq<(Column, Direction)>)
    requires Acceptable(p) && DistinctIds(rows)
    requires if k.None? then conditions == [] else |conditions| == 1
    requires k.Some? ==> forall node ::
                           Holds(conditions[0], node) <==>
                             KeyBefore(if p.first.Some? then !p.reverse else p.reverse, k.value, KeyOf(l, node))
    requires var direction := if (if p.first.Some? then !p.reverse else p.reverse) then Asc else Desc;
             sorts == if l.sortColumn == IdColumn then [(IdColumn, direction)]
               else [(l.sortColumn, direction), (IdColumn, direction)]
    ensures var limit := if p.first.Some? then p.first.value else p.last.value;
            IsOverFetch(l, rows, p, k, EdgesOf(l, RunQuery(rows, conditions, sorts, Some(limit + 1))))
  {
    var ascending := if p.first.Some? then !p.reverse else p.reverse;
    var selected := Select(conditions, rows);
    var sorted := SortRows(sorts, selected);
    SortRowsOrdered(sorts, selected);
    SortedByKey(l, ascending, sorts, sorted);
    forall display | IsDisplay(l, rows, p.reverse, display)
      ensures sorted == if p.first.Some? then Candidates(l, display, p, k) else Reverse(Candidates(l, display, p, k))
    {
      var c := Candidates(l, display, p, k);
      forall node ensures node in selected <==> node in c {
        if k.Some? { assert conditions[0] in conditions; }
      }
      AfterSorted(l, ascending, !p.reverse, display, k);
      if p.last.Some? { ReverseSorted(l, !p.reverse, c); }
      SortedUnique(l, ascending, sorted, if p.first.Some? then c else Reverse(c));
    }
  }

  /** Dropping the extra element and flipping a backward fetch gives the page. */
  lemma SliceAndFlip(l: Listing, display: seq<Node>, p: Pagination, k: Option<Key>)
    requires Acceptable(p)
    ensures var limit := if p.first.Some? then p.first.value else p.last.value;
            var fetched := OverFetch(l, display, p, k);
            var page := PageOf(l, display, p, k);
            && page == (if p.last.Some? then Reverse(Take(fetched, limit)) else Take(fetched, limit))
            && (|page| < |Candidates(l, display, p, k)| <==> limit < |fetched|)
            && (page == [] <==> fetched == [])
  {
    var c := Candidates(l, display, p, k);
    hide Candidates;
    if p.last.Some? {
      FlipTail(c, p.last.value);
    } else {
      SliceFront(c, p.first.value);
    }
  }

  lemma FlipTail(c: seq<Node>, limit: int)
    requires 1 <= limit
    ensures var fetched := Take(Reverse(c), limit + 1);
            && TakeLast(c, limit) == Reverse(Take(fetched, limit))
            && (|TakeLast(c, limit)| < |c| <==> limit < |fetched|) && (TakeLast(c, limit) == [] <==> fetched == [])
  {
    assert Take(Take(Reverse(c), limit + 1), limit) == Take(Reverse(c), limit);
    assert Reverse(Take(Reverse(c), limit)) == TakeLast(c, limit);
  }

  lemma SliceFront(c: seq<Node>, limit: int)
    requires 1 <= limit
    ensures var fetched := Take(c, limit + 1);
            Take(c, limit) == Take(fetched, limit) && (|Take(c, limit)| < |c| <==> limit < |fetched|) &&
              (Take(c, limit) == [] <==> fetched == [])
  {
    assert Take(Take(c, limit + 1), limit) == Take(c, limit);
  }

  /** Which error is reported, by the request: the first of these that applies. */
  lemma ErrorsReported(p: Pagination)
    ensures var r := AssertValidPagination(p, MAX_LIMIT);
            && (r == Some(MissingFirstOrLast) <==> p.first == None && p.last == None)
            && (r == Some(BothFirstAndLast) <==> p.first.Some? && p.last.Some?)
            && (r == Some(FirstWithBefore) <==> p.first.Some? && p.last == None && p.before.Some?)
            && (r == Some(LastWithAfter) <==> p.last.Some? && p.first == None && p.after.Some?)
            && (r == Some(FirstNotPositive) <==>
                  p.first.Some? && p.last == None && p.before == None && p.first.value <= 0)
            && (r == Some(LastNotPositive) <==>
                  p.last.Some? && p.first == None && p.after == None && p.last.value <= 0)
            && (r == Some(LimitTooLarge) <==>
                  || (p.first.Some? && p.last == None && p.before == None && p.first.value > 100)
                  || (p.last.Some? && p.first == None && p.after == None && p.last.value > 100))
            && (r == None <==>
                  || (p.first.Some? && p.last == None && p.before == None && 1 <= p.first.value <= 100)
                  || (p.last.Some? && p.first == None && p.after == None && 1 <= p.last.value <= 100))
            && (r == None <==> Acceptable(p))
  {
  }

  /**
   * The cursor that a listing has given to an element makes a page start at the key of that element. Cursors given by
   * a listing of another type or under another sort key are refused, and so are texts that are no cursors.
   */
  lemma CursorsOfListing(l: Listing, m: Listing, node: Node, p: Pagination)
    requires CursorOf(p).Some?
    ensures CursorOf(p).value == EdgeOf(m, node).cursor && m.sortColumn == l.sortColumn ==>
              StartKey(l, p) == if m.backingType == l.backingType && m.sortKey == l.sortKey
                                then Ok(Some(KeyOf(l, node))) else Err(InvalidCursor)
    ensures CursorOf(p).value == Malformed ==> StartKey(l, p) == Err(InvalidCursor)
  {
  }
}
