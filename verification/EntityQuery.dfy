/**
 * The part of the entity query interface that a connection uses: conditions, sorts and a range over
 * the rows of one storage.
 */
module EntityQueries {
  import opened Wrappers

  /** A stored entity: its unique id and the value of the column a listing may sort by. */
  datatype Node = Node(id: int, sortValue: int)

  datatype Column = IdColumn | SortColumn

  datatype Direction = Asc | Desc

  datatype Operator = Less | Greater | Equal

  datatype Condition =
    | Compare(column: Column, value: int, operator: Operator)
    | AllOf(conditions: seq<Condition>)
    | AnyOf(conditions: seq<Condition>)

  function ColumnValue(node: Node, column: Column): int {
    match column
    case IdColumn => node.id
    case SortColumn => node.sortValue
  }

  predicate Holds(condition: Condition, node: Node) {
    match condition
    case Compare(column, value, Less) => ColumnValue(node, column) < value
    case Compare(column, value, Greater) => ColumnValue(node, column) > value
    case Compare(column, value, Equal) => ColumnValue(node, column) == value
    case AllOf(conditions) => forall c | c in conditions :: Holds(c, node)
    case AnyOf(conditions) => exists c | c in conditions :: Holds(c, node)
  }

  /** The rows that meet every condition, in storage order. */
  function Select(conditions: seq<Condition>, rows: seq<Node>): (selected: seq<Node>)
    ensures forall node :: node in selected <==> node in rows && forall c | c in conditions :: Holds(c, node)
    ensures DistinctIds(rows) ==> DistinctIds(selected)
  {
    if rows == [] then []
    else
      var rest := Select(conditions, rows[1..]);
      assert forall k :: 0 <= k < |rest| ==> rest[k] in rest;
      if forall c | c in conditions :: Holds(c, rows[0]) then [rows[0]] + rest else rest
  }

  ghost predicate DistinctIds(rows: seq<Node>) {
    forall i, j :: 0 <= i < j < |rows| ==> rows[i].id != rows[j].id
  }

  /** `a` may stand before `b` in a result ordered by `sorts`. */
  predicate MayPrecede(sorts: seq<(Column, Direction)>, a: Node, b: Node) {
    if sorts == [] then true
    else
      var (x, y) := (ColumnValue(a, sorts[0].0), ColumnValue(b, sorts[0].0));
      if x == y then MayPrecede(sorts[1..], a, b)
      else if sorts[0].1 == Asc then x < y else y < x
  }

  lemma MayPrecedeTotal(sorts: seq<(Column, Direction)>, a: Node, b: Node)
    ensures MayPrecede(sorts, a, b) || MayPrecede(sorts, b, a)
  {
  }

  lemma MayPrecedeTransitive(sorts: seq<(Column, Direction)>, a: Node, b: Node, c: Node)
    requires MayPrecede(sorts, a, b) && MayPrecede(sorts, b, c)
    ensures MayPrecede(sorts, a, c)
  {
  }

  ghost predicate Ordered(sorts: seq<(Column, Direction)>, rows: seq<Node>) {
    forall i, j :: 0 <= i < j < |rows| ==> MayPrecede(sorts, rows[i], rows[j])
  }

  function Insert(sorts: seq<(Column, Direction)>, node: Node, ordered: seq<Node>): (r: seq<Node>)
    ensures forall x :: x in r <==> x == node || x in ordered
  {
    if ordered == [] then [node]
    else if MayPrecede(sorts, node, ordered[0]) then [node] + ordered
    else [ordered[0]] + Insert(sorts, node, ordered[1..])
  }

  /** The rows in the order the database returns them under `sorts`. */
  function SortRows(sorts: seq<(Column, Direction)>, rows: seq<Node>): (r: seq<Node>)
    ensures forall x :: x in r <==> x in rows
  {
    if rows == [] then [] else Insert(sorts, rows[0], SortRows(sorts, rows[1..]))
  }

  lemma {:induction false} InsertOrdered(sorts: seq<(Column, Direction)>, node: Node, ordered: seq<Node>)
    requires Ordered(sorts, ordered)
    ensures Ordered(sorts, Insert(sorts, node, ordered))
  {
    if ordered != [] {
      var tail := Insert(sorts, node, ordered[1..]);
      if MayPrecede(sorts, node, ordered[0]) {
        forall j | 0 < j < |ordered| ensures MayPrecede(sorts, node, ordered[j]) {
          MayPrecedeTransitive(sorts, node, ordered[0], ordered[j]);
        }
      } else {
        MayPrecedeTotal(sorts, node, ordered[0]);
        InsertOrdered(sorts, node, ordered[1..]);
        assert forall j :: 0 <= j < |tail| ==> tail[j] in tail;
      }
    }
  }

  lemma {:induction false} InsertDistinct(sorts: seq<(Column, Direction)>, node: Node, ordered: seq<Node>)
    requires DistinctIds(ordered) && forall x | x in ordered :: x.id != node.id
    ensures DistinctIds(Insert(sorts, node, ordered))
  {
    if ordered != [] {
      InsertDistinct(sorts, node, ordered[1..]);
      var tail := Insert(sorts, node, ordered[1..]);
      assert forall j :: 0 <= j < |tail| ==> tail[j] in tail;
    }
  }

  lemma {:induction false} SortRowsOrdered(sorts: seq<(Column, Direction)>, rows: seq<Node>)
    requires DistinctIds(rows)
    ensures Ordered(sorts, SortRows(sorts, rows)) && DistinctIds(SortRows(sorts, rows))
  {
    if rows != [] {
      SortRowsOrdered(sorts, rows[1..]);
      InsertOrdered(sorts, rows[0], SortRows(sorts, rows[1..]));
      InsertDistinct(sorts, rows[0], SortRows(sorts, rows[1..]));
    }
  }

  function Take<T>(s: seq<T>, n: int): (r: seq<T>)
    ensures n >= |s| ==> r == s
    ensures 0 <= n <= |s| ==> r == s[..n]
  {
    if n <= 0 then [] else if n < |s| then s[..n] else s
  }

  class Storage {
    var rows: seq<Node>

    constructor (rows: seq<Node>)
      ensures this.rows == rows
    {
      this.rows := rows;
    }
  }

  class EntityQuery {
    var conditions: seq<Condition>
    var sorts: seq<(Column, Direction)>
    var length: Option<int>

    constructor ()
      ensures conditions == [] && sorts == [] && length == None
    {
      conditions, sorts, length := [], [], None;
    }

    method Where(condition: Condition)
      modifies this
      ensures conditions == old(conditions) + [condition]
      ensures sorts == old(sorts) && length == old(length)
    {
      conditions := conditions + [condition];
    }

    method SortOn(column: Column, direction: Direction)
      modifies this
      ensures sorts == old(sorts) + [(column, direction)]
      ensures conditions == old(conditions) && length == old(length)
    {
      sorts := sorts + [(column, direction)];
    }

    method Range(length: int)
      modifies this
      ensures this.length == Some(length)
      ensures conditions == old(conditions) && sorts == old(sorts)
    {
      this.length := Some(length);
    }

    method Execute(storage: Storage) returns (nodes: seq<Node>)
      ensures nodes == RunQuery(storage.rows, conditions, sorts, length)
    {
      nodes := SortRows(sorts, Select(conditions, storage.rows));
      if length.Some? {
        nodes := Take(nodes, length.value);
      }
    }
  }

  function RunQuery(rows: seq<Node>, conditions: seq<Condition>, sorts: seq<(Column, Direction)>, length: Option<int>)
    : seq<Node>
  {
    var sorted := SortRows(sorts, Select(conditions, rows));
    if length.Some? then Take(sorted, length.value) else sorted
  }
}
