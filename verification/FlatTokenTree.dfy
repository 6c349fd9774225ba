/** Flattening a token tree: no node is lost, and the order is that of the tree read from top to bottom. */
module FlatTokenTree {
  import opened DelimitedText
  import opened TokenTree

  /** A table in which keys keep the place where they were first entered. */
  type Table = seq<(string, Node)>

  predicate Has(table: Table, key: string) {
    exists i :: 0 <= i < |table| && table[i].0 == key
  }

  /** Enters a value, in place of the one under the same key if there is one. */
  function Put(table: Table, key: string, node: Node): Table {
    if table == [] then [(key, node)]
    else if table[0].0 == key then [(key, node)] + table[1..]
    else [table[0]] + Put(table[1..], key, node)
  }

  /** Adds the entries of another table whose keys are new. */
  function Union(table: Table, more: Table): Table
    decreases |more|
  {
    if more == [] then table
    else Union(if Has(table, more[0].0) then table else table + [more[0]], more[1..])
  }

  function Flatten(tree: seq<Node>, n: nat): Table
    requires n <= |tree|
    decreases tree, n
  {
    if n == 0 then []
    else
      var node := tree[n - 1];
      Union(Put(Flatten(tree, n - 1), node.raw, node), Flatten(node.children, |node.children|))
  }

  method FlattenTree(tree: seq<Node>) returns (result: Table)
    ensures result == Flatten(tree, |tree|)
    decreases tree
  {
    result := [];
    for i := 0 to |tree|
      invariant result == Flatten(tree, i)
    {
      result := Put(result, tree[i].raw, tree[i]);
      var children := FlattenTree(tree[i].children);
      result := Union(result, children);
    }
  }

  function Entered(nodes: seq<Node>): Table {
    seq(|nodes|, i requires 0 <= i < |nodes| => (nodes[i].raw, nodes[i]))
  }

  ghost predicate DistinctRaw(nodes: seq<Node>) {
    forall i, j | 0 <= i < j < |nodes| :: nodes[i].raw != nodes[j].raw
  }

  lemma {:induction false} PutNew(table: Table, key: string, node: Node)
    requires !Has(table, key)
    ensures Put(table, key, node) == table + [(key, node)]
  {
    if table != [] {
      assert table[0].0 != key;
      assert forall i | 0 <= i < |table[1..]| :: table[1..][i] == table[i + 1];
      PutNew(table[1..], key, node);
    }
  }

  lemma {:induction false} UnionNew(table: Table, more: Table)
    requires forall i | 0 <= i < |more| :: !Has(table, more[i].0)
    requires forall i, j | 0 <= i < j < |more| :: more[i].0 != more[j].0
    ensures Union(table, more) == table + more
    decreases |more|
  {
    if more == [] {
      assert table + more == table;
    } else {
      var next := table + [more[0]];
      forall i | 0 <= i < |more[1..]| ensures !Has(next, more[1..][i].0) {
        assert more[1..][i] == more[i + 1];
        forall k | 0 <= k < |next| ensures next[k].0 != more[i + 1].0 {
          if k < |table| { assert next[k] == table[k]; } else { assert next[k] == more[0]; }
        }
      }
      UnionNew(next, more[1..]);
      assert next + more[1..] == table + more;
    }
  }

  lemma EnteredConcat(a: seq<Node>, b: seq<Node>)
    ensures Entered(a + b) == Entered(a) + Entered(b)
  {
  }

  lemma DistinctParts(a: seq<Node>, b: seq<Node>)
    requires DistinctRaw(a + b)
    ensures DistinctRaw(a) && DistinctRaw(b)
    ensures forall i | 0 <= i < |b| :: !Has(Entered(a), Entered(b)[i].0)
  {
    forall i, j | 0 <= i < j < |a| ensures a[i].raw != a[j].raw { assert (a + b)[i] == a[i] && (a + b)[j] == a[j]; }
    forall i, j | 0 <= i < j < |b| ensures b[i].raw != b[j].raw {
      assert (a + b)[|a| + i] == b[i] && (a + b)[|a| + j] == b[j];
    }
    forall k, i | 0 <= k < |a| && 0 <= i < |b| ensures a[k].raw != b[i].raw {
      assert (a + b)[k] == a[k] && (a + b)[|a| + i] == b[i];
    }
  }

  /** With different raw tokens throughout, the flat form holds exactly the nodes of the tree, top to bottom. */
  lemma {:induction false} FlattenKeeps(tree: seq<Node>, n: nat)
    requires n <= |tree| && DistinctRaw(AllNodes(tree[..n]))
    ensures Flatten(tree, n) == Entered(AllNodes(tree[..n]))
    decreases tree, n
  {
    if n == 0 {
      assert tree[..0] == [];
    } else {
      var node, before := tree[n - 1], tree[..n - 1];
      assert tree[..n] == before + [node];
      AllNodesConcat(before, [node]);
      AllNodesOne(node);
      var (a, b) := (AllNodes(before), AllNodes(node.children));
      assert a + ([node] + b) == (a + [node]) + b;
      DistinctParts(a + [node], b);
      DistinctParts(a, [node]);
      FlattenKeeps(tree, n - 1);
      assert node.children[..|node.children|] == node.children;
      FlattenKeeps(node.children, |node.children|);
      assert Entered([node]) == [(node.raw, node)];
      assert Entered([node])[0].0 == node.raw;
      PutNew(Entered(a), node.raw, node);
      EnteredConcat(a, [node]);
      EnteredConcat(a + [node], b);
      UnionNew(Entered(a + [node]), Entered(b));
    }
  }

  // --- Generated trees have different raw tokens ---

  /** The names that a raw token is made of. */
  ghost function NamesOf(raw: string): seq<string> {
    if |raw| < 2 then [] else Explode(raw[1..|raw| - 1], ':')
  }

  lemma NamesOfRaw(names: seq<string>)
    requires names != [] && forall name | name in names :: Free(name, ':')
    ensures NamesOf(Raw(names)) == names
  {
    assert Raw(names)[1..|Raw(names)| - 1] == Implode(names, ':');
    ExplodeImplode(names, ':');
  }

  ghost predicate FreeNames(names: seq<string>) {
    forall name | name in names :: Free(name, ':')
  }

  /** The nodes below given parents: longer than the parents, and told apart by the next name. */
  ghost predicate Under(base: seq<string>, firsts: set<string>, nodes: seq<Node>) {
    forall i | 0 <= i < |nodes| ::
      var names := NamesOf(nodes[i].raw);
      |base| < |names| && base == names[..|base|] && names[|base|] in firsts
  }

  ghost function FirstNames(info: Info, kind: string, n: nat): set<string>
    requires kind in info.tokens && n <= |info.tokens[kind]|
  {
    set i | 0 <= i < n :: info.tokens[kind][i].0
  }

  /** No type that tokens lead to has a colon in its name. */
  ghost predicate TypesFree(info: Info) {
    forall k, i | k in info.tokens && 0 <= i < |info.tokens[k]| && info.tokens[k][i].1.chain.Some? ::
      Free(info.tokens[k][i].1.chain.value, ':')
  }

  lemma TypeIsFree(info: Info, kind: string, i: nat)
    requires TypesFree(info) && kind in info.tokens && i < |info.tokens[kind]|
    ensures info.tokens[kind][i].1.chain.Some? ==> Free(info.tokens[kind][i].1.chain.value, ':')
  {
  }

  lemma {:induction false} TreeDistinct(info: Info, kind: string, depth: int, parents: seq<string>)
    requires WellNamed(info) && Free(kind, ':') && FreeNames(parents)
    requires TypesFree(info)
    ensures DistinctRaw(AllNodes(TokenData(info, kind, depth, parents)))
    ensures kind in info.tokens ==>
              Under(Base(kind, parents), FirstNames(info, kind, |info.tokens[kind]|),
                AllNodes(TokenData(info, kind, depth, parents)))
    ensures kind !in info.tokens ==> AllNodes(TokenData(info, kind, depth, parents)) == []
    decreases if depth < 0 then 0 else depth, 1, 0
  {
    if depth > 0 && kind in info.types && kind in info.tokens {
      EntriesDistinct(info, kind, depth, parents, |info.tokens[kind]|);
    }
  }

  lemma {:induction false} EntriesDistinct(info: Info, kind: string, depth: int, parents: seq<string>, n: nat)
    requires WellNamed(info) && Free(kind, ':') && FreeNames(parents)
    requires TypesFree(info)
    requires depth > 0 && kind in info.tokens && n <= |info.tokens[kind]|
    ensures DistinctRaw(AllNodes(Entries(info, kind, depth, parents, n)))
    ensures Under(Base(kind, parents), FirstNames(info, kind, n), AllNodes(Entries(info, kind, depth, parents, n)))
    decreases if depth < 0 then 0 else depth, 0, n
  {
    hide *;
    if n == 0 {
      NothingDistinct(info, kind, depth, parents);
    } else {
      var (name, token) := info.tokens[kind][n - 1];
      EntriesDistinct(info, kind, depth, parents, n - 1);
      if Repeated(parents, name) {
        SkippedDistinct(info, kind, depth, parents, n);
      } else {
        var names := Extended(Base(kind, parents), name, token);
        NameIsFree(info, kind, n - 1);
        TypeIsFree(info, kind, n - 1);
        BaseFree(kind, parents);
        ExtendedFree(Base(kind, parents), name, token);
        if token.chain.Some? { TreeDistinct(info, token.chain.value, depth - 1, names); }
        EntryDistinct(info, kind, depth, parents, name, token);
        NextDistinct(info, kind, depth, parents, n, name, token);
      }
    }
  }

  lemma NothingDistinct(info: Info, kind: string, depth: int, parents: seq<string>)
    requires depth > 0 && kind in info.tokens
    ensures DistinctRaw(AllNodes(Entries(info, kind, depth, parents, 0)))
    ensures Under(Base(kind, parents), FirstNames(info, kind, 0), AllNodes(Entries(info, kind, depth, parents, 0)))
  {
  }

  lemma NextDistinct(info: Info, kind: string, depth: int, parents: seq<string>, n: nat, name: string, token: TokenInfo)
    requires WellNamed(info) && depth > 0 && kind in info.tokens && 0 < n <= |info.tokens[kind]|
    requires info.tokens[kind][n - 1] == (name, token) && !Repeated(parents, name)
    requires DistinctRaw(AllNodes(Entries(info, kind, depth, parents, n - 1)))
    requires Under(Base(kind, parents), FirstNames(info, kind, n - 1),
                AllNodes(Entries(info, kind, depth, parents, n - 1)))
    requires DistinctRaw(AllNodes([Entry(info, kind, depth, parents, name, token)]))
    requires Under(Base(kind, parents), {name}, AllNodes([Entry(info, kind, depth, parents, name, token)]))
    ensures DistinctRaw(AllNodes(Entries(info, kind, depth, parents, n)))
    ensures Under(Base(kind, parents), FirstNames(info, kind, n), AllNodes(Entries(info, kind, depth, parents, n)))
  {
    hide *;
    var before, entry := Entries(info, kind, depth, parents, n - 1), Entry(info, kind, depth, parents, name, token);
    NextEntry(info, kind, depth, parents, n);
    AllNodesConcat(before, [entry]);
    FirstNamesGrow(info, kind, n);
    JoinDistinct(Base(kind, parents), FirstNames(info, kind, n - 1), name, AllNodes(before), AllNodes([entry]));
  }

  lemma NameIsFree(info: Info, kind: string, i: nat)
    requires WellNamed(info) && kind in info.tokens && i < |info.tokens[kind]|
    ensures Free(info.tokens[kind][i].0, ':')
  {
  }

  lemma BaseFree(kind: string, parents: seq<string>)
    requires Free(kind, ':') && FreeNames(parents)
    ensures FreeNames(Base(kind, parents))
  {
  }

  lemma SkippedDistinct(info: Info, kind: string, depth: int, parents: seq<string>, n: nat)
    requires WellNamed(info) && depth > 0 && kind in info.tokens && 0 < n <= |info.tokens[kind]|
    requires Repeated(parents, info.tokens[kind][n - 1].0)
    requires Under(Base(kind, parents), FirstNames(info, kind, n - 1),
                AllNodes(Entries(info, kind, depth, parents, n - 1)))
    ensures Entries(info, kind, depth, parents, n) == Entries(info, kind, depth, parents, n - 1)
    ensures Under(Base(kind, parents), FirstNames(info, kind, n), AllNodes(Entries(info, kind, depth, parents, n)))
  {
    assert Entries(info, kind, depth, parents, n) == Entries(info, kind, depth, parents, n - 1) + [];
    FirstNamesGrow(info, kind, n);
    UnderMore(Base(kind, parents), FirstNames(info, kind, n - 1), FirstNames(info, kind, n),
              AllNodes(Entries(info, kind, depth, parents, n - 1)));
  }

  lemma NextEntry(info: Info, kind: string, depth: int, parents: seq<string>, n: nat)
    requires depth > 0 && kind in info.tokens && 0 < n <= |info.tokens[kind]|
    requires !Repeated(parents, info.tokens[kind][n - 1].0)
    ensures Entries(info, kind, depth, parents, n) ==
              Entries(info, kind, depth, parents, n - 1) +
              [Entry(info, kind, depth, parents, info.tokens[kind][n - 1].0, info.tokens[kind][n - 1].1)]
  {
  }

  lemma FirstNamesGrow(info: Info, kind: string, n: nat)
    requires WellNamed(info) && kind in info.tokens && 0 < n <= |info.tokens[kind]|
    ensures FirstNames(info, kind, n) == FirstNames(info, kind, n - 1) + {info.tokens[kind][n - 1].0}
    ensures info.tokens[kind][n - 1].0 !in FirstNames(info, kind, n - 1)
  {
  }

  lemma UnderMore(base: seq<string>, a: set<string>, b: set<string>, nodes: seq<Node>)
    requires Under(base, a, nodes) && a <= b
    ensures Under(base, b, nodes)
  {
  }

  lemma ExtendedFree(base: seq<string>, name: string, token: TokenInfo)
    requires FreeNames(base) && Free(name, ':')
    ensures FreeNames(Extended(base, name, token)) && Extended(base, name, token) != []
    ensures |base| < |Extended(base, name, token)| && Extended(base, name, token)[..|base|] == base
    ensures Extended(base, name, token)[|base|] == name
  {
  }

  /** An entry and what lies below it. */
  lemma EntryDistinct(info: Info, kind: string, depth: int, parents: seq<string>, name: string, token: TokenInfo)
    requires depth > 0 && FreeNames(Base(kind, parents)) && Free(name, ':')
    requires var names := Extended(Base(kind, parents), name, token);
             token.chain.Some? ==>
               var tree := TokenData(info, token.chain.value, depth - 1, names);
               && DistinctRaw(AllNodes(tree))
               && (token.chain.value in info.tokens ==>
                     Under(Base(token.chain.value, names),
                       FirstNames(info, token.chain.value, |info.tokens[token.chain.value]|), AllNodes(tree)))
               && (token.chain.value !in info.tokens ==> AllNodes(tree) == [])
    ensures DistinctRaw(AllNodes([Entry(info, kind, depth, parents, name, token)]))
    ensures Under(Base(kind, parents), {name}, AllNodes([Entry(info, kind, depth, parents, name, token)]))
  {
    hide TokenData, NamesOf, Raw, Under, DistinctRaw, AllNodes;
    var base, entry := Base(kind, parents), Entry(info, kind, depth, parents, name, token);
    var names := Extended(base, name, token);
    ExtendedFree(base, name, token);
    NamesOfRaw(names);
    NoNodes(names);
    var firsts := {};
    if token.chain.Some? && token.chain.value in info.tokens {
      firsts := FirstNames(info, token.chain.value, |info.tokens[token.chain.value]|);
      assert Base(token.chain.value, names) == names;
    }
    EntryAbove(base, name, names, entry, firsts);
  }

  lemma NoNodes(names: seq<string>)
    ensures AllNodes([]) == [] && DistinctRaw([]) && Under(names, {}, [])
  {
  }

  lemma EntryAbove(base: seq<string>, name: string, names: seq<string>, entry: Node, firsts: set<string>)
    requires |base| < |names| && names[..|base|] == base && names[|base|] == name && NamesOf(entry.raw) == names
    requires DistinctRaw(AllNodes(entry.children)) && Under(names, firsts, AllNodes(entry.children))
    ensures DistinctRaw(AllNodes([entry])) && Under(base, {name}, AllNodes([entry]))
  {
    AllNodesOne(entry);
    hide NamesOf, AllNodes;
    var below := AllNodes(entry.children);
    forall i | 0 <= i < |below|
      ensures below[i].raw != entry.raw
      ensures var it := NamesOf(below[i].raw); |base| < |it| && base == it[..|base|] && it[|base|] == name
    {
      var it := NamesOf(below[i].raw);
      assert names == it[..|names|];
      assert base == it[..|names|][..|base|] == it[..|base|];
    }
  }

  /** Nodes told apart by the next name. */
  lemma JoinDistinct(base: seq<string>, firsts: set<string>, name: string, a: seq<Node>, b: seq<Node>)
    requires DistinctRaw(a) && DistinctRaw(b) && Under(base, firsts, a) && Under(base, {name}, b) && name !in firsts
    ensures DistinctRaw(a + b) && Under(base, firsts + {name}, a + b)
  {
    forall i, j | 0 <= i < j < |a + b| ensures (a + b)[i].raw != (a + b)[j].raw {
      if i < |a| <= j {
        assert NamesOf(a[i].raw)[|base|] in firsts && NamesOf(b[j - |a|].raw)[|base|] in {name};
      }
    }
  }

  /** Flattening a generated tree keeps every node, in order. */
  lemma FlatTreeKeepsNodes(info: Info, kind: string, depth: int)
    requires WellNamed(info) && Free(kind, ':')
    requires TypesFree(info)
    ensures var tree := TokenData(info, kind, depth, []);
            Flatten(tree, |tree|) == Entered(AllNodes(tree)) && DistinctRaw(AllNodes(tree))
  {
    var tree := TokenData(info, kind, depth, []);
    TreeDistinct(info, kind, depth, []);
    assert tree[..|tree|] == tree;
    FlattenKeeps(tree, |tree|);
  }

  // --- Equal keys ---

  /** An entry under a key that is there already takes the place of the old one. */
  lemma {:induction false} PutAgain(table: Table, key: string, node: Node) returns (i: nat)
    requires Has(table, key)
    ensures i < |table| && table[i].0 == key && (forall j | 0 <= j < i :: table[j].0 != key)
    ensures Put(table, key, node) == table[i := (key, node)]
  {
    var k :| 0 <= k < |table| && table[k].0 == key;
    if table[0].0 == key {
      i := 0;
    } else {
      assert table[1..][k - 1].0 == key;
      i := PutAgain(table[1..], key, node);
      i := i + 1;
      assert forall j | 0 < j < i :: table[j] == table[1..][j - 1];
    }
  }

  /** Adding a table changes nothing that is there: entries under keys in use are passed over. */
  lemma {:induction false} UnionKeeps(table: Table, more: Table)
    ensures table <= Union(table, more)
    ensures forall key :: Has(Union(table, more), key) <==> Has(table, key) || Has(more, key)
    decreases |more|
  {
    if more != [] {
      var next := if Has(table, more[0].0) then table else table + [more[0]];
      UnionKeeps(next, more[1..]);
      forall key ensures Has(more, key) <==> key == more[0].0 || Has(more[1..], key) {
        if key == more[0].0 { assert more[0].0 == key; }
        if i :| 0 <= i < |more| && more[i].0 == key { if i > 0 { assert more[1..][i - 1].0 == key; } }
        if i :| 0 <= i < |more[1..]| && more[1..][i].0 == key { assert more[i + 1].0 == key; }
      }
      forall key ensures Has(next, key) <==> Has(table, key) || key == more[0].0 {
        if Has(table, key) { var i :| 0 <= i < |table| && table[i].0 == key; assert next[i].0 == key; }
        if !Has(table, more[0].0) { assert next[|table|] == more[0]; }
      }
    }
  }
}
