/** The tree of tokens that can be chained from a token type, generated down to a depth, and its flat form. */
module TokenTree {
  import opened Wrappers
  import opened DelimitedText

  /** What is declared of a token: whether any text may follow it, and the type of the tokens that may follow it. */
  datatype TokenInfo = TokenInfo(dynamic: bool, chain: Option<string>)

  /** The declared token types, and the tokens of each type in order. */
  datatype Info = Info(types: set<string>, tokens: map<string, seq<(string, TokenInfo)>>)

  datatype Node = Node(raw: string, token: string, parent: Option<string>, info: TokenInfo, children: seq<Node>)

  function Find(tokens: seq<(string, TokenInfo)>, name: string): (r: Option<TokenInfo>)
    ensures r.Some? ==> (name, r.value) in tokens
    ensures r.None? ==> forall i | 0 <= i < |tokens| :: tokens[i].0 != name
  {
    if tokens == [] then None
    else if tokens[0].0 == name then Some(tokens[0].1)
    else
      assert forall i | 0 <= i < |tokens[1..]| :: tokens[1..][i] == tokens[i + 1];
      Find(tokens[1..], name)
  }

  /** The tokens of a type have different names, without colons. */
  ghost predicate WellNamed(info: Info) {
    && (forall kind, i | kind in info.tokens && 0 <= i < |info.tokens[kind]| :: Free(info.tokens[kind][i].0, ':'))
    && (forall kind, i, j | kind in info.tokens && 0 <= i < j < |info.tokens[kind]| ::
          info.tokens[kind][i].0 != info.tokens[kind][j].0)
  }

  // --- Generation ---

  /** The names in front of a token; at the top that is the token type. */
  function Base(kind: string, parents: seq<string>): seq<string> {
    if parents == [] then [kind] else parents
  }

  predicate Repeated(parents: seq<string>, name: string) {
    parents != [] && name != "entity" && name in parents[1..]
  }

  function Extended(base: seq<string>, name: string, token: TokenInfo): seq<string> {
    base + [name] + if token.dynamic then ["?"] else []
  }

  function Raw(names: seq<string>): string {
    "[" + Implode(names, ':') + "]"
  }

  function TokenData(info: Info, kind: string, depth: int, parents: seq<string>): seq<Node>
    decreases if depth < 0 then 0 else depth, 2, 0
  {
    if depth <= 0 || kind !in info.types || kind !in info.tokens then []
    else Entries(info, kind, depth, parents, |info.tokens[kind]|)
  }

  /** What the first `n` tokens of a type contribute. */
  function Entries(info: Info, kind: string, depth: int, parents: seq<string>, n: nat): seq<Node>
    requires depth > 0 && kind in info.tokens && n <= |info.tokens[kind]|
    decreases if depth < 0 then 0 else depth, 1, n
  {
    if n == 0 then []
    else
      var (name, token) := info.tokens[kind][n - 1];
      Entries(info, kind, depth, parents, n - 1) +
      if Repeated(parents, name) then [] else [Entry(info, kind, depth, parents, name, token)]
  }

  function Entry(info: Info, kind: string, depth: int, parents: seq<string>, name: string, token: TokenInfo): Node
    requires depth > 0
    decreases if depth < 0 then 0 else depth, 0, 0
  {
    var names := Extended(Base(kind, parents), name, token);
    Node(Raw(names), Implode(names[1..], ':'), if parents == [] then None else Some(Raw(parents)), token,
         if token.chain.Some? then TokenData(info, token.chain.value, depth - 1, names) else [])
  }

  method GetTokenData(info: Info, kind: string, depth: int, parents: seq<string>) returns (tree: seq<Node>)
    ensures tree == TokenData(info, kind, depth, parents)
    decreases if depth < 0 then 0 else depth
  {
    if depth <= 0 || kind !in info.types || kind !in info.tokens {
      return [];
    }
    tree := [];
    for i := 0 to |info.tokens[kind]|
      invariant tree == Entries(info, kind, depth, parents, i)
    {
      var (name, token) := info.tokens[kind][i];
      var names := parents;
      var skip := false;
      if names == [] {
        names := [kind];
      } else if name != "entity" && name in names[1..] {
        skip := true;
      }
      if !skip {
        names := names + [name];
        if token.dynamic {
          names := names + ["?"];
        }
        var children := [];
        if token.chain.Some? {
          children := GetTokenData(info, token.chain.value, depth - 1, names);
        }
        assert names == Extended(Base(kind, parents), name, token);
        tree := tree + [Node(Raw(names), Implode(names[1..], ':'), if parents == [] then None else Some(Raw(parents)),
                             token, children)];
      }
    }
  }

  // --- All nodes of a tree ---

  function AllNodes(tree: seq<Node>): seq<Node>
    decreases tree
  {
    if tree == [] then [] else [tree[0]] + AllNodes(tree[0].children) + AllNodes(tree[1..])
  }

  lemma {:induction false} AllNodesConcat(a: seq<Node>, b: seq<Node>)
    ensures AllNodes(a + b) == AllNodes(a) + AllNodes(b)
  {
    if a == [] {
      assert a + b == b;
    } else {
      assert (a + b)[1..] == a[1..] + b;
      AllNodesConcat(a[1..], b);
    }
  }

  lemma AllNodesOne(node: Node)
    ensures AllNodes([node]) == [node] + AllNodes(node.children)
  {
    assert [node][1..] == [] && AllNodes([]) == [];
  }

  // --- Chains of tokens ---

  /** The chain of names that the tree lists below the given parents. */
  ghost predicate Listed(info: Info, kind: string, depth: int, parents: seq<string>, chain: seq<string>)
    decreases |chain|
  {
    && depth > 0 && kind in info.types && kind in info.tokens && chain != []
    && Find(info.tokens[kind], chain[0]).Some? && !Repeated(parents, chain[0])
    && (|chain| == 1 ||
        var token := Find(info.tokens[kind], chain[0]).value;
        && token.chain.Some?
        && Listed(info, token.chain.value, depth - 1, Extended(Base(kind, parents), chain[0], token), chain[1..]))
  }

  /** The names of a chain as they are spelled, with a question mark after every dynamic token. */
  ghost function Spelled(info: Info, kind: string, chain: seq<string>): seq<string>
    decreases |chain|
  {
    if chain == [] || kind !in info.tokens then []
    else
      match Find(info.tokens[kind], chain[0])
      case None => []
      case Some(token) =>
        Extended([], chain[0], token) +
        if token.chain.Some? then Spelled(info, token.chain.value, chain[1..]) else []
  }

  /** A node is spelled as its chain says. */
  ghost predicate SpelledAs(info: Info, kind: string, parents: seq<string>, chain: seq<string>, node: Node) {
    var names := Base(kind, parents) + Spelled(info, kind, chain);
    names != [] && node.raw == Raw(names) && node.token == Implode(names[1..], ':')
  }

  /** Every node of the tree stands for a listed chain. */
  lemma {:induction false} NodesAreListed(info: Info, kind: string, depth: int, parents: seq<string>, node: Node)
    returns (chain: seq<string>)
    requires WellNamed(info) && node in AllNodes(TokenData(info, kind, depth, parents))
    ensures Listed(info, kind, depth, parents, chain) && SpelledAs(info, kind, parents, chain, node)
    decreases if depth < 0 then 0 else depth, 2, 0
  {
    chain := EntriesAreListed(info, kind, depth, parents, |info.tokens[kind]|, node);
  }

  lemma FindAt(info: Info, kind: string, i: nat)
    requires WellNamed(info) && kind in info.tokens && i < |info.tokens[kind]|
    ensures Find(info.tokens[kind], info.tokens[kind][i].0) == Some(info.tokens[kind][i].1)
  {
    var name := info.tokens[kind][i].0;
    var r := Find(info.tokens[kind], name);
    if r.Some? {
      var j :| 0 <= j < |info.tokens[kind]| && info.tokens[kind][j] == (name, r.value);
    }
  }

  lemma {:induction false} EntriesAreListed(info: Info, kind: string, depth: int, parents: seq<string>, n: nat,
                                            node: Node)
    returns (chain: seq<string>)
    requires WellNamed(info) && depth > 0 && kind in info.types && kind in info.tokens && n <= |info.tokens[kind]|
    requires node in AllNodes(Entries(info, kind, depth, parents, n))
    ensures Listed(info, kind, depth, parents, chain) && SpelledAs(info, kind, parents, chain, node)
    decreases if depth < 0 then 0 else depth, 1, n
  {
    NoEntries(info, kind, depth, parents);
    hide *;
    if node in AllNodes(Entries(info, kind, depth, parents, n - 1)) {
      chain := EntriesAreListed(info, kind, depth, parents, n - 1, node);
    } else {
      chain := LastIsListed(info, kind, depth, parents, n, node);
    }
  }

  lemma {:induction false} LastIsListed(info: Info, kind: string, depth: int, parents: seq<string>, n: nat, node: Node)
    returns (chain: seq<string>)
    requires WellNamed(info) && depth > 0 && kind in info.types && kind in info.tokens && 0 < n <= |info.tokens[kind]|
    requires node in AllNodes(Entries(info, kind, depth, parents, n))
    requires node !in AllNodes(Entries(info, kind, depth, parents, n - 1))
    ensures Listed(info, kind, depth, parents, chain) && SpelledAs(info, kind, parents, chain, node)
    decreases depth, 0, 0
  {
    hide *;
    var name, token := info.tokens[kind][n - 1].0, info.tokens[kind][n - 1].1;
    FindAt(info, kind, n - 1);
    LastEntry(info, kind, depth, parents, n, name, token, node);
    if node == Entry(info, kind, depth, parents, name, token) {
      chain := [name];
      EntrySpelled(info, kind, depth, parents, name, token);
    } else {
      var rest := NodesAreListed(info, token.chain.value, depth - 1, Extended(Base(kind, parents), name, token), node);
      chain := [name] + rest;
      LongerSpelled(info, kind, depth, parents, name, token, rest, node);
    }
  }

  lemma NoEntries(info: Info, kind: string, depth: int, parents: seq<string>)
    requires depth > 0 && kind in info.tokens
    ensures AllNodes(Entries(info, kind, depth, parents, 0)) == []
  {
  }

  lemma LastEntry(info: Info, kind: string, depth: int, parents: seq<string>, n: nat, name: string, token: TokenInfo,
                  node: Node)
    requires depth > 0 && kind in info.tokens && 0 < n <= |info.tokens[kind]|
    requires info.tokens[kind][n - 1] == (name, token)
    requires node in AllNodes(Entries(info, kind, depth, parents, n))
    requires node !in AllNodes(Entries(info, kind, depth, parents, n - 1))
    ensures !Repeated(parents, name)
    ensures node == Entry(info, kind, depth, parents, name, token) || (token.chain.Some? &&
              node in AllNodes(TokenData(info, token.chain.value, depth - 1,
                Extended(Base(kind, parents), name, token))))
  {
    hide TokenData, Repeated, Extended, Base;
    var before := Entries(info, kind, depth, parents, n - 1);
    assert before + [] == before;
    var entry := Entry(info, kind, depth, parents, name, token);
    AllNodesConcat(before, [entry]);
    AllNodesOne(entry);
  }

  lemma EntrySpelled(info: Info, kind: string, depth: int, parents: seq<string>, name: string, token: TokenInfo)
    requires depth > 0 && kind in info.types && kind in info.tokens && !Repeated(parents, name)
    requires Find(info.tokens[kind], name) == Some(token)
    ensures Listed(info, kind, depth, parents, [name])
    ensures SpelledAs(info, kind, parents, [name], Entry(info, kind, depth, parents, name, token))
  {
    SpelledOne(info, kind, name, token);
    assert Base(kind, parents) + Extended([], name, token) == Extended(Base(kind, parents), name, token);
  }

  lemma LongerSpelled(info: Info, kind: string, depth: int, parents: seq<string>, name: string, token: TokenInfo,
                      rest: seq<string>, node: Node)
    requires depth > 0 && kind in info.types && kind in info.tokens && !Repeated(parents, name)
    requires Find(info.tokens[kind], name) == Some(token) && token.chain.Some?
    requires var names := Extended(Base(kind, parents), name, token);
             Listed(info, token.chain.value, depth - 1, names, rest) &&
               SpelledAs(info, token.chain.value, names, rest, node)
    ensures Listed(info, kind, depth, parents, [name] + rest) && SpelledAs(info, kind, parents, [name] + rest, node)
  {
    hide Find, Raw, Implode, Base, Repeated, Extended;
    var names := Extended(Base(kind, parents), name, token);
    assert ([name] + rest)[1..] == rest;
    SpelledMore(info, kind, name, token, rest);
    ExtendedEmpty(Base(kind, parents), name, token);
    BaseIs(token.chain.value, names);
    assert Base(kind, parents) + (Extended([], name, token) + Spelled(info, token.chain.value, rest)) ==
           names + Spelled(info, token.chain.value, rest);
  }

  lemma ExtendedEmpty(base: seq<string>, name: string, token: TokenInfo)
    ensures Extended(base, name, token) == base + Extended([], name, token) && Extended(base, name, token) != []
  {
  }

  lemma BaseIs(kind: string, parents: seq<string>)
    requires parents != []
    ensures Base(kind, parents) == parents
  {
  }

  lemma SpelledOne(info: Info, kind: string, name: string, token: TokenInfo)
    requires kind in info.tokens && Find(info.tokens[kind], name) == Some(token)
    ensures Spelled(info, kind, [name]) == Extended([], name, token)
  {
    assert [name][1..] == [];
    assert Extended([], name, token) + [] == Extended([], name, token);
  }

  lemma SpelledMore(info: Info, kind: string, name: string, token: TokenInfo, rest: seq<string>)
    requires kind in info.tokens && Find(info.tokens[kind], name) == Some(token) && token.chain.Some?
    ensures Spelled(info, kind, [name] + rest) == Extended([], name, token) + Spelled(info, token.chain.value, rest)
  {
    assert ([name] + rest)[1..] == rest;
  }

  /** Every listed chain has a node. */
  lemma {:induction false} ListedHasNode(info: Info, kind: string, depth: int, parents: seq<string>, chain: seq<string>)
    returns (node: Node)
    requires WellNamed(info) && Listed(info, kind, depth, parents, chain)
    ensures node in AllNodes(TokenData(info, kind, depth, parents)) && SpelledAs(info, kind, parents, chain, node)
    decreases |chain|
  {
    var name := chain[0];
    var token := Find(info.tokens[kind], name).value;
    var i :| 0 <= i < |info.tokens[kind]| && info.tokens[kind][i] == (name, token);
    var entry := Entry(info, kind, depth, parents, name, token);
    if |chain| == 1 {
      node := entry;
      assert chain == [name];
      EntrySpelled(info, kind, depth, parents, name, token);
    } else {
      node := ListedHasNode(info, token.chain.value, depth - 1, Extended(Base(kind, parents), name, token), chain[1..]);
      assert chain == [name] + chain[1..];
      LongerSpelled(info, kind, depth, parents, name, token, chain[1..], node);
    }
    EntryInside(info, kind, depth, parents, |info.tokens[kind]|, i, node);
  }

  lemma {:induction false} EntryInside(info: Info, kind: string, depth: int, parents: seq<string>, n: nat, i: nat,
                                       node: Node)
    requires depth > 0 && kind in info.tokens && i < n <= |info.tokens[kind]|
    requires !Repeated(parents, info.tokens[kind][i].0)
    requires var (name, token) := info.tokens[kind][i]; var entry := Entry(info, kind, depth, parents, name, token);
             node == entry || node in AllNodes(entry.children)
    ensures node in AllNodes(Entries(info, kind, depth, parents, n))
    decreases n
  {
    var (name, token) := info.tokens[kind][n - 1];
    var before := Entries(info, kind, depth, parents, n - 1);
    if !Repeated(parents, name) {
      var entry := Entry(info, kind, depth, parents, name, token);
      AllNodesConcat(before, [entry]);
      AllNodesOne(entry);
    } else {
      assert before + [] == before;
    }
    if i < n - 1 {
      EntryInside(info, kind, depth, parents, n - 1, i, node);
    }
  }

  // --- The texts of a node ---

  /** The text of the names, each behind a colon. */
  function Tail(names: seq<string>): string {
    if names == [] then "" else ":" + names[0] + Tail(names[1..])
  }

  lemma {:induction false} ImplodeTail(name: string, names: seq<string>)
    ensures Implode([name] + names, ':') == name + Tail(names)
    decreases |names|
  {
    if names != [] {
      assert ([name] + names)[1..] == names == [names[0]] + names[1..];
      ImplodeTail(names[0], names[1..]);
    } else {
      assert [name] + names == [name];
    }
  }

  lemma {:induction false} TailConcat(a: seq<string>, b: seq<string>)
    ensures Tail(a + b) == Tail(a) + Tail(b)
  {
    if a == [] {
      assert a + b == b;
    } else {
      assert (a + b)[1..] == a[1..] + b && (a + b)[0] == a[0];
      TailConcat(a[1..], b);
    }
  }

  /**
   * At the top of the tree of a type a token is written behind the type and a colon, in brackets; its own name leaves
   * the type out; a question mark follows if any text may follow; and it has no parent.
   */
  lemma TopEntryTexts(info: Info, kind: string, depth: int, name: string, token: TokenInfo)
    requires depth > 0
    ensures var node := Entry(info, kind, depth, [], name, token);
            var own := if token.dynamic then name + ":?" else name;
            node.raw == "[" + kind + ":" + own + "]" && node.token == own && node.parent == None && node.info == token
  {
    NodeTexts([kind], name, token);
    assert Tail([]) == "" && kind + "" == kind;
  }

  lemma NodeTexts(base: seq<string>, name: string, token: TokenInfo)
    requires base != []
    ensures var names := Extended(base, name, token);
            var own := if token.dynamic then name + ":?" else name;
            && Raw(names) == "[" + base[0] + Tail(base[1..]) + ":" + own + "]"
            && Implode(names[1..], ':') ==
                 if |base| == 1 then own else Implode(base[1..], ':') + ":" + own
  {
    RawText(base, name, token);
    OwnText(base, name, token);
  }

  lemma RawText(base: seq<string>, name: string, token: TokenInfo)
    requires base != []
    ensures Raw(Extended(base, name, token)) ==
              "[" + base[0] + Tail(base[1..]) + ":" + (if token.dynamic then name + ":?" else name) + "]"
  {
    var more := [name] + if token.dynamic then ["?"] else [];
    OwnTail(name, token);
    hide Tail, Implode;
    assert Extended(base, name, token) == [base[0]] + (base[1..] + more);
    ImplodeTail(base[0], base[1..] + more);
    TailConcat(base[1..], more);
    Bracketed(base[0], Tail(base[1..]), if token.dynamic then name + ":?" else name);
  }

  lemma Bracketed(first: string, tail: string, own: string)
    ensures "[" + (first + (tail + (":" + own))) + "]" == "[" + first + tail + ":" + own + "]"
  {
  }

  lemma OwnText(base: seq<string>, name: string, token: TokenInfo)
    requires base != []
    ensures var own := if token.dynamic then name + ":?" else name;
            Implode(Extended(base, name, token)[1..], ':') ==
              if |base| == 1 then own else Implode(base[1..], ':') + ":" + own
  {
    var names := Extended(base, name, token);
    var more := [name] + if token.dynamic then ["?"] else [];
    OwnTail(name, token);
    hide Tail, Implode;
    if |base| == 1 {
      assert names[1..] == [name] + more[1..];
      ImplodeTail(name, more[1..]);
    } else {
      assert names[1..] == [base[1]] + (base[2..] + more) && base[1..] == [base[1]] + base[2..];
      ImplodeTail(base[1], base[2..] + more);
      ImplodeTail(base[1], base[2..]);
      TailConcat(base[2..], more);
    }
  }

  lemma OwnTail(name: string, token: TokenInfo)
    ensures var more := [name] + if token.dynamic then ["?"] else [];
            var own := if token.dynamic then name + ":?" else name;
            Tail(more) == ":" + own && name + Tail(more[1..]) == own
  {
    var more := [name] + if token.dynamic then ["?"] else [];
    assert Tail(more) == ":" + name + Tail(more[1..]);
    if token.dynamic { assert more[1..] == ["?"] && Tail(["?"]) == ":" + "?" + Tail(["?"][1..]); }
  }

  /** Every child is written as its parent, with its own name before the closing bracket, and names that parent. */
  lemma ChildTexts(info: Info, kind: string, depth: int, parents: seq<string>, name: string, token: TokenInfo,
                   child: Node)
    requires depth > 0 && child in Entry(info, kind, depth, parents, name, token).children
    ensures var node := Entry(info, kind, depth, parents, name, token);
            && child.parent == Some(node.raw) && node.raw != ""
            && exists own :: child.raw == node.raw[..|node.raw| - 1] + ":" + own + "]" && OwnName(info, token, own)
                             && child.token == node.token + ":" + own
  {
    var names := Extended(Base(kind, parents), name, token);
    ChildrenOf(info, kind, depth, parents, name, token);
    hide TokenData, Entries, Entry, Implode, Tail;
    var own := EntryAmong(info, token.chain.value, depth - 1, names, |info.tokens[token.chain.value]|, child);
    assert names == [names[0]] + names[1..];
    ImplodeTail(names[0], names[1..]);
    var head := "[" + names[0] + Tail(names[1..]);
    assert Raw(names) == head + "]" && Raw(names)[..|Raw(names)| - 1] == head;
  }

  lemma ChildrenOf(info: Info, kind: string, depth: int, parents: seq<string>, name: string, token: TokenInfo)
    requires depth > 0
    ensures var node, names := Entry(info, kind, depth, parents, name, token),
               Extended(Base(kind, parents), name, token);
            && |names| > 1 && node.raw == Raw(names) && node.token == Implode(names[1..], ':')
            && (node.children != [] ==>
                  && token.chain.Some? && depth > 1 && token.chain.value in info.tokens
                  && node.children == Entries(info, token.chain.value, depth - 1, names,
                                              |info.tokens[token.chain.value]|))
  {
    hide Entries, Implode;
  }

  /** The name of a token that may follow, with a question mark if any text may follow it. */
  ghost predicate OwnName(info: Info, token: TokenInfo, own: string) {
    && token.chain.Some? && token.chain.value in info.tokens
    && exists entry :: entry in info.tokens[token.chain.value] && own == if entry.1.dynamic then entry.0 + ":?"
      else entry.0
  }

  lemma {:induction false} EntryAmong(info: Info, kind: string, depth: int, parents: seq<string>, n: nat, child: Node)
    returns (own: string)
    requires depth > 0 && kind in info.tokens && n <= |info.tokens[kind]| && |parents| > 1
    requires child in Entries(info, kind, depth, parents, n)
    ensures child.parent == Some(Raw(parents))
    ensures child.raw == "[" + parents[0] + Tail(parents[1..]) + ":" + own + "]"
    ensures child.token == Implode(parents[1..], ':') + ":" + own
    ensures exists entry :: entry in info.tokens[kind] && own == if entry.1.dynamic then entry.0 + ":?" else entry.0
  {
    var entry := info.tokens[kind][n - 1];
    if child in Entries(info, kind, depth, parents, n - 1) {
      own := EntryAmong(info, kind, depth, parents, n - 1, child);
    } else {
      own := if entry.1.dynamic then entry.0 + ":?" else entry.0;
      NodeTexts(parents, entry.0, entry.1);
      assert entry in info.tokens[kind];
    }
  }
}
