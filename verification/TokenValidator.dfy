/** The check of chained tokens, and its agreement with the tree of tokens. */
module TokenValidator {
  import opened Wrappers
  import opened DelimitedText
  import opened TokenTree

  function Known(info: Info, kind: string, name: string): Option<TokenInfo> {
    if kind in info.tokens then Find(info.tokens[kind], name) else None
  }

  /** Whether a token, written with its chain but without its type, is valid for a type. */
  predicate Accepts(info: Info, kind: string, token: string)
    decreases |token|
  {
    || Known(info, kind, token).Some?
    || (match Position(token, ':')
        case None => false
        case Some(colon) =>
          match Known(info, kind, token[..colon])
          case None => false
          case Some(first) =>
            first.dynamic || (first.chain.Some? && Accepts(info, first.chain.value, token[colon + 1..])))
  }

  /** The full tokens, in order, of those that are not valid. */
  function Rejected(info: Info, kind: string, tokens: seq<(string, string)>): seq<string> {
    if tokens == [] then []
    else Rejected(info, kind, tokens[..|tokens| - 1]) +
         if Accepts(info, kind, tokens[|tokens| - 1].0) then [] else [tokens[|tokens| - 1].1]
  }

  /** The tokens that begin with the prefix, without it. */
  function WithPrefix(token: (string, string), prefix: string): (r: seq<(string, string)>)
    ensures r == [] || (|r| == 1 && |r[0].0| < |token.0| && r[0].1 == token.1)
  {
    match Position(token.0, ':')
    case None => []
    case Some(colon) => if token.0[..colon] == prefix then [(token.0[colon + 1..], token.1)] else []
  }

  ghost function TotalLength(tokens: seq<(string, string)>): nat {
    if tokens == [] then 0 else |tokens[|tokens| - 1].0| + 1 + TotalLength(tokens[..|tokens| - 1])
  }

  /** `invalid` holds the full tokens at the places `at`, which are those of all tokens that are not valid, in order. */
  ghost predicate PicksInvalid(info: Info, kind: string, tokens: seq<(string, string)>, invalid: seq<string>,
                               at: seq<nat>) {
    && |at| == |invalid|
    && (forall k | 0 <= k < |at| ::
          at[k] < |tokens| && !Accepts(info, kind, tokens[at[k]].0) && invalid[k] == tokens[at[k]].1)
    && (forall k, l | 0 <= k < l < |at| :: at[k] < at[l])
    && (forall i | 0 <= i < |tokens| && !Accepts(info, kind, tokens[i].0) :: i in at)
  }

  lemma {:induction false} RejectedPlaces(info: Info, kind: string, tokens: seq<(string, string)>)
    returns (at: seq<nat>)
    ensures PicksInvalid(info, kind, tokens, Rejected(info, kind, tokens), at)
  {
    hide Accepts;
    if tokens == [] {
      at := [];
    } else {
      var n := |tokens| - 1;
      at := RejectedPlaces(info, kind, tokens[..n]);
      var before := Rejected(info, kind, tokens[..n]);
      hide Rejected;
      if Accepts(info, kind, tokens[n].0) {
        PicksNoMore(info, kind, tokens, before, at);
      } else {
        PicksOneMore(info, kind, tokens, before, at);
        at := at + [n];
      }
    }
  }

  lemma PicksNoMore(info: Info, kind: string, tokens: seq<(string, string)>, invalid: seq<string>, at: seq<nat>)
    requires tokens != [] && PicksInvalid(info, kind, tokens[..|tokens| - 1], invalid, at)
    requires Accepts(info, kind, tokens[|tokens| - 1].0)
    ensures PicksInvalid(info, kind, tokens, invalid, at) && invalid + [] == invalid
  {
    hide Accepts;
    assert forall i | 0 <= i < |tokens| - 1 :: tokens[..|tokens| - 1][i] == tokens[i];
  }

  lemma PicksOneMore(info: Info, kind: string, tokens: seq<(string, string)>, invalid: seq<string>, at: seq<nat>)
    requires tokens != [] && PicksInvalid(info, kind, tokens[..|tokens| - 1], invalid, at)
    requires !Accepts(info, kind, tokens[|tokens| - 1].0)
    ensures PicksInvalid(info, kind, tokens, invalid + [tokens[|tokens| - 1].1], at + [|tokens| - 1])
  {
    hide Accepts;
    var n := |tokens| - 1;
    assert forall i | 0 <= i < n :: tokens[..n][i] == tokens[i];
    var more := at + [n];
    assert more[|at|] == n;
    forall i | 0 <= i < |tokens| && !Accepts(info, kind, tokens[i].0) ensures i in more {
      if i < n { assert i in at; }
    }
  }

  /** Lists exactly the tokens that are not valid. */
  method GetInvalidTokens(info: Info, kind: string, tokens: seq<(string, string)>) returns (invalid: seq<string>)
    ensures invalid == Rejected(info, kind, tokens)
    ensures exists at :: PicksInvalid(info, kind, tokens, invalid, at)
    decreases TotalLength(tokens)
  {
    hide Rejected, PicksInvalid;
    invalid := [];
    NoneRejected(info, kind);
    for i := 0 to |tokens|
      invariant invalid == Rejected(info, kind, tokens[..i])
    {
      var (token, full) := tokens[i];
      RejectedNext(info, kind, tokens, i);
      if Known(info, kind, token).None? {
        var colon := Position(token, ':');
        var first := Known(info, kind, if colon.Some? then token[..colon.value] else token);
        if first.None? {
          invalid := invalid + [full];
        } else if colon.Some? {
          if first.value.dynamic {
          } else if first.value.chain.None? {
            invalid := invalid + [full];
          } else {
            var rest := WithPrefix((token, full), token[..colon.value]);
            ShorterRest(tokens, i, rest);
            RejectedOne(info, first.value.chain.value, rest);
            var more := GetInvalidTokens(info, first.value.chain.value, rest);
            invalid := invalid + more;
          }
        }
      }
    }
    assert tokens[..|tokens|] == tokens;
    RejectedArePicked(info, kind, tokens);
  }

  lemma NoneRejected(info: Info, kind: string)
    ensures Rejected(info, kind, []) == []
  {
  }

  lemma RejectedNext(info: Info, kind: string, tokens: seq<(string, string)>, i: nat)
    requires i < |tokens|
    ensures Rejected(info, kind, tokens[..i + 1]) ==
              Rejected(info, kind, tokens[..i]) + if Accepts(info, kind, tokens[i].0) then [] else [tokens[i].1]
  {
    assert tokens[..i + 1][..i] == tokens[..i];
  }

  lemma RejectedArePicked(info: Info, kind: string, tokens: seq<(string, string)>)
    ensures exists at :: PicksInvalid(info, kind, tokens, Rejected(info, kind, tokens), at)
  {
    hide *;
    var at := RejectedPlaces(info, kind, tokens);
  }

  lemma ShorterRest(tokens: seq<(string, string)>, i: nat, rest: seq<(string, string)>)
    requires i < |tokens| && |rest| == 1 && |rest[0].0| < |tokens[i].0|
    ensures TotalLength(rest) < TotalLength(tokens)
  {
    assert rest[..0] == [] && TotalLength(rest) == |rest[0].0| + 1;
    LongEnough(tokens, i);
  }

  lemma {:induction false} LongEnough(tokens: seq<(string, string)>, i: nat)
    requires i < |tokens|
    ensures TotalLength(tokens) > |tokens[i].0|
  {
    if i < |tokens| - 1 { LongEnough(tokens[..|tokens| - 1], i); }
  }

  lemma RejectedOne(info: Info, kind: string, rest: seq<(string, string)>)
    requires |rest| == 1
    ensures Rejected(info, kind, rest) == if Accepts(info, kind, rest[0].0) then [] else [rest[0].1]
  {
    assert rest[..0] == [];
  }

  // --- Validity of a chain of names ---

  /** Each name is a token of the type that the one before leads to, as far as the first dynamic token. */
  ghost predicate ValidChain(info: Info, kind: string, names: seq<string>)
    decreases |names|
  {
    && names != [] && Known(info, kind, names[0]).Some?
    && (|names| == 1 ||
        var first := Known(info, kind, names[0]).value;
        first.dynamic || (first.chain.Some? && ValidChain(info, first.chain.value, names[1..])))
  }

  /** The validator accepts the text of a chain exactly if the chain is valid. */
  lemma {:induction false} AcceptsIffValid(info: Info, kind: string, names: seq<string>)
    requires WellNamed(info) && names != [] && forall name | name in names :: Free(name, ':')
    ensures Accepts(info, kind, Implode(names, ':')) <==> ValidChain(info, kind, names)
    decreases |names|
  {
    if |names| == 1 {
      PositionNone(names[0], ':');
    } else {
      var rest := Implode(names[1..], ':');
      var token := names[0] + [':'] + rest;
      PositionFirst(names[0], rest, ':');
      assert token[..|names[0]|] == names[0] && token[|names[0]| + 1..] == rest;
      NoColonInName(info, kind, token, |names[0]|);
      var first := Known(info, kind, names[0]);
      if first.Some? && first.value.chain.Some? {
        AcceptsIffValid(info, first.value.chain.value, names[1..]);
      }
    }
  }

  lemma NoColonInName(info: Info, kind: string, token: string, i: nat)
    requires WellNamed(info) && i < |token| && token[i] == ':'
    ensures Known(info, kind, token).None?
  {
  }

  // --- The tree and the validator agree ---

  lemma {:induction false} SpelledValid(info: Info, kind: string, depth: int, parents: seq<string>, chain: seq<string>)
    requires WellNamed(info) && Listed(info, kind, depth, parents, chain)
    ensures ValidChain(info, kind, Spelled(info, kind, chain))
    ensures forall name | name in Spelled(info, kind, chain) :: Free(name, ':')
    decreases |chain|
  {
    var token := Find(info.tokens[kind], chain[0]).value;
    NameFree(info, kind, chain[0]);
    if |chain| == 1 {
      assert chain == [chain[0]];
      SpelledOne(info, kind, chain[0], token);
    } else {
      var next := Extended(Base(kind, parents), chain[0], token);
      SpelledValid(info, token.chain.value, depth - 1, next, chain[1..]);
      assert chain == [chain[0]] + chain[1..];
      SpelledMore(info, kind, chain[0], token, chain[1..]);
      var names := Spelled(info, kind, chain);
      assert !token.dynamic ==> names[1..] == Spelled(info, token.chain.value, chain[1..]);
    }
  }

  lemma NameFree(info: Info, kind: string, name: string)
    requires WellNamed(info) && Known(info, kind, name).Some?
    ensures Free(name, ':')
  {
    var k :| 0 <= k < |info.tokens[kind]| && info.tokens[kind][k] == (name, Known(info, kind, name).value);
  }

  /** The validator accepts every token in the tree. */
  lemma TreeIsAccepted(info: Info, kind: string, depth: int, node: Node)
    requires WellNamed(info) && node in AllNodes(TokenData(info, kind, depth, []))
    ensures Accepts(info, kind, node.token)
  {
    var chain := NodesAreListed(info, kind, depth, [], node);
    SpelledValid(info, kind, depth, [], chain);
    var names := Spelled(info, kind, chain);
    assert (Base(kind, []) + names)[1..] == names;
    AcceptsIffValid(info, kind, names);
  }

  /** A valid chain none of whose tokens is dynamic. */
  ghost predicate StaticChain(info: Info, kind: string, names: seq<string>)
    decreases |names|
  {
    && names != [] && Known(info, kind, names[0]).Some? && !Known(info, kind, names[0]).value.dynamic
    && (|names| == 1 ||
        var first := Known(info, kind, names[0]).value;
        first.chain.Some? && StaticChain(info, first.chain.value, names[1..]))
  }

  /** No name but `entity` stands twice. */
  predicate RepeatsOnlyEntity(names: seq<string>) {
    forall i, j | 0 <= i < j < |names| && names[i] == names[j] :: names[i] == "entity"
  }

  /** Static chains are listed exactly if they are short enough and repeat no name that stands above them. */
  lemma {:induction false} StaticListedIff(info: Info, kind: string, depth: int, parents: seq<string>,
                                           names: seq<string>)
    requires info.tokens.Keys <= info.types && StaticChain(info, kind, names) && depth >= 0
    ensures Listed(info, kind, depth, parents, names) <==>
              && |names| <= depth && RepeatsOnlyEntity(names)
              && forall i | 0 <= i < |names| :: !Repeated(parents, names[i])
    decreases |names|
  {
    var first := Known(info, kind, names[0]).value;
    assert kind in info.tokens.Keys;
    if |names| > 1 && depth > 0 {
      var next := Extended(Base(kind, parents), names[0], first);
      StaticListedIff(info, first.chain.value, depth - 1, next, names[1..]);
      RepeatedNext(kind, parents, names, first);
    }
  }

  lemma RepeatedNext(kind: string, parents: seq<string>, names: seq<string>, first: TokenInfo)
    requires |names| > 1 && !first.dynamic
    ensures (RepeatsOnlyEntity(names) && forall i | 0 <= i < |names| :: !Repeated(parents, names[i])) <==>
              && RepeatsOnlyEntity(names[1..]) && !Repeated(parents, names[0])
              && forall i | 0 <= i < |names[1..]| ::
                !Repeated(Extended(Base(kind, parents), names[0], first), names[1..][i])
  {
    var next := Extended(Base(kind, parents), names[0], first);
    forall name ensures Repeated(next, name) <==> Repeated(parents, name) || (name != "entity" && name == names[0]) {
      assert next == Base(kind, parents) + [names[0]];
      assert next[1..] == Base(kind, parents)[1..] + [names[0]];
    }
    assert forall i | 0 <= i < |names[1..]| :: names[1..][i] == names[i + 1];
    if RepeatsOnlyEntity(names[1..]) && forall i | 0 <= i < |names[1..]| :: !Repeated(next, names[1..][i]) {
      forall i, j | 0 <= i < j < |names| && names[i] == names[j] ensures names[i] == "entity" {
        assert names[j] == names[1..][j - 1];
        if i > 0 { assert names[i] == names[1..][i - 1]; }
      }
      forall i | 0 < i < |names| ensures !Repeated(parents, names[i]) {
        assert names[i] == names[1..][i - 1];
      }
    }
  }

  lemma {:induction false} StaticSpelled(info: Info, kind: string, names: seq<string>)
    requires StaticChain(info, kind, names)
    ensures Spelled(info, kind, names) == names
    decreases |names|
  {
    var first := Known(info, kind, names[0]).value;
    assert names == [names[0]] + names[1..];
    if |names| == 1 {
      SpelledOne(info, kind, names[0], first);
    } else {
      StaticSpelled(info, first.chain.value, names[1..]);
      SpelledMore(info, kind, names[0], first, names[1..]);
    }
  }

  /** Only the chain itself is spelled like a static chain. */
  lemma {:induction false} SpelledStatic(info: Info, kind: string, depth: int, parents: seq<string>,
                                         chain: seq<string>, names: seq<string>)
    requires StaticChain(info, kind, names) && Listed(info, kind, depth, parents, chain)
    requires Spelled(info, kind, chain) == names
    ensures chain == names
    decreases |chain|
  {
    var token := Find(info.tokens[kind], chain[0]).value;
    assert chain == [chain[0]] + chain[1..];
    if |chain| == 1 {
      SpelledOne(info, kind, chain[0], token);
    } else {
      SpelledMore(info, kind, chain[0], token, chain[1..]);
      assert names[0] == chain[0];
      assert names[1..] == Spelled(info, token.chain.value, chain[1..]);
      var next := Extended(Base(kind, parents), chain[0], token);
      SpelledNotEmpty(info, token.chain.value, depth - 1, next, chain[1..]);
      SpelledStatic(info, token.chain.value, depth - 1, next, chain[1..], names[1..]);
    }
  }

  lemma SpelledNotEmpty(info: Info, kind: string, depth: int, parents: seq<string>, chain: seq<string>)
    requires Listed(info, kind, depth, parents, chain)
    ensures Spelled(info, kind, chain) != [] && Spelled(info, kind, chain)[0] == chain[0]
  {
  }

  lemma RawInjective(a: seq<string>, b: seq<string>)
    requires a != [] && b != [] && Raw(a) == Raw(b)
    requires (forall name | name in a :: Free(name, ':')) && (forall name | name in b :: Free(name, ':'))
    ensures a == b
  {
    var (x, y) := (Implode(a, ':'), Implode(b, ':'));
    assert Raw(a)[1..|Raw(a)| - 1] == x && Raw(b)[1..|Raw(b)| - 1] == y;
    ExplodeImplode(a, ':');
    ExplodeImplode(b, ':');
  }

  /**
   * A valid chain without dynamic tokens stands in the tree exactly if it is no longer than the depth and repeats no
   * name but `entity`, however cyclic the types are.
   */
  lemma TreeListsExactly(info: Info, kind: string, depth: nat, names: seq<string>)
    requires WellNamed(info) && info.tokens.Keys <= info.types && StaticChain(info, kind, names) && Free(kind, ':')
    ensures (exists node :: node in AllNodes(TokenData(info, kind, depth, [])) && node.raw == Raw([kind] + names)) <==>
              |names| <= depth && RepeatsOnlyEntity(names)
  {
    StaticListedIff(info, kind, depth, [], names);
    StaticSpelled(info, kind, names);
    if |names| <= depth && RepeatsOnlyEntity(names) {
      var node := ListedHasNode(info, kind, depth, [], names);
      assert node.raw == Raw([kind] + names);
    }
    if node :| node in AllNodes(TokenData(info, kind, depth, [])) && node.raw == Raw([kind] + names) {
      var chain := NodesAreListed(info, kind, depth, [], node);
      SpelledValid(info, kind, depth, [], chain);
      StaticFree(info, kind, names);
      RawInjective([kind] + Spelled(info, kind, chain), [kind] + names);
      assert ([kind] + Spelled(info, kind, chain))[1..] == ([kind] + names)[1..];
      SpelledStatic(info, kind, depth, [], chain, names);
    }
  }

  lemma {:induction false} StaticFree(info: Info, kind: string, names: seq<string>)
    requires WellNamed(info) && StaticChain(info, kind, names)
    ensures forall name | name in names :: Free(name, ':')
    decreases |names|
  {
    NameFree(info, kind, names[0]);
    if |names| > 1 {
      StaticFree(info, Known(info, kind, names[0]).value.chain.value, names[1..]);
      assert names == [names[0]] + names[1..];
    }
  }

  /** A chained token is found under the name before its first colon, and under no other. */
  lemma PrefixFound(name: string, rest: string, full: string, prefix: string)
    requires Free(name, ':')
    ensures WithPrefix((name + [':'] + rest, full), prefix) == if name == prefix then [(rest, full)] else []
    ensures WithPrefix((name, full), prefix) == []
  {
    PositionFirst(name, rest, ':');
    PositionNone(name, ':');
    assert (name + [':'] + rest)[..|name|] == name && (name + [':'] + rest)[|name| + 1..] == rest;
  }
}
